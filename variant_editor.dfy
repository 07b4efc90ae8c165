// The non-Qt helpers of the variant editor: conforming a variant name, the
// pre-order walk of a prim spec's nested variant specs, the first selection
// of each set among them, the selection part of a spec path, the declared
// variant set names, and the tests on what is selected in the editor.

module VariantEditor {
  import opened Wrappers
  import opened Selections
  import opened Variants

  // ------------------------------------------------------------ MakeValid

  /** A character the pattern allows first: ASCII letters and digits, `_`,
      `|`, `-` and `.`. */
  predicate FirstOk(c: char)
  {
    ('a' <= c <= 'z') || ('A' <= c <= 'Z') || ('0' <= c <= '9') || c == '_' || c == '|' || c == '-' || c == '.'
  }

  /** A character the pattern allows after the first: the same but `.`. */
  predicate RestOk(c: char)
  {
    FirstOk(c) && c != '.'
  }

  predicate AllRestOk(s: string)
  {
    forall i :: 0 <= i < |s| ==> RestOk(s[i])
  }

  /** A valid variant name: a permitted first character followed by
      permitted other characters, and nothing else. */
  predicate ValidName(s: string)
  {
    |s| >= 1 && FirstOk(s[0]) && AllRestOk(s[1..])
  }

  /** Every `.` replaced by `_`. */
  function ReplaceDots(s: string): (r: string)
    ensures |r| == |s|
    ensures forall i :: 0 <= i < |s| ==> r[i] == (if s[i] == '.' then '_' else s[i])
  {
    if s == [] then [] else [if s[0] == '.' then '_' else s[0]] + ReplaceDots(s[1..])
  }

  /** The name once every dot after the first character is replaced; a name
      without dots is left as it is. */
  function Undotted(name: string): (r: string)
    ensures |r| == |name| && (|r| > 0 ==> r[0] == name[0])
    ensures forall i :: 0 < i < |name| ==> r[i] == (if name[i] == '.' then '_' else name[i])
    ensures forall i :: 0 < i < |r| ==> r[i] != '.'
  {
    if '.' in name then [name[0]] + ReplaceDots(name[1..]) else name
  }

  /** The error `MakeValid` raises. */
  function NotConformed(name: string): (r: string)
  {
    "Could not conform '" + name + "' to a valid variant name"
  }

  /** The pattern as Python's `re.match` reads it: `$` matches at the end of
      the name and also just before a newline that ends it. */
  predicate MatchesAsWritten(s: string)
  {
    |s| >= 1 && FirstOk(s[0])
    && (AllRestOk(s[1..]) || (|s| >= 2 && s[|s| - 1] == '\n' && AllRestOk(s[1..|s| - 1])))
  }

  /** `MakeValid` as written. */
  function MakeValidAsWritten(name: string): (r: Result<string, string>)
    ensures r.Success? ==> r.value == Undotted(name) && MatchesAsWritten(r.value)
    ensures r.Failure? ==> !MatchesAsWritten(Undotted(name))
  {
    var dotted := Undotted(name);
    if MatchesAsWritten(dotted) then Success(dotted) else Failure(NotConformed(dotted))
  }

  /** A name ending in a newline passes the check as written. */
  lemma TrailingNewlineAccepted()
    ensures MakeValidAsWritten("a\n") == Success("a\n")
    ensures !ValidName("a\n")
  {
    var s := "a\n";
    assert s[1..] == "\n" && s[1..|s| - 1] == [];
    assert !RestOk(s[1]);
  }

  /** `MakeValid` as evidently intended: the whole name must match. */
  function MakeValid(name: string): (r: Result<string, string>)
    ensures r.Success? <==> ValidName(Undotted(name))
    ensures r.Success? ==> r.value == Undotted(name)
    ensures r.Failure? ==> r.error == NotConformed(Undotted(name))
  {
    var dotted := Undotted(name);
    if ValidName(dotted) then Success(dotted) else Failure(NotConformed(dotted))
  }

  /** What `MakeValid` returns is valid and keeps the name's length, with
      only dots after the first character turned into `_`; the empty name
      fails; conforming a conformed name changes nothing. */
  lemma MakeValidSpec(name: string)
    ensures name == [] ==> MakeValid(name).Failure?
    ensures MakeValid(name).Success? ==> ValidName(MakeValid(name).value) && |MakeValid(name).value| == |name|
    ensures MakeValid(name).Success? ==> MakeValid(MakeValid(name).value) == MakeValid(name)
    ensures ValidName(name) ==> MakeValid(name) == Success(name)
  {
    if MakeValid(name).Success? {
      var r := MakeValid(name).value;
      UndottedValid(r);
    }
    if ValidName(name) {
      UndottedValid(name);
    }
  }

  /** A valid name has no dot after its first character. */
  lemma UndottedValid(s: string)
    requires ValidName(s)
    ensures Undotted(s) == s
  {
    forall i | 0 < i < |s|
      ensures s[i] != '.'
    {
      assert s[1..][i - 1] == s[i];
    }
  }

  // ---------------------------------------------------- variant spec paths

  /** The path of a prim spec or of one of its nested variant specs: the
      prim's path string followed by the variant selections entered. */
  datatype SpecPath = SpecPath(primPath: string, selections: seq<PrimVariant>)

  /** `pathString`. */
  function PathString(p: SpecPath): (r: string)
    ensures |r| >= |p.primPath| && r[..|p.primPath|] == p.primPath
  {
    p.primPath + SelectionKey(p.selections)
  }

  /** `StripAllVariantSelections`. */
  function StripAllVariantSelections(p: SpecPath): (r: SpecPath)
    ensures r.selections == [] && r.primPath == p.primPath
  {
    SpecPath(p.primPath, [])
  }

  /** `AppendVariantSelection`. */
  function AppendVariantSelection(p: SpecPath, setName: string, variantName: string): (r: SpecPath)
    ensures r.primPath == p.primPath && |r.selections| == |p.selections| + 1
    ensures r.selections[..|p.selections|] == p.selections
  {
    SpecPath(p.primPath, p.selections + [PrimVariant(setName, variantName)])
  }

  /** `variantKeyFunc`: the path string past the stripped path's string. */
  function VariantKeyFunc(p: SpecPath): (r: string)
  {
    var full := PathString(p);
    var stripped := PathString(StripAllVariantSelections(p));
    if |stripped| <= |full| then full[|stripped|..] else ""
  }

  /** The key of a variant spec's path is the selection key of the
      selections it enters, so paths of one prim share a key exactly when
      they enter the same selections. */
  lemma VariantKeyFuncSpec(p: SpecPath, q: SpecPath)
    ensures VariantKeyFunc(p) == SelectionKey(p.selections)
    ensures p.primPath == q.primPath ==> (VariantKeyFunc(p) == VariantKeyFunc(q) <==> PathString(p) == PathString(q))
  {
    assert PathString(StripAllVariantSelections(p)) == p.primPath;
    assert PathString(StripAllVariantSelections(q)) == q.primPath;
    assert PathString(p)[|p.primPath|..] == SelectionKey(p.selections);
    assert PathString(q)[|q.primPath|..] == SelectionKey(q.selections);
  }

  /** The innermost selection of a path, when it has one. */
  function GetVariantSelection(p: SpecPath): (r: Option<PrimVariant>)
    ensures r.Some? <==> p.selections != []
    ensures r.Some? ==> r.value == p.selections[|p.selections| - 1]
  {
    if p.selections == [] then None else Some(p.selections[|p.selections| - 1])
  }

  // ------------------------------------------------- nested variant specs

  /** `IterVariantSpecs`: the spec, then for each variant set and each of
      its variants, in order, the walk of that variant's spec; each spec is
      paired with its path. */
  function IterVariantSpecs(spec: PrimSpec, path: SpecPath): (r: seq<(SpecPath, PrimSpec)>)
    ensures |r| >= 1 && r[0] == (path, spec)
    decreases spec, 2, 0
  {
    [(path, spec)] + IterSets(spec, path, 0)
  }

  function IterSets(spec: PrimSpec, path: SpecPath, i: nat): (r: seq<(SpecPath, PrimSpec)>)
    requires i <= |spec.variantSets|
    decreases spec, 1, |spec.variantSets| - i
  {
    if i == |spec.variantSets| then []
    else IterVariants(spec, path, i, 0) + IterSets(spec, path, i + 1)
  }

  function IterVariants(spec: PrimSpec, path: SpecPath, i: nat, j: nat): (r: seq<(SpecPath, PrimSpec)>)
    requires i < |spec.variantSets| && j <= |spec.variantSets[i].variants|
    decreases spec, 0, |spec.variantSets[i].variants| - j
  {
    var vset := spec.variantSets[i];
    if j == |vset.variants| then []
    else
      assert vset.variants[j] in vset.variants && vset in spec.variantSets;
      IterVariantSpecs(vset.variants[j].primSpec, AppendVariantSelection(path, vset.name, vset.variants[j].name))
      + IterVariants(spec, path, i, j + 1)
  }

  /** Every path the walk yields is under the spec's path: the same prim,
      with the spec's selections followed by the ones entered to reach it. */
  lemma {:induction false} IterVariantSpecsUnder(spec: PrimSpec, path: SpecPath)
    ensures forall e :: e in IterVariantSpecs(spec, path) ==>
      e.0.primPath == path.primPath && |e.0.selections| >= |path.selections| && e.0.selections[..|path.selections|] == path.selections
    decreases spec, 2, 0
  {
    IterSetsUnder(spec, path, 0);
  }

  lemma {:induction false} IterSetsUnder(spec: PrimSpec, path: SpecPath, i: nat)
    requires i <= |spec.variantSets|
    ensures forall e :: e in IterSets(spec, path, i) ==>
      e.0.primPath == path.primPath && |e.0.selections| > |path.selections| && e.0.selections[..|path.selections|] == path.selections
    decreases spec, 1, |spec.variantSets| - i
  {
    if i < |spec.variantSets| {
      IterVariantsUnder(spec, path, i, 0);
      IterSetsUnder(spec, path, i + 1);
    }
  }

  lemma {:induction false} IterVariantsUnder(spec: PrimSpec, path: SpecPath, i: nat, j: nat)
    requires i < |spec.variantSets| && j <= |spec.variantSets[i].variants|
    ensures forall e :: e in IterVariants(spec, path, i, j) ==>
      e.0.primPath == path.primPath && |e.0.selections| > |path.selections| && e.0.selections[..|path.selections|] == path.selections
    decreases spec, 0, |spec.variantSets[i].variants| - j
  {
    var vset := spec.variantSets[i];
    if j < |vset.variants| {
      assert vset.variants[j] in vset.variants && vset in spec.variantSets;
      var child := AppendVariantSelection(path, vset.name, vset.variants[j].name);
      IterVariantSpecsUnder(vset.variants[j].primSpec, child);
      IterVariantsUnder(spec, path, i, j + 1);
      forall e | e in IterVariantSpecs(vset.variants[j].primSpec, child)
        ensures e.0.selections[..|path.selections|] == path.selections
      {
        assert e.0.selections[..|path.selections|] == e.0.selections[..|child.selections|][..|path.selections|];
      }
    }
  }

  // ---------------------------------------------------- GetSpecSelections

  /** The innermost selections of the specs yielded that have one, in
      order. */
  function Contributing(specs: seq<(SpecPath, PrimSpec)>): (r: seq<PrimVariant>)
    ensures |r| <= |specs|
  {
    if specs == [] then []
    else
      (if specs[0].0.selections == [] then [] else [GetVariantSelection(specs[0].0).value])
      + Contributing(specs[1..])
  }

  /** The first selection of each set among the specs yielded, in the order
      the sets are first met. */
  function SpecSelections(spec: PrimSpec, path: SpecPath): (r: seq<PrimVariant>)
  {
    var sels := Contributing(IterVariantSpecs(spec, path));
    FirstWithin(sels, NameSet(sels))
  }

  /** Each set met holds its first selection, once, and no set is missed. */
  lemma SpecSelectionsSpec(spec: PrimSpec, path: SpecPath)
    ensures DistinctSets(SpecSelections(spec, path))
    ensures NameSet(SpecSelections(spec, path)) == NameSet(Contributing(IterVariantSpecs(spec, path)))
    ensures forall x :: x in SpecSelections(spec, path) ==>
      var sels := Contributing(IterVariantSpecs(spec, path));
      x == sels[FirstIn(sels, x.setName)]
  {
    var sels := Contributing(IterVariantSpecs(spec, path));
    FirstWithinSpec(sels, NameSet(sels));
    FirstWithinSets(sels, NameSet(sels));
  }

  lemma ContributingStep(specs: seq<(SpecPath, PrimSpec)>, i: nat)
    requires i < |specs|
    ensures Contributing(specs[i..]) ==
      (if specs[i].0.selections == [] then [] else [GetVariantSelection(specs[i].0).value])
      + Contributing(specs[i + 1..])
  {
    assert specs[i..][1..] == specs[i + 1..];
  }

  /** `GetSpecSelections`: `setdefault` for the innermost selection of each
      spec yielded whose path has one. */
  method GetSpecSelections(spec: PrimSpec, path: SpecPath) returns (selections: seq<PrimVariant>)
    ensures selections == SpecSelections(spec, path)
  {
    var specs := IterVariantSpecs(spec, path);
    ghost var all := NameSet(Contributing(specs));
    selections := [];
    var seen: set<string> := {};
    assert specs[0..] == specs && all - seen == all;
    for i := 0 to |specs|
      invariant seen <= all
      invariant selections + FirstWithin(Contributing(specs[i..]), all - seen) == FirstWithin(Contributing(specs), all)
    {
      ContributingStep(specs, i);
      var p := specs[i].0;
      if p.selections != [] {
        var sel := GetVariantSelection(p).value;
        ghost var open := all - seen;
        ghost var rest := Contributing(specs[i + 1..]);
        assert Contributing(specs[i..]) == [sel] + rest;
        assert ([sel] + rest)[1..] == rest;
        assert sel.setName in all by {
          ContributingHas(specs, i);
        }
        if sel.setName !in seen {
          ghost var tail := FirstWithin(rest, open - {sel.setName});
          assert selections + ([sel] + tail) == (selections + [sel]) + tail;
          selections := selections + [sel];
          seen := seen + {sel.setName};
          assert all - seen == open - {sel.setName};
        }
      } else {
        assert Contributing(specs[i..]) == Contributing(specs[i + 1..]);
      }
    }
  }

  /** The innermost selection of a yielded spec is among the contributions. */
  lemma {:induction false} ContributingHas(specs: seq<(SpecPath, PrimSpec)>, i: nat)
    requires i < |specs| && specs[i].0.selections != []
    ensures GetVariantSelection(specs[i].0).value.setName in NameSet(Contributing(specs))
    decreases i
  {
    var sel := GetVariantSelection(specs[i].0).value;
    if i == 0 {
      assert SetNames(Contributing(specs))[0] == sel.setName;
    } else {
      ContributingHas(specs[1..], i - 1);
      var c := Contributing(specs);
      var tail := Contributing(specs[1..]);
      assert c[|c| - |tail|..] == tail;
      var k :| 0 <= k < |tail| && SetNames(tail)[k] == sel.setName;
      assert SetNames(c)[|c| - |tail| + k] == sel.setName;
    }
  }

  // ------------------------------------------------------------- declared

  /** A list-op of variant set names, as authored on a prim spec. */
  datatype NameListOp = NameListOp(prependedItems: seq<string>, addedItems: seq<string>, appendedItems: seq<string>)

  /** `DeclaredVariants`: the prepended, added and appended names, in that
      order. */
  method DeclaredVariants(ops: NameListOp) returns (declared: seq<string>)
    ensures |declared| == |ops.prependedItems| + |ops.addedItems| + |ops.appendedItems|
    ensures declared[..|ops.prependedItems|] == ops.prependedItems
    ensures declared[|ops.prependedItems|..|ops.prependedItems| + |ops.addedItems|] == ops.addedItems
    ensures declared[|ops.prependedItems| + |ops.addedItems|..] == ops.appendedItems
  {
    declared := [];
    declared := declared + ops.prependedItems;
    declared := declared + ops.addedItems;
    declared := declared + ops.appendedItems;
  }

  // --------------------------------------------------- selected in editor

  /** An item selected in the editor: a variant set or a variant. */
  datatype EditorItem = EditorItem(name: string, isVariantSet: bool)

  function AnyVariantSet(items: seq<EditorItem>): (r: bool)
  {
    if items == [] then false else items[0].isVariantSet || AnyVariantSet(items[1..])
  }

  function AllVariantSets(items: seq<EditorItem>): (r: bool)
  {
    if items == [] then true else items[0].isVariantSet && AllVariantSets(items[1..])
  }

  /** `AreAllVariants`: false with nothing selected, else no item is a
      variant set. */
  function AreAllVariants(items: seq<EditorItem>): (r: bool)
  {
    if items == [] then false else !AnyVariantSet(items)
  }

  /** `AreAllVariantSets`: false with nothing selected, else every item is a
      variant set. */
  function AreAllVariantSets(items: seq<EditorItem>): (r: bool)
  {
    if items == [] then false else AllVariantSets(items)
  }

  lemma {:induction false} AnyVariantSetSpec(items: seq<EditorItem>)
    ensures AnyVariantSet(items) <==> exists i :: 0 <= i < |items| && items[i].isVariantSet
    ensures AllVariantSets(items) <==> forall i :: 0 <= i < |items| ==> items[i].isVariantSet
    decreases |items|
  {
    if items != [] {
      AnyVariantSetSpec(items[1..]);
      assert forall i :: 1 <= i < |items| ==> items[1..][i - 1] == items[i];
    }
  }

  /** Both tests say what they mean, and no selection is both all variants
      and all variant sets. */
  lemma AreAllSpec(items: seq<EditorItem>)
    ensures AreAllVariants(items) <==> items != [] && forall i :: 0 <= i < |items| ==> !items[i].isVariantSet
    ensures AreAllVariantSets(items) <==> items != [] && forall i :: 0 <= i < |items| ==> items[i].isVariantSet
    ensures !(AreAllVariants(items) && AreAllVariantSets(items))
  {
    AnyVariantSetSpec(items);
    if items != [] {
      assert items[0] == items[0];
    }
  }
}

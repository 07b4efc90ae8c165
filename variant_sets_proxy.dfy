// The proxies an editor uses to show and edit the variant sets of several
// prims at once: the sets they all have, and one set across all of them.

module VariantSetsProxies {
  import opened Wrappers
  import opened UsdObjects
  import opened ProxyRules

  /** Each prim's variant set names; `None` for a prim that is not valid. */
  function NameFetches(prims: seq<UsdPrim>): (r: seq<Option<seq<string>>>)
    ensures |r| == |prims|
    ensures forall i :: 0 <= i < |prims| ==> r[i] == if prims[i].obj.valid then Some(VariantSetNames(prims[i])) else None
  {
    seq(|prims|, i requires 0 <= i < |prims| => if prims[i].obj.valid then Some(VariantSetNames(prims[i])) else None)
  }

  /** `GetNames(names)`: a null output fails; no prims succeed leaving the
      output as it was; an invalid prim clears it and fails; otherwise it
      receives the set names every prim has, in the first prim's order. */
  function NamesInto(prims: seq<UsdPrim>, names: Option<seq<string>>): (r: (Option<seq<string>>, bool))
  {
    if names.None? then (None, false)
    else if prims == [] then (names, true)
    else match SharedList(NameFetches(prims))
      case None => (Some([]), false)
      case Some(shared) => (Some(shared), true)
  }

  /** With prims to ask, the names are delivered exactly when every prim is
      valid, and they are the names every prim has, in the first one's
      order. */
  lemma NamesIntoSpec(prims: seq<UsdPrim>, names: seq<string>, n: string)
    requires prims != []
    ensures NamesInto(prims, Some(names)).1 <==> forall i :: 0 <= i < |prims| ==> prims[i].obj.valid
    ensures !NamesInto(prims, Some(names)).1 ==> NamesInto(prims, Some(names)).0 == Some([])
    ensures NamesInto(prims, Some(names)).1 ==>
      (n in NamesInto(prims, Some(names)).0.value <==> forall i :: 0 <= i < |prims| ==> n in VariantSetNames(prims[i]))
    ensures NamesInto(prims, Some(names)).1 ==> IsSubsequence(NamesInto(prims, Some(names)).0.value, VariantSetNames(prims[0]))
  {
    var fetches := NameFetches(prims);
    if SharedList(fetches).Some? {
      SharedListSpec(fetches, n);
    } else {
      var k :| 0 <= k < |fetches| && fetches[k].None?;
      assert !prims[k].obj.valid;
    }
  }

  /** The prims after `AppendVariantSet` on each. */
  function SetAppended(prims: seq<UsdPrim>, name: string): (r: seq<UsdPrim>)
    ensures |r| == |prims| && forall i :: 0 <= i < |prims| ==> r[i] == AppendVariantSet(prims[i], name)
  {
    seq(|prims|, i requires 0 <= i < |prims| => AppendVariantSet(prims[i], name))
  }

  /** After appending a set to valid prims, each has it. */
  lemma AppendedSetIsShared(prims: seq<UsdPrim>, name: string)
    requires prims != [] && forall i :: 0 <= i < |prims| ==> prims[i].obj.valid
    ensures NamesInto(SetAppended(prims, name), Some([])).1
    ensures name in NamesInto(SetAppended(prims, name), Some([])).0.value
  {
    NamesIntoSpec(SetAppended(prims, name), [], name);
  }

  /** Every prim has a set of that name. */
  predicate AllHaveSet(prims: seq<UsdPrim>, name: string)
  {
    forall i :: 0 <= i < |prims| ==> name in VariantSetNames(prims[i])
  }

  /** The set of that name from each prim. */
  function SetsNamed(prims: seq<UsdPrim>, name: string): (r: seq<UsdVariantSet>)
    requires AllHaveSet(prims, name)
    ensures |r| == |prims| && forall i :: 0 <= i < |prims| ==> r[i] in prims[i].variantSets && r[i].name == name
  {
    seq(|prims|, i requires 0 <= i < |prims| => GetVariantSet(prims[i], name))
  }

  /** `UsdQt_VariantSetsProxy`: the variant sets of several prims. */
  class VariantSetsProxy {
    var prims: seq<UsdPrim>

    constructor(prims: seq<UsdPrim>)
      ensures this.prims == prims
    {
      this.prims := prims;
    }

    /** `GetNames` with an output: see `NamesInto`. */
    method GetNamesInto(names: Option<seq<string>>) returns (out: Option<seq<string>>, ok: bool)
      ensures (out, ok) == NamesInto(prims, names)
    {
      if names.None? {
        return None, false;
      }
      if |prims| < 1 {
        return names, true;
      }
      var shared := SharedListOf(NameFetches(prims));
      if shared.None? {
        return Some([]), false;
      }
      return shared, true;
    }

    /** `GetNames`: the shared names, or none when they cannot be read. */
    method GetNames() returns (names: seq<string>)
      ensures NamesInto(prims, Some([])).1 ==> names == NamesInto(prims, Some([])).0.value
      ensures !NamesInto(prims, Some([])).1 ==> names == []
    {
      var out, ok := GetNamesInto(Some([]));
      names := if ok then out.value else [];
    }

    /** `AppendVariantSet`: appended on every prim. */
    method AppendVariantSet(name: string)
      modifies this
      ensures prims == SetAppended(old(prims), name)
    {
      var appended := [];
      for i := 0 to |prims|
        invariant |appended| == i
        invariant forall j :: 0 <= j < i ==> appended[j] == UsdObjects.AppendVariantSet(prims[j], name)
      {
        appended := appended + [UsdObjects.AppendVariantSet(prims[i], name)];
      }
      prims := appended;
    }

    /** `CreateVariantSetProxy`: a proxy over every prim's set of that name,
        or none if some prim lacks it. */
    method CreateVariantSetProxy(name: string) returns (p: VariantSetProxy?)
      ensures p == null <==> !AllHaveSet(prims, name)
      ensures p != null ==> fresh(p) && p.sets == SetsNamed(prims, name)
    {
      var sets := [];
      for i := 0 to |prims|
        invariant |sets| == i
        invariant forall j :: 0 <= j < i ==> name in VariantSetNames(prims[j]) && sets[j] == GetVariantSet(prims[j], name)
      {
        if name !in VariantSetNames(prims[i]) {
          return null;
        }
        sets := sets + [GetVariantSet(prims[i], name)];
      }
      p := new VariantSetProxy(sets);
    }
  }

  // ------------------------------------------------------------ one set

  function Selections(sets: seq<UsdVariantSet>): (r: seq<string>)
    ensures |r| == |sets| && forall i :: 0 <= i < |sets| ==> r[i] == sets[i].selection
  {
    seq(|sets|, i requires 0 <= i < |sets| => sets[i].selection)
  }

  function SetNamesOf(sets: seq<UsdVariantSet>): (r: seq<string>)
    ensures |r| == |sets| && forall i :: 0 <= i < |sets| ==> r[i] == sets[i].name
  {
    seq(|sets|, i requires 0 <= i < |sets| => sets[i].name)
  }

  function VariantNameLists(sets: seq<UsdVariantSet>): (r: seq<seq<string>>)
    ensures |r| == |sets| && forall i :: 0 <= i < |sets| ==> r[i] == sets[i].variantNames
  {
    seq(|sets|, i requires 0 <= i < |sets| => sets[i].variantNames)
  }

  /** `GetVariantNames`: the variants every set lists, in the first set's
      order; none for no sets. */
  function SharedVariantNames(sets: seq<UsdVariantSet>): (r: seq<string>)
  {
    if sets == [] then [] else Common(sets[0].variantNames, VariantNameLists(sets[1..]))
  }

  /** A variant is listed exactly when every set lists it. */
  lemma SharedVariantNamesSpec(sets: seq<UsdVariantSet>, v: string)
    requires sets != []
    ensures v in SharedVariantNames(sets) <==> forall i :: 0 <= i < |sets| ==> v in sets[i].variantNames
    ensures IsSubsequence(SharedVariantNames(sets), sets[0].variantNames)
  {
    var others := VariantNameLists(sets[1..]);
    CommonOrder(sets[0].variantNames, others);
    if forall i :: 1 <= i < |sets| ==> v in sets[i].variantNames {
      assert InAll(v, others) by {
        forall k | 0 <= k < |others|
          ensures v in others[k]
        {
          assert sets[1..][k] == sets[k + 1];
        }
      }
    }
    if InAll(v, others) {
      forall i | 1 <= i < |sets|
        ensures v in sets[i].variantNames
      {
        assert others[i - 1] == sets[i].variantNames;
      }
    }
  }

  /** The sets after `SetVariantSelection` on each. */
  function SelectionSet(sets: seq<UsdVariantSet>, variant: string): (r: seq<UsdVariantSet>)
    ensures |r| == |sets| && forall i :: 0 <= i < |sets| ==> r[i] == SetSelection(sets[i], variant).0
  {
    seq(|sets|, i requires 0 <= i < |sets| => SetSelection(sets[i], variant).0)
  }

  /** The sets after `ClearVariantSelection` on each. */
  function SelectionCleared(sets: seq<UsdVariantSet>): (r: seq<UsdVariantSet>)
    ensures |r| == |sets| && forall i :: 0 <= i < |sets| ==> r[i] == ClearSelection(sets[i]).0
  {
    seq(|sets|, i requires 0 <= i < |sets| => ClearSelection(sets[i]).0)
  }

  /** The sets after `AppendVariant` on each. */
  function VariantAppended(sets: seq<UsdVariantSet>, variant: string): (r: seq<UsdVariantSet>)
    ensures |r| == |sets| && forall i :: 0 <= i < |sets| ==> r[i] == AppendVariant(sets[i], variant).0
  {
    seq(|sets|, i requires 0 <= i < |sets| => AppendVariant(sets[i], variant).0)
  }

  /** A selection made on valid sets reads back as the shared selection;
      cleared, it reads back empty. */
  lemma SelectionRoundTrip(sets: seq<UsdVariantSet>, variant: string)
    requires sets != [] && forall i :: 0 <= i < |sets| ==> sets[i].valid
    ensures Shared(Selections(SelectionSet(sets, variant)), "") == variant
    ensures Shared(Selections(SelectionCleared(sets)), "") == ""
  {
    SharedSpec(Selections(SelectionSet(sets, variant)), "");
    SharedSpec(Selections(SelectionCleared(sets)), "");
  }

  /** A variant appended to valid sets is listed as shared. */
  lemma AppendedVariantIsShared(sets: seq<UsdVariantSet>, variant: string)
    requires sets != [] && forall i :: 0 <= i < |sets| ==> sets[i].valid
    ensures variant in SharedVariantNames(VariantAppended(sets, variant))
  {
    SharedVariantNamesSpec(VariantAppended(sets, variant), variant);
  }

  /** `UsdQt_VariantSetProxy`: one variant set across several prims. */
  class VariantSetProxy {
    var sets: seq<UsdVariantSet>

    constructor(sets: seq<UsdVariantSet>)
      ensures this.sets == sets
    {
      this.sets := sets;
    }

    /** `GetVariantSelection`: the selection every set has, or "". */
    method GetVariantSelection() returns (selection: string)
      ensures selection == Shared(Selections(sets), "")
    {
      selection := SharedOf(Selections(sets), "");
    }

    /** `GetName`: the name every set has, or "". */
    method GetName() returns (name: string)
      ensures name == Shared(SetNamesOf(sets), "")
    {
      name := SharedOf(SetNamesOf(sets), "");
    }

    /** `GetVariantNames`: see `SharedVariantNames`. */
    method GetVariantNames() returns (names: seq<string>)
      ensures names == SharedVariantNames(sets)
    {
      if |sets| < 1 {
        return [];
      }
      names := Intersect(sets[0].variantNames, VariantNameLists(sets[1..]));
    }

    /** `SetVariantSelection`: made on every set; succeeds if all did. */
    method SetVariantSelection(variant: string) returns (success: bool)
      modifies this
      ensures sets == SelectionSet(old(sets), variant)
      ensures success <==> forall i :: 0 <= i < |old(sets)| ==> old(sets)[i].valid
    {
      var written;
      written, success := ApplyAll(sets, (s: UsdVariantSet) => SetSelection(s, variant));
      sets := written;
    }

    /** `ClearVariantSelection`: cleared on every set; succeeds if all did. */
    method ClearVariantSelection() returns (success: bool)
      modifies this
      ensures sets == SelectionCleared(old(sets))
      ensures success <==> forall i :: 0 <= i < |old(sets)| ==> old(sets)[i].valid
    {
      var written;
      written, success := ApplyAll(sets, (s: UsdVariantSet) => ClearSelection(s));
      sets := written;
    }

    /** `AppendVariant`: appended on every set; succeeds if all did. */
    method AppendVariant(variant: string) returns (success: bool)
      modifies this
      ensures sets == VariantAppended(old(sets), variant)
      ensures success <==> forall i :: 0 <= i < |old(sets)| ==> old(sets)[i].valid
    {
      var written;
      written, success := ApplyAll(sets, (s: UsdVariantSet) => UsdObjects.AppendVariant(s, variant));
      sets := written;
    }
  }
}

// The stage helpers of the Qt layer: the spelling of a prim specifier, the
// context that switches a stage's edit target for a while, and the listing of
// a prim's variant selections from a depth-first walk of its prim index.

module UsdUtils {
  import opened Wrappers
  import opened Selections
  import opened Variants

  // ----------------------------------------------------------- specifiers

  /** A prim specifier; `UnknownSpecifier` is any other value of the enum. */
  datatype Specifier = SpecifierDef | SpecifierOver | SpecifierClass | UnknownSpecifier

  /** `SpecifierToString`: the keyword of a known specifier, an error for
      any other value. */
  function SpecifierToString(s: Specifier): (r: Result<string, string>)
    ensures r.Failure? <==> s == UnknownSpecifier
    ensures r.Failure? ==> r.error == "Unknown specifier."
  {
    match s
    case SpecifierDef => Success("def")
    case SpecifierOver => Success("over")
    case SpecifierClass => Success("class")
    case UnknownSpecifier => Failure("Unknown specifier.")
  }

  /** The specifier a keyword spells, if any. */
  function SpecifierFromString(word: string): (r: Option<Specifier>)
    ensures r.Some? ==> r.value != UnknownSpecifier
  {
    if word == "def" then Some(SpecifierDef)
    else if word == "over" then Some(SpecifierOver)
    else if word == "class" then Some(SpecifierClass)
    else None
  }

  /** The keywords are distinct: each known specifier is read back from its
      keyword, and each keyword read is the spelling of what it reads as. */
  lemma SpecifierRoundTrip(s: Specifier, word: string)
    ensures SpecifierToString(s).Success? ==> SpecifierFromString(SpecifierToString(s).value) == Some(s)
    ensures SpecifierFromString(word).Some? ==> SpecifierToString(SpecifierFromString(word).value) == Success(word)
  {
    var d, o, c := "def", "over", "class";
    assert d[0] == 'd' && o[0] == 'o' && c[0] == 'c';
  }

  // ------------------------------------------------------ edit target swap

  /** A layer a stage can direct its edits to. */
  datatype EditTarget = EditTarget(layer: string)

  /** The part of a stage the context touches: its current edit target. */
  class EditedStage {
    var editTarget: EditTarget

    constructor(target: EditTarget)
      ensures editTarget == target
    {
      editTarget := target;
    }
  }

  /** `EditTargetContext`: remembers the stage's edit target on entry and
      sets its own; restores the remembered one on exit. */
  class EditTargetContext {
    const stage: EditedStage
    const target: EditTarget
    var originalEditTarget: Option<EditTarget>

    constructor(stage: EditedStage, target: EditTarget)
      ensures this.stage == stage && this.target == target && originalEditTarget == None
    {
      this.stage := stage;
      this.target := target;
      originalEditTarget := None;
    }

    /** `__enter__`. */
    method Enter()
      modifies this, stage
      ensures originalEditTarget == Some(old(stage.editTarget))
      ensures stage.editTarget == target
    {
      originalEditTarget := Some(stage.editTarget);
      stage.editTarget := target;
    }

    /** `__exit__`: the stage is back on the target it had on entry,
        whatever happened in between. */
    method Exit()
      requires originalEditTarget.Some?
      modifies stage
      ensures stage.editTarget == originalEditTarget.value
    {
      stage.editTarget := originalEditTarget.value;
    }
  }

  // ------------------------------------------------- selections of a prim

  /** The sets a listing of the remaining sets must hold, each once, with its
      current selection, in any order. */
  ghost predicate ListsSets(tail: seq<PrimVariant>, remaining: set<string>, selectionOf: string -> string)
  {
    DistinctSets(tail) && NameSet(tail) == remaining
    && forall x :: x in tail ==> x.variantName == selectionOf(x.setName)
  }

  /** The first loop of `GetPrimVariants`: a walked selection is kept when
      its set can still be removed from the open names. */
  method TakeWalked(walked: seq<PrimVariant>, setNames: set<string>)
    returns (results: seq<PrimVariant>, open: set<string>)
    ensures results == FirstWithin(walked, setNames) && open == setNames - NameSet(walked)
  {
    results := [];
    open := setNames;
    assert walked[0..] == walked && walked[..0] == [];
    for i := 0 to |walked|
      invariant results + FirstWithin(walked[i..], open) == FirstWithin(walked, setNames)
      invariant open == setNames - NameSet(walked[..i])
    {
      FirstWithinStep(walked, i, open);
      assert walked[..i + 1] == walked[..i] + [walked[i]];
      NameSetSnoc(walked[..i], walked[i]);
      if walked[i].setName in open {
        ghost var rest := FirstWithin(walked[i + 1..], open - {walked[i].setName});
        assert results + ([walked[i]] + rest) == (results + [walked[i]]) + rest;
        results := results + [walked[i]];
        open := open - {walked[i].setName};
      }
    }
    assert walked[..|walked|] == walked && walked[|walked|..] == [];
  }

  /** The second loop of `GetPrimVariants`: the names left, in whatever
      order the set yields them, each with its current selection. */
  method ListRemaining(open: set<string>, selectionOf: string -> string) returns (tail: seq<PrimVariant>)
    ensures ListsSets(tail, open, selectionOf)
  {
    var left := open;
    tail := [];
    while left != {}
      invariant left <= open
      invariant ListsSets(tail, open - left, selectionOf)
      decreases left
    {
      var name :| name in left;
      NameSetSnoc(tail, PrimVariant(name, selectionOf(name)));
      forall j | 0 <= j < |tail|
        ensures tail[j].setName != name
      {
        assert tail[j].setName in NameSet(tail) by {
          assert SetNames(tail)[j] == tail[j].setName;
        }
      }
      tail := tail + [PrimVariant(name, selectionOf(name))];
      left := left - {name};
    }
  }

  /** What `GetPrimVariants` promises about its result: the walk's first
      selections of the declared sets, then a listing of the others. */
  ghost predicate IsListing(root: PcpNode, setNames: set<string>, selectionOf: string -> string, results: seq<PrimVariant>)
  {
    |results| >= |FirstWithin(Walk(root), setNames)|
    && results[..|FirstWithin(Walk(root), setNames)|] == FirstWithin(Walk(root), setNames)
    && ListsSets(results[|FirstWithin(Walk(root), setNames)|..], setNames - NameSet(Walk(root)), selectionOf)
  }

  /** `GetPrimVariants`: the selections of the depth-first walk of the prim
      index whose set the prim declares and has not been taken yet, then the
      declared sets the walk never met. */
  method GetPrimVariants(root: PcpNode, setNames: set<string>, selectionOf: string -> string)
    returns (results: seq<PrimVariant>)
    ensures IsListing(root, setNames, selectionOf, results)
  {
    var first, open := TakeWalked(Walk(root), setNames);
    var tail := ListRemaining(open, selectionOf);
    results := first + tail;
    assert results[..|first|] == first && results[|first|..] == tail;
  }

  /** A listing holds each declared set once. */
  lemma ListingDistinct(root: PcpNode, setNames: set<string>, selectionOf: string -> string, results: seq<PrimVariant>)
    requires IsListing(root, setNames, selectionOf, results)
    ensures DistinctSets(results)
  {
    var walked := Walk(root);
    var first := FirstWithin(walked, setNames);
    var tail := results[|first|..];
    SplitAt(results, |first|);
    FirstWithinSpec(walked, setNames);
    forall i, j | 0 <= i < j < |results|
      ensures results[i].setName != results[j].setName
    {
      if j < |first| {
        assert results[i] == first[i] && results[j] == first[j];
      } else if i >= |first| {
        assert results[i] == tail[i - |first|] && results[j] == tail[j - |first|];
      } else {
        assert results[i] == first[i] && first[i] in first;
        assert results[j].setName in NameSet(tail) by {
          assert SetNames(tail)[j - |first|] == results[j].setName;
        }
        FirstWithinSets(walked, setNames);
        assert results[i].setName in NameSet(walked) by {
          assert SetNames(first)[i] == results[i].setName;
        }
      }
    }
  }

  /** A listing holds the declared sets and nothing else. */
  lemma ListingSets(root: PcpNode, setNames: set<string>, selectionOf: string -> string, results: seq<PrimVariant>)
    requires IsListing(root, setNames, selectionOf, results)
    ensures NameSet(results) == setNames
  {
    var walked := Walk(root);
    var first := FirstWithin(walked, setNames);
    var tail := results[|first|..];
    SplitAt(results, |first|);
    WalkedAndListed(walked, setNames, tail);
  }

  lemma SplitAt(vs: seq<PrimVariant>, k: nat)
    requires k <= |vs|
    ensures vs == vs[..k] + vs[k..]
  {
  }

  /** The sets the walk takes, followed by a listing of the others, name
      exactly the declared sets. */
  lemma WalkedAndListed(walked: seq<PrimVariant>, setNames: set<string>, tail: seq<PrimVariant>)
    requires NameSet(tail) == setNames - NameSet(walked)
    ensures NameSet(FirstWithin(walked, setNames) + tail) == setNames
  {
    var first := FirstWithin(walked, setNames);
    NameSetAppend(first, tail);
    FirstWithinSets(walked, setNames);
    assert NameSet(first) == setNames * NameSet(walked);
  }

  /** In a listing, a set the walk meets comes with its first selection
      there, and any other set with its current selection. */
  lemma ListingChosen(root: PcpNode, setNames: set<string>, selectionOf: string -> string, results: seq<PrimVariant>, x: PrimVariant)
    requires IsListing(root, setNames, selectionOf, results) && x in results
    ensures x.setName in NameSet(Walk(root)) ==> x == Walk(root)[FirstIn(Walk(root), x.setName)]
    ensures x.setName !in NameSet(Walk(root)) ==> x.variantName == selectionOf(x.setName)
  {
    var walked := Walk(root);
    var first := FirstWithin(walked, setNames);
    var tail := results[|first|..];
    SplitAt(results, |first|);
    FirstWithinSpec(walked, setNames);
    assert x in first || x in tail;
    if x in tail {
      SetNamesIn(tail, x.setName);
    } else if x.setName !in NameSet(walked) {
      FirstWithinSets(walked, setNames);
      SetNamesIn(first, x.setName);
    }
  }
}

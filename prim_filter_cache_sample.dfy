// The sample tree of the prim filter cache's own test, rebuilt from the paths
// the test names: "/World" with a rejected leaf, an accepted leaf, a parent
// whose name matches and a parent whose name does not, whose third child has
// one matching and one non-matching child. Every prim is active, loaded and
// defined. Filtering it from "/World" for "Accept" gives the states the test
// expects.

module PrimFilterCacheSample {
  import opened SdfPaths
  import opened UsdStages
  import opened PrimFilterCacheModel

  const World := PrimPath(["World"])
  const RejectLeaf := PrimPath(["World", "Reject"])
  const AcceptLeaf := PrimPath(["World", "Accept"])
  const AcceptParent := PrimPath(["World", "AcceptParent"])
  const AcceptParentReject := PrimPath(["World", "AcceptParent", "RejectChild"])
  const AcceptParentAccept := PrimPath(["World", "AcceptParent", "AcceptChild"])
  const IntermediateParent := PrimPath(["World", "IntermediateParent"])
  const IntermediateReject := PrimPath(["World", "IntermediateParent", "RejectChild"])
  const IntermediateAccept := PrimPath(["World", "IntermediateParent", "AcceptChild"])
  const IntermediateChild := PrimPath(["World", "IntermediateParent", "IntermediateChild"])
  const GrandchildAccept := PrimPath(["World", "IntermediateParent", "IntermediateChild", "AcceptGrandchild"])
  const GrandchildReject := PrimPath(["World", "IntermediateParent", "IntermediateChild", "RejectGrandchild"])

  const Shown: set<PrimFlag> := {Active, Loaded, Defined}

  const SampleStage := Stage(map[
    World := Prim(Shown, [RejectLeaf, AcceptLeaf, AcceptParent, IntermediateParent]),
    RejectLeaf := Prim(Shown, []),
    AcceptLeaf := Prim(Shown, []),
    AcceptParent := Prim(Shown, [AcceptParentReject, AcceptParentAccept]),
    AcceptParentReject := Prim(Shown, []),
    AcceptParentAccept := Prim(Shown, []),
    IntermediateParent := Prim(Shown, [IntermediateReject, IntermediateAccept, IntermediateChild]),
    IntermediateReject := Prim(Shown, []),
    IntermediateAccept := Prim(Shown, []),
    IntermediateChild := Prim(Shown, [GrandchildAccept, GrandchildReject]),
    GrandchildAccept := Prim(Shown, []),
    GrandchildReject := Prim(Shown, [])
  ])

  lemma SampleWf()
    ensures StageWf(SampleStage)
  {
    var prims := SampleStage.prims;
    Child(World, "Reject");
    Child(World, "Accept");
    Child(World, "AcceptParent");
    Child(World, "IntermediateParent");
    Child(AcceptParent, "RejectChild");
    Child(AcceptParent, "AcceptChild");
    Child(IntermediateParent, "RejectChild");
    Child(IntermediateParent, "AcceptChild");
    Child(IntermediateParent, "IntermediateChild");
    Child(IntermediateChild, "AcceptGrandchild");
    Child(IntermediateChild, "RejectGrandchild");
    forall p, c | p in prims && c in prims[p].children
      ensures IsChildOf(c, p) && c in prims
    {
      if p !in {World, AcceptParent, IntermediateParent, IntermediateChild} {
        assert false;
      }
    }
  }

  /** The path naming `n` below `p` is a child of `p`. */
  lemma Child(p: SdfPath, n: string)
    requires p.PrimPath?
    ensures IsChildOf(PrimPath(p.names + [n]), p)
  {
    assert (p.names + [n])[..|p.names|] == p.names;
  }

  /** Every prim of the sample is shown by the default predicate, so each
      prim's filtered children are all its children. */
  lemma SampleChildren(p: SdfPath)
    requires p in SampleStage.prims
    ensures FilteredChildren(DefaultPredicate, SampleStage, p) == SampleStage.prims[p].children
  {
    AllAccepted(SampleStage.prims[p].children);
  }

  lemma {:induction false} AllAccepted(xs: seq<SdfPath>)
    requires forall x :: x in xs ==> x in SampleStage.prims
    ensures FilterAccepted(DefaultPredicate, SampleStage, xs) == xs
  {
    if xs != [] {
      assert xs[0] in xs;
      AllAccepted(xs[1..]);
    }
  }

  lemma NoMatch(name: string)
    requires name in {"World", "Reject", "RejectChild", "IntermediateParent", "IntermediateChild", "RejectGrandchild"}
    ensures forall i: nat :: !MatchesAt(name, "Accept", i)
  {
    var sub := "Accept";
    assert sub[0] == 'A' && sub[1] == 'c';
  }

  lemma Match(name: string)
    requires name in {"Accept", "AcceptParent", "AcceptChild", "AcceptGrandchild"}
    ensures MatchesAt(name, "Accept", 0)
  {
  }

  lemma AnswerAccept(p: SdfPath)
    requires p in SampleStage.prims
    requires NameOf(p) in {"Accept", "AcceptParent", "AcceptChild", "AcceptGrandchild"}
    ensures PathContains("Accept", SampleStage, p) == Accept
  {
    PathContainsSpec("Accept", SampleStage, p);
    Match(NameOf(p));
  }

  lemma AnswerOther(p: SdfPath)
    requires p in SampleStage.prims
    requires NameOf(p) in {"World", "Reject", "RejectChild", "IntermediateParent", "IntermediateChild", "RejectGrandchild"}
    ensures SampleStage.prims[p].children != [] ==> PathContains("Accept", SampleStage, p) == Intermediate
    ensures SampleStage.prims[p].children == [] ==> PathContains("Accept", SampleStage, p) == Reject
  {
    ContainsMatches(NameOf(p), "Accept");
    NoMatch(NameOf(p));
    SampleChildren(p);
  }

  // What the filter answers for each prim, and each parent's children, one
  // fact per lemma, so that the walk only combines them.

  lemma AnswerWorld()
    ensures PathContains("Accept", SampleStage, World) == Intermediate
  {
    assert World in SampleStage.prims && SampleStage.prims[World].children != [];
    AnswerOther(World);
  }

  lemma AnswerRejectLeaf()
    ensures PathContains("Accept", SampleStage, RejectLeaf) == Reject
  {
    assert RejectLeaf in SampleStage.prims && SampleStage.prims[RejectLeaf].children == [];
    AnswerOther(RejectLeaf);
  }

  lemma AnswerAcceptLeaf()
    ensures PathContains("Accept", SampleStage, AcceptLeaf) == Accept
  {
    assert AcceptLeaf in SampleStage.prims;
    AnswerAccept(AcceptLeaf);
  }

  lemma AnswerAcceptParent()
    ensures PathContains("Accept", SampleStage, AcceptParent) == Accept
  {
    assert AcceptParent in SampleStage.prims;
    AnswerAccept(AcceptParent);
  }

  lemma AnswerAcceptParentReject()
    ensures PathContains("Accept", SampleStage, AcceptParentReject) == Reject
  {
    assert AcceptParentReject in SampleStage.prims && SampleStage.prims[AcceptParentReject].children == [];
    AnswerOther(AcceptParentReject);
  }

  lemma AnswerAcceptParentAccept()
    ensures PathContains("Accept", SampleStage, AcceptParentAccept) == Accept
  {
    assert AcceptParentAccept in SampleStage.prims;
    AnswerAccept(AcceptParentAccept);
  }

  lemma AnswerIntermediateParent()
    ensures PathContains("Accept", SampleStage, IntermediateParent) == Intermediate
  {
    assert IntermediateParent in SampleStage.prims && SampleStage.prims[IntermediateParent].children != [];
    AnswerOther(IntermediateParent);
  }

  lemma AnswerIntermediateReject()
    ensures PathContains("Accept", SampleStage, IntermediateReject) == Reject
  {
    assert IntermediateReject in SampleStage.prims && SampleStage.prims[IntermediateReject].children == [];
    AnswerOther(IntermediateReject);
  }

  lemma AnswerIntermediateAccept()
    ensures PathContains("Accept", SampleStage, IntermediateAccept) == Accept
  {
    assert IntermediateAccept in SampleStage.prims;
    AnswerAccept(IntermediateAccept);
  }

  lemma AnswerIntermediateChild()
    ensures PathContains("Accept", SampleStage, IntermediateChild) == Intermediate
  {
    assert IntermediateChild in SampleStage.prims && SampleStage.prims[IntermediateChild].children != [];
    AnswerOther(IntermediateChild);
  }

  lemma AnswerGrandchildAccept()
    ensures PathContains("Accept", SampleStage, GrandchildAccept) == Accept
  {
    assert GrandchildAccept in SampleStage.prims;
    AnswerAccept(GrandchildAccept);
  }

  lemma AnswerGrandchildReject()
    ensures PathContains("Accept", SampleStage, GrandchildReject) == Reject
  {
    assert GrandchildReject in SampleStage.prims && SampleStage.prims[GrandchildReject].children == [];
    AnswerOther(GrandchildReject);
  }

  lemma ChildrenWorld()
    ensures World in SampleStage.prims
    ensures RejectLeaf in SampleStage.prims[World].children
    ensures AcceptLeaf in SampleStage.prims[World].children
    ensures AcceptParent in SampleStage.prims[World].children
    ensures IntermediateParent in SampleStage.prims[World].children
  {
  }

  lemma ChildrenAcceptParent()
    ensures AcceptParent in SampleStage.prims
    ensures AcceptParentReject in SampleStage.prims[AcceptParent].children
    ensures AcceptParentAccept in SampleStage.prims[AcceptParent].children
  {
  }

  lemma ChildrenIntermediateParent()
    ensures IntermediateParent in SampleStage.prims
    ensures IntermediateReject in SampleStage.prims[IntermediateParent].children
    ensures IntermediateAccept in SampleStage.prims[IntermediateParent].children
    ensures IntermediateChild in SampleStage.prims[IntermediateParent].children
  {
  }

  lemma ChildrenIntermediateChild()
    ensures IntermediateChild in SampleStage.prims
    ensures GrandchildAccept in SampleStage.prims[IntermediateChild].children
    ensures GrandchildReject in SampleStage.prims[IntermediateChild].children
  {
  }
}

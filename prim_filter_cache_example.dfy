// Filtering the sample tree from "/World" for "Accept": the walk reaches
// every prim, and each ends in the state the filter cache's test expects.

module PrimFilterCacheExample {
  import opened SdfPaths
  import opened UsdStages
  import opened PrimFilterCacheModel
  import opened PrimFilterCacheSample

  /** The state map after filtering the sample from "/World" for "Accept". */
  ghost function Filtered(): map<SdfPath, FilterState>
  {
    SampleWf();
    ApplyPathContainsFilter(SampleStage, World, "Accept", DefaultPredicate)
  }

  lemma VisitChild(p: SdfPath, k: SdfPath)
    requires p in Filtered() && p in SampleStage.prims && k in SampleStage.prims[p].children
    requires PathContains("Accept", SampleStage, p) != Reject
    ensures k in Filtered()
  {
    SampleWf();
    SampleChildren(p);
    ChildrenTraversed(PathContainsFilter("Accept", SampleStage), DefaultPredicate, SampleStage, World, p, k);
  }

  lemma KeepState(p: SdfPath)
    requires p in Filtered() && PathContains("Accept", SampleStage, p) != Intermediate
    ensures GetState(Filtered(), p) == PathContains("Accept", SampleStage, p)
  {
    SampleWf();
    FilterStateKept(PathContainsFilter("Accept", SampleStage), DefaultPredicate, SampleStage, World, p);
  }

  lemma Resolve(p: SdfPath)
    requires p in Filtered() && p in SampleStage.prims && PathContains("Accept", SampleStage, p) == Intermediate
    ensures GetState(Filtered(), p) == Accept
      <==> exists k :: k in SampleStage.prims[p].children && GetState(Filtered(), k) == Accept
  {
    SampleWf();
    SampleChildren(p);
    IntermediateResolved(PathContainsFilter("Accept", SampleStage), DefaultPredicate, SampleStage, World, p);
  }

  /** A child found accepted settles an undecided parent as accepted. */
  lemma ResolveBy(p: SdfPath, k: SdfPath)
    requires p in Filtered() && p in SampleStage.prims && PathContains("Accept", SampleStage, p) == Intermediate
    requires k in SampleStage.prims[p].children && GetState(Filtered(), k) == Accept
    ensures GetState(Filtered(), p) == Accept
  {
    Resolve(p);
  }

  // One step of the walk per lemma: the filter visits each prim of the sample.

  lemma VisitedWorld()
    ensures World in Filtered()
  {
    SampleWf();
  }

  lemma VisitedRejectLeaf()
    ensures RejectLeaf in Filtered()
  {
    VisitedWorld();
    AnswerWorld();
    ChildrenWorld();
    VisitChild(World, RejectLeaf);
  }

  lemma VisitedAcceptLeaf()
    ensures AcceptLeaf in Filtered()
  {
    VisitedWorld();
    AnswerWorld();
    ChildrenWorld();
    VisitChild(World, AcceptLeaf);
  }

  lemma VisitedAcceptParent()
    ensures AcceptParent in Filtered()
  {
    VisitedWorld();
    AnswerWorld();
    ChildrenWorld();
    VisitChild(World, AcceptParent);
  }

  lemma VisitedAcceptParentReject()
    ensures AcceptParentReject in Filtered()
  {
    VisitedAcceptParent();
    AnswerAcceptParent();
    ChildrenAcceptParent();
    VisitChild(AcceptParent, AcceptParentReject);
  }

  lemma VisitedAcceptParentAccept()
    ensures AcceptParentAccept in Filtered()
  {
    VisitedAcceptParent();
    AnswerAcceptParent();
    ChildrenAcceptParent();
    VisitChild(AcceptParent, AcceptParentAccept);
  }

  lemma VisitedIntermediateParent()
    ensures IntermediateParent in Filtered()
  {
    VisitedWorld();
    AnswerWorld();
    ChildrenWorld();
    VisitChild(World, IntermediateParent);
  }

  lemma VisitedIntermediateReject()
    ensures IntermediateReject in Filtered()
  {
    VisitedIntermediateParent();
    AnswerIntermediateParent();
    ChildrenIntermediateParent();
    VisitChild(IntermediateParent, IntermediateReject);
  }

  lemma VisitedIntermediateAccept()
    ensures IntermediateAccept in Filtered()
  {
    VisitedIntermediateParent();
    AnswerIntermediateParent();
    ChildrenIntermediateParent();
    VisitChild(IntermediateParent, IntermediateAccept);
  }

  lemma VisitedIntermediateChild()
    ensures IntermediateChild in Filtered()
  {
    VisitedIntermediateParent();
    AnswerIntermediateParent();
    ChildrenIntermediateParent();
    VisitChild(IntermediateParent, IntermediateChild);
  }

  lemma VisitedGrandchildAccept()
    ensures GrandchildAccept in Filtered()
  {
    VisitedIntermediateChild();
    AnswerIntermediateChild();
    ChildrenIntermediateChild();
    VisitChild(IntermediateChild, GrandchildAccept);
  }

  lemma VisitedGrandchildReject()
    ensures GrandchildReject in Filtered()
  {
    VisitedIntermediateChild();
    AnswerIntermediateChild();
    ChildrenIntermediateChild();
    VisitChild(IntermediateChild, GrandchildReject);
  }

  // One lemma per final state.

  lemma StateWorld()
    ensures GetState(Filtered(), World) == Accept
  {
    VisitedWorld();
    StateAcceptLeaf();
    AnswerWorld();
    ChildrenWorld();
    ResolveBy(World, AcceptLeaf);
  }

  lemma StateRejectLeaf()
    ensures GetState(Filtered(), RejectLeaf) == Reject
  {
    VisitedRejectLeaf();
    AnswerRejectLeaf();
    KeepState(RejectLeaf);
  }

  lemma StateAcceptLeaf()
    ensures GetState(Filtered(), AcceptLeaf) == Accept
  {
    VisitedAcceptLeaf();
    AnswerAcceptLeaf();
    KeepState(AcceptLeaf);
  }

  lemma StateAcceptParent()
    ensures GetState(Filtered(), AcceptParent) == Accept
  {
    VisitedAcceptParent();
    AnswerAcceptParent();
    KeepState(AcceptParent);
  }

  lemma StateAcceptParentReject()
    ensures GetState(Filtered(), AcceptParentReject) == Reject
  {
    VisitedAcceptParentReject();
    AnswerAcceptParentReject();
    KeepState(AcceptParentReject);
  }

  lemma StateAcceptParentAccept()
    ensures GetState(Filtered(), AcceptParentAccept) == Accept
  {
    VisitedAcceptParentAccept();
    AnswerAcceptParentAccept();
    KeepState(AcceptParentAccept);
  }

  lemma StateIntermediateParent()
    ensures GetState(Filtered(), IntermediateParent) == Accept
  {
    VisitedIntermediateParent();
    StateIntermediateAccept();
    AnswerIntermediateParent();
    ChildrenIntermediateParent();
    ResolveBy(IntermediateParent, IntermediateAccept);
  }

  lemma StateIntermediateReject()
    ensures GetState(Filtered(), IntermediateReject) == Reject
  {
    VisitedIntermediateReject();
    AnswerIntermediateReject();
    KeepState(IntermediateReject);
  }

  lemma StateIntermediateAccept()
    ensures GetState(Filtered(), IntermediateAccept) == Accept
  {
    VisitedIntermediateAccept();
    AnswerIntermediateAccept();
    KeepState(IntermediateAccept);
  }

  lemma StateIntermediateChild()
    ensures GetState(Filtered(), IntermediateChild) == Accept
  {
    VisitedIntermediateChild();
    StateGrandchildAccept();
    AnswerIntermediateChild();
    ChildrenIntermediateChild();
    ResolveBy(IntermediateChild, GrandchildAccept);
  }

  lemma StateGrandchildAccept()
    ensures GetState(Filtered(), GrandchildAccept) == Accept
  {
    VisitedGrandchildAccept();
    AnswerGrandchildAccept();
    KeepState(GrandchildAccept);
  }

  lemma StateGrandchildReject()
    ensures GetState(Filtered(), GrandchildReject) == Reject
  {
    VisitedGrandchildReject();
    AnswerGrandchildReject();
    KeepState(GrandchildReject);
  }

  /** The states the test expects after filtering from "/World" for
      "Accept". */
  lemma SampleStates()
    ensures GetState(Filtered(), World) == Accept
    ensures GetState(Filtered(), RejectLeaf) == Reject
    ensures GetState(Filtered(), AcceptLeaf) == Accept
    ensures GetState(Filtered(), AcceptParent) == Accept
    ensures GetState(Filtered(), AcceptParentReject) == Reject
    ensures GetState(Filtered(), AcceptParentAccept) == Accept
    ensures GetState(Filtered(), IntermediateReject) == Reject
    ensures GetState(Filtered(), IntermediateAccept) == Accept
    ensures GetState(Filtered(), IntermediateChild) == Accept
    ensures GetState(Filtered(), GrandchildAccept) == Accept
    ensures GetState(Filtered(), GrandchildReject) == Reject
  {
    StateWorld();
    StateRejectLeaf();
    StateAcceptLeaf();
    StateAcceptParent();
    StateAcceptParentReject();
    StateAcceptParentAccept();
    StateIntermediateReject();
    StateIntermediateAccept();
    StateIntermediateChild();
    StateGrandchildAccept();
    StateGrandchildReject();
  }
}

// UsdQtUndoInverse: one undo-stack entry.  It holds the inverses recorded in
// one outermost undo block, in recording order; inverting it replays them
// last to first and, because every replay is itself recorded, leaves the
// entry holding the redo.

module UndoInverse {
  import opened LayerData
  import opened Inversions
  import opened UndoRouter
  import opened UndoStateDelegate

  /** The router after the delegate replays `invs` backward over a live layer holding `d`. */
  function RouterAfterReplay(s: Snapshot, d: Data, invs: seq<Inverse>): Snapshot
    decreases |invs|
  {
    if |invs| == 0 then s
    else RoutedAll(RouterAfterReplay(s, d, invs[1..]), RedoOf(ReplayBackward(d, invs[1..]), invs[0]))
  }

  /** The router after `n` replays against an expired layer: one error each. */
  function ExpiredReplays(s: Snapshot, n: nat): (r: Snapshot)
    ensures r.(diagnostics := s.diagnostics) == s
    ensures |r.diagnostics| == |s.diagnostics| + n
    ensures forall i | |s.diagnostics| <= i < |r.diagnostics| :: r.diagnostics[i] == ExpiredLayer
  {
    s.(diagnostics := s.diagnostics + seq(n, _ => ExpiredLayer))
  }

  /** Inside an unmuted block the replays only append the redo to the router's buffer. */
  lemma {:induction false} ReplayInsideBlock(s: Snapshot, d: Data, invs: seq<Inverse>)
    requires s.depth > 0 && s.muteDepth <= 0
    ensures RouterAfterReplay(s, d, invs) == s.(inversion := s.inversion + RedoBackward(d, invs))
    decreases |invs|
  {
    if |invs| > 0 {
      ReplayInsideBlock(s, d, invs[1..]);
      var s1 := RouterAfterReplay(s, d, invs[1..]);
      var redo := RedoOf(ReplayBackward(d, invs[1..]), invs[0]);
      RoutedInsideBlock(s1, redo);
      assert s.inversion + RedoBackward(d, invs[1..]) + redo == s.inversion + RedoBackward(d, invs);
    }
  }

  /**
   * The router state Invert leaves behind, and the list the entry ends up
   * holding: the depth check, the block, the replays, then the adoption.
   */
  function AfterInvert(s: Snapshot, live: bool, d: Data, invs: seq<Inverse>): (Snapshot, seq<Inverse>)
  {
    var s0 := s.(diagnostics := s.diagnostics + (if s.depth != 0 then [InversionDuringOpenBlock] else []));
    var s1 := Opened(s0);
    var s2 := if live then RouterAfterReplay(s1, d, invs) else ExpiredReplays(s1, |invs|);
    (Closed(s2.(inversion := [])), s2.inversion)
  }

  /**
   * Inverting outside any block with an unmuted router leaves the router as
   * it was and the entry holding exactly the redo of what it replayed; no
   * notice is sent.
   */
  lemma InvertOutsideBlock(s: Snapshot, d: Data, invs: seq<Inverse>)
    requires s.depth == 0 && s.inversion == [] && s.muteDepth <= 0
    ensures AfterInvert(s, true, d, invs) == (s, RedoBackward(d, invs))
  {
    var s0 := s.(diagnostics := s.diagnostics + []);
    assert s0 == s;
    var s1 := Opened(s0);
    assert s1 == s.(depth := 1);
    ReplayInsideBlock(s1, d, invs);
    var s2 := RouterAfterReplay(s1, d, invs);
    assert s2.inversion == RedoBackward(d, invs);
    assert s2.(inversion := []) == s.(depth := 1);
  }

  class UndoInverse {
    /** The recorded inverses, oldest first. */
    var inversion: seq<Inverse>

    constructor()
      ensures inversion == []
    {
      inversion := [];
    }

    /** The constructor that takes the router's buffer and leaves it empty. */
    constructor FromRouter(router: Router)
      modifies router
      ensures inversion == old(router.inversion)
      ensures router.State() == old(router.State()).(inversion := [])
    {
      inversion := router.inversion;
      router.inversion := [];
    }

    method Append(inv: Inverse)
      modifies this
      ensures inversion == old(inversion) + [inv]
    {
      inversion := inversion + [inv];
    }

    method Clear()
      modifies this
      ensures inversion == []
    {
      inversion := [];
    }

    /** Appends the other entry's inverses, in order, after this entry's own. */
    method Adopt(other: seq<Inverse>)
      modifies this
      ensures inversion == old(inversion) + other
    {
      var i := 0;
      while i < |other|
        invariant 0 <= i <= |other|
        invariant inversion == old(inversion) + other[..i]
      {
        inversion := inversion + [other[i]];
        i := i + 1;
      }
      assert other[..|other|] == other;
    }

    /**
     * _Invert: replays every stored inverse once, last recorded first,
     * ignoring each result.
     */
    method InvertAll(delegate: StateDelegate)
      modifies delegate, delegate.router, delegate.layer
      ensures inversion == old(inversion)
      ensures delegate.layer == old(delegate.layer)
      ensures old(delegate.layer) == null ==>
        delegate.dirty == old(delegate.dirty)
        && delegate.router.State() == ExpiredReplays(old(delegate.router.State()), |inversion|)
      ensures old(delegate.layer) != null ==>
        delegate.layer.data == ReplayBackward(old(delegate.layer.data), inversion)
        && delegate.router.State() == RouterAfterReplay(old(delegate.router.State()), old(delegate.layer.data), inversion)
        && delegate.dirty == (old(delegate.dirty) || RedoBackward(old(delegate.layer.data), inversion) != [])
    {
      var router := delegate.router;
      var layer := delegate.layer;
      ghost var s := router.State();
      ghost var d := if layer == null then map[] else layer.data;
      var n := |inversion|;
      var i := 0;
      while i < n
        invariant 0 <= i <= n
        invariant delegate.layer == layer
        invariant layer == null ==>
          delegate.dirty == old(delegate.dirty) && router.State() == ExpiredReplays(s, i)
        invariant layer != null ==>
          layer.data == ReplayBackward(d, inversion[n - i..])
          && router.State() == RouterAfterReplay(s, d, inversion[n - i..])
          && delegate.dirty == (old(delegate.dirty) || RedoBackward(d, inversion[n - i..]) != [])
      {
        assert inversion[n - (i + 1)..] == [inversion[n - i - 1]] + inversion[n - i..];
        var _ := delegate.ReplayInverse(inversion[n - i - 1]);
        i := i + 1;
      }
      assert inversion[n - n..] == inversion;
    }

    /**
     * Invert: reports an error when a block is open but proceeds; opens a
     * block, replays, clears this entry, adopts what the router recorded
     * and empties the router's buffer before the block closes, so the close
     * sends no notice.
     */
    method Invert(delegate: StateDelegate)
      modifies this, delegate, delegate.router, delegate.layer
      ensures delegate.layer == old(delegate.layer)
      ensures var (s, invs) := AfterInvert(old(delegate.router.State()), old(delegate.layer) != null,
                                           if old(delegate.layer) == null then map[] else old(delegate.layer.data),
                                           old(inversion));
        delegate.router.State() == s && inversion == invs
      ensures old(delegate.layer) != null ==>
        delegate.layer.data == ReplayBackward(old(delegate.layer.data), old(inversion))
    {
      var router := delegate.router;
      ghost var s := router.State();
      ghost var live := delegate.layer != null;
      ghost var d := if delegate.layer == null then map[] else delegate.layer.data;
      if router.depth != 0 {
        router.diagnostics := router.diagnostics + [InversionDuringOpenBlock];
      }
      assert router.State()
        == s.(diagnostics := s.diagnostics + (if s.depth != 0 then [InversionDuringOpenBlock] else []));
      router.OpenBlock();
      ghost var s1 := router.State();
      InvertAll(delegate);
      ghost var s2 := router.State();
      assert s2 == if live then RouterAfterReplay(s1, d, inversion) else ExpiredReplays(s1, |inversion|);
      Clear();
      Adopt(router.inversion);
      router.inversion := [];
      assert router.State() == s2.(inversion := []);
      router.CloseBlock();
    }
  }

  /** TransferEdits: moves the router's buffer onto the end of `target`; no depth check. */
  method TransferEdits(router: Router, target: UndoInverse) returns (ok: bool)
    modifies router, target
    ensures ok
    ensures target.inversion == old(target.inversion) + old(router.inversion)
    ensures router.State() == old(router.State()).(inversion := [])
  {
    target.Adopt(router.inversion);
    router.inversion := [];
    return true;
  }

  /**
   * The client's edits inside one outermost undo block: each edit the layer
   * accepts is performed and its inverse routed.
   */
  method EditInBlock(delegate: StateDelegate, es: seq<Edit>)
    requires delegate.layer != null
    modifies delegate, delegate.router, delegate.layer
    ensures delegate.layer == old(delegate.layer)
    ensures delegate.layer.data == PerformAll(old(delegate.layer.data), es)
    ensures delegate.router.State()
      == Closed(RoutedAll(Opened(old(delegate.router.State())), RecordAll(old(delegate.layer.data), es)))
  {
    var router := delegate.router;
    var layer := delegate.layer;
    ghost var s0 := router.State();
    ghost var d0 := layer.data;

    router.OpenBlock();
    var i := 0;
    while i < |es|
      invariant 0 <= i <= |es|
      invariant delegate.layer == layer
      invariant layer.data == PerformAll(d0, es[..i])
      invariant router.State() == RoutedAll(Opened(s0), RecordAll(d0, es[..i]))
    {
      var d := layer.data;
      var rec := if Applicable(d, es[i]) then [InverseOf(d, es[i])] else [];
      assert es[..i + 1] == es[..i] + [es[i]];
      PerformAllSnoc(d0, es[..i], es[i]);
      RecordAllSnoc(d0, es[..i], es[i]);
      RoutedAllAppend(Opened(s0), RecordAll(d0, es[..i]), rec);
      delegate.PerformEdit(es[i]);
      i := i + 1;
    }
    router.CloseBlock();
    assert es[..|es|] == es;
  }

  /**
   * One outermost undo block of edits on a tracked layer, then the host's
   * new entry inverted twice.  The host receives exactly one entry holding
   * the recorded inverses; the first inversion restores the layer as it was
   * before the block (`undone`), the second as it was after it, and neither
   * disturbs the router.
   */
  method UndoRedo(delegate: StateDelegate, es: seq<Edit>) returns (entry: UndoInverse, undone: Data)
    requires delegate.layer != null && WellFormed(delegate.layer.data)
    requires ApplicableAll(delegate.layer.data, es) && es != []
    requires delegate.router.depth == 0 && delegate.router.inversion == []
    requires delegate.router.muteDepth <= 0 && delegate.router.listening
    modifies delegate, delegate.router, delegate.layer
    ensures fresh(entry) && delegate.layer == old(delegate.layer)
    ensures undone == old(delegate.layer.data)
    ensures delegate.layer.data == PerformAll(old(delegate.layer.data), es)
    ensures delegate.router.State()
      == old(delegate.router.State()).(noticesSent := old(delegate.router.noticesSent) + 1,
           hostEntries := old(delegate.router.hostEntries) + [RecordAll(old(delegate.layer.data), es)])
  {
    var router := delegate.router;
    var layer := delegate.layer;
    ghost var s0 := router.State();
    ghost var d0 := layer.data;

    EditInBlock(delegate, es);
    UndoRestores(d0, es);
    ghost var recorded := RecordAll(d0, es);
    BlockBatches(s0, recorded);
    ghost var s1 := router.State();
    ghost var d1 := layer.data;

    // the entry the host's listener filled from the notice
    entry := new UndoInverse();
    entry.Adopt(router.hostEntries[|router.hostEntries| - 1]);
    assert entry.inversion == recorded;

    entry.Invert(delegate);
    InvertOutsideBlock(s1, d1, recorded);
    assert router.State() == s1;
    undone := layer.data;

    RedoRestores(d1, recorded);
    entry.Invert(delegate);
    InvertOutsideBlock(s1, d0, RedoBackward(d1, recorded));
  }
}

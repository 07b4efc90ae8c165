// The undo router: the process-wide object that collects the inverses the
// layer state delegates record, batches them with nested undo blocks, and
// announces a finished batch with the undo-stack notice.  The router's state
// is also given as a value (`Snapshot`) so that the effect of a sequence of
// calls can be stated as a function and reasoned about with lemmas.

module UndoRouter {
  import opened Inversions

  /** The Tf errors and warnings the undo machinery reports. */
  datatype Diagnostic =
    | NegativeBlockDepth        // TF_VERIFY(router._depth >= 0) failed
    | FragmentedUndoBlock       // a block opened at depth 0 over pending edits
    | EditsNotAdopted           // the notice was sent but nobody adopted the edits
    | MuteDepthError            // _Unmute took the mute depth below zero
    | InversionDuringOpenBlock  // Invert called while a block is open
    | ExpiredLayer              // an inverse replayed for an expired layer
    | InverseMuted              // an inverse dropped because the router is muted

  /**
   * The router's fields, plus what the host sees: whether a listener adopts
   * the edits on each undo-stack notice, the entries it adopted, the number
   * of notices and the diagnostics reported so far.
   */
  datatype Snapshot = Snapshot(
    depth: int,
    muteDepth: int,
    inversion: seq<Inverse>,
    listening: bool,
    hostEntries: seq<seq<Inverse>>,
    noticesSent: nat,
    diagnostics: seq<Diagnostic>)

  /** A fresh router: depth and mute depth 0, nothing recorded. */
  function Initial(listening: bool): Snapshot {
    Snapshot(0, 0, [], listening, [], 0, [])
  }

  /** The router after an undo block opens. */
  function Opened(s: Snapshot): Snapshot {
    s.(depth := s.depth + 1,
       diagnostics := s.diagnostics
         + (if s.depth < 0 then [NegativeBlockDepth] else [])
         + (if s.depth == 0 && s.inversion != [] then [FragmentedUndoBlock] else []))
  }

  /**
   * The router after an undo block closes.  Only a close that reaches depth 0
   * over a non-empty buffer sends the notice; a listening host adopts the
   * buffer, and a buffer nobody adopted is reported and cleared.
   */
  function Closed(s: Snapshot): Snapshot {
    var depth := s.depth - 1;
    var diagnostics := s.diagnostics + (if depth < 0 then [NegativeBlockDepth] else []);
    if depth == 0 && s.inversion != [] then
      s.(depth := depth, inversion := [], noticesSent := s.noticesSent + 1,
         hostEntries := s.hostEntries + (if s.listening then [s.inversion] else []),
         diagnostics := diagnostics + (if s.listening then [] else [EditsNotAdopted]))
    else
      s.(depth := depth, diagnostics := diagnostics)
  }

  /** _AddInverse: the append happens inside a block of its own. */
  function Added(s: Snapshot, inv: Inverse): Snapshot {
    var o := Opened(s);
    Closed(o.(inversion := o.inversion + [inv]))
  }

  /** _RouteInverse: forwarded to the router unless it is muted, else dropped. */
  function Routed(s: Snapshot, inv: Inverse): Snapshot {
    if s.muteDepth > 0 then s.(diagnostics := s.diagnostics + [InverseMuted])
    else Added(s, inv)
  }

  /** Routing several inverses in order. */
  function RoutedAll(s: Snapshot, invs: seq<Inverse>): Snapshot
    decreases |invs|
  {
    if |invs| == 0 then s else RoutedAll(Routed(s, invs[0]), invs[1..])
  }

  /** One host entry per inverse. */
  function Singletons(invs: seq<Inverse>): (r: seq<seq<Inverse>>)
    ensures |r| == |invs| && forall i | 0 <= i < |r| :: r[i] == [invs[i]]
  {
    seq(|invs|, i requires 0 <= i < |invs| => [invs[i]])
  }

  lemma {:induction false} RoutedAllAppend(s: Snapshot, a: seq<Inverse>, b: seq<Inverse>)
    ensures RoutedAll(s, a + b) == RoutedAll(RoutedAll(s, a), b)
    decreases |a|
  {
    if |a| > 0 {
      assert (a + b)[1..] == a[1..] + b;
      RoutedAllAppend(Routed(s, a[0]), a[1..], b);
    } else {
      assert a + b == b;
    }
  }

  // ----- properties of blocks -----

  /** Inside an open block an unmuted inverse is only appended to the buffer. */
  lemma {:induction false} RoutedInsideBlock(s: Snapshot, invs: seq<Inverse>)
    requires s.depth > 0 && s.muteDepth <= 0
    ensures RoutedAll(s, invs) == s.(inversion := s.inversion + invs)
    decreases |invs|
  {
    if |invs| > 0 {
      var s1 := Routed(s, invs[0]);
      assert s1 == s.(inversion := s.inversion + [invs[0]]);
      RoutedInsideBlock(s1, invs[1..]);
      assert s.inversion + [invs[0]] + invs[1..] == s.inversion + invs;
    }
  }

  /**
   * An outermost block around any number of unmuted edits yields at most one
   * notice and one host entry holding all of them, in order; an empty block
   * yields none.  The block closes with the router as it was opened.
   */
  lemma BlockBatches(s: Snapshot, invs: seq<Inverse>)
    requires s.depth == 0 && s.inversion == [] && s.muteDepth <= 0
    ensures Closed(RoutedAll(Opened(s), invs))
      == s.(noticesSent := s.noticesSent + (if invs == [] then 0 else 1),
            hostEntries := s.hostEntries + (if invs != [] && s.listening then [invs] else []),
            diagnostics := s.diagnostics + (if invs != [] && !s.listening then [EditsNotAdopted] else []))
  {
    RoutedInsideBlock(Opened(s), invs);
    assert Opened(s).inversion + invs == invs;
  }

  /**
   * Outside any block every unmuted edit is a block of its own: a listening
   * host receives one entry and one notice per edit.
   */
  lemma {:induction false} UnblockedEditsSeparate(s: Snapshot, invs: seq<Inverse>)
    requires s.depth == 0 && s.inversion == [] && s.muteDepth <= 0 && s.listening
    ensures RoutedAll(s, invs)
      == s.(noticesSent := s.noticesSent + |invs|, hostEntries := s.hostEntries + Singletons(invs))
    decreases |invs|
  {
    if |invs| > 0 {
      var s1 := Routed(s, invs[0]);
      var o := s.(depth := 1, inversion := [invs[0]]);
      assert Opened(s).(inversion := Opened(s).inversion + [invs[0]]) == o;
      assert Closed(o).diagnostics == s.diagnostics;
      assert s1 == s.(noticesSent := s.noticesSent + 1, hostEntries := s.hostEntries + [[invs[0]]]);
      UnblockedEditsSeparate(s1, invs[1..]);
      assert [[invs[0]]] + Singletons(invs[1..]) == Singletons(invs);
    }
  }

  /** While muted, routing changes nothing but the warnings, one per inverse. */
  lemma {:induction false} MutedDropsAll(s: Snapshot, invs: seq<Inverse>)
    requires s.muteDepth > 0
    ensures RoutedAll(s, invs).(diagnostics := s.diagnostics) == s
    ensures |RoutedAll(s, invs).diagnostics| == |s.diagnostics| + |invs|
    decreases |invs|
  {
    if |invs| > 0 {
      MutedDropsAll(Routed(s, invs[0]), invs[1..]);
    }
  }

  class Router {
    var depth: int
    var muteDepth: int
    /** The live buffer of recorded inverses (the router's own UndoInverse). */
    var inversion: seq<Inverse>
    /** Whether a host listener adopts the edits on each undo-stack notice. */
    var listening: bool
    /** The undo-stack entries a listening host has adopted, oldest first. */
    var hostEntries: seq<seq<Inverse>>
    var noticesSent: nat
    var diagnostics: seq<Diagnostic>

    function State(): Snapshot
      reads this
    {
      Snapshot(depth, muteDepth, inversion, listening, hostEntries, noticesSent, diagnostics)
    }

    constructor(listening: bool)
      ensures State() == Initial(listening)
    {
      depth := 0;
      muteDepth := 0;
      inversion := [];
      this.listening := listening;
      hostEntries := [];
      noticesSent := 0;
      diagnostics := [];
    }

    predicate IsMuted()
      reads this
    {
      muteDepth > 0
    }

    /** Opening an undo block (UsdQtUndoBlock's constructor). */
    method OpenBlock()
      modifies this
      ensures State() == Opened(old(State()))
    {
      if depth < 0 {
        diagnostics := diagnostics + [NegativeBlockDepth];
      }
      if depth == 0 {
        if |inversion| != 0 {
          diagnostics := diagnostics + [FragmentedUndoBlock];
        }
      }
      depth := depth + 1;
    }

    /** Closing an undo block (UsdQtUndoBlock's destructor). */
    method CloseBlock()
      modifies this
      ensures State() == Closed(old(State()))
    {
      depth := depth - 1;
      if depth < 0 {
        diagnostics := diagnostics + [NegativeBlockDepth];
      }
      if depth == 0 {
        if |inversion| < 1 {
          // an empty block sends no notice
        } else {
          noticesSent := noticesSent + 1;
          if listening {
            // the host's listener calls TransferEdits into a new stack entry
            hostEntries := hostEntries + [inversion];
            inversion := [];
          }
          if |inversion| > 0 {
            diagnostics := diagnostics + [EditsNotAdopted];
            inversion := [];
          }
        }
      }
    }

    method AddInverse(inv: Inverse)
      modifies this
      ensures State() == Added(old(State()), inv)
    {
      OpenBlock();
      inversion := inversion + [inv];
      CloseBlock();
    }

    method Mute()
      modifies this
      ensures State() == old(State()).(muteDepth := old(muteDepth) + 1)
    {
      muteDepth := muteDepth + 1;
    }

    /** An error is reported below zero, but the depth is not clamped. */
    method Unmute()
      modifies this
      ensures State() == old(State()).(muteDepth := old(muteDepth) - 1,
        diagnostics := old(diagnostics) + (if old(muteDepth) - 1 < 0 then [MuteDepthError] else []))
    {
      muteDepth := muteDepth - 1;
      if muteDepth < 0 {
        diagnostics := diagnostics + [MuteDepthError];
      }
    }
  }
}

// The inverse operations the undo state delegate records and replays.  In the
// source each inverse is a bound closure over one of the delegate's `_Invert*`
// members; here it is a value naming that member and its bound arguments.

module Inversions {
  import opened LayerData

  datatype Inverse =
    | InvertSetField(path: Path, field: Field, inverse: Value)
    | InvertSetFieldDictValueByKey(path: Path, field: Field, key: string, inverse: Value)
    | InvertSetTimeSample(path: Path, time: real, inverse: Value)
    | InvertCreateSpec(path: Path, inert: bool)
    | InvertDeleteSpec(path: Path, inert: bool, deletedSpecType: SpecType, deletedData: Data)
    | InvertMoveSpec(oldPath: Path, newPath: Path)
    | InvertPushTokenChild(path: Path, field: Field, token: string)
    | InvertPopTokenChild(path: Path, field: Field, token: string)
    | InvertPushPathChild(path: Path, field: Field, target: Path)
    | InvertPopPathChild(path: Path, field: Field, target: Path)

  /**
   * The inverse recorded for edit `e` announced while the layer holds `d`:
   * the value read before the edit for field edits, the subtree snapshot and
   * spec type for a deletion, and the opposite operation otherwise.
   */
  function InverseOf(d: Data, e: Edit): Inverse {
    match e
    case SetField(p, f, _) => InvertSetField(p, f, GetField(d, p, f))
    case SetFieldDictValueByKey(p, f, k, _) =>
      InvertSetFieldDictValueByKey(p, f, k, GetFieldDictValueByKey(d, p, f, k))
    case SetTimeSample(p, t, _) =>
      if !HasField(d, p, TimeSamples) then InvertSetField(p, TimeSamples, Empty)
      else InvertSetTimeSample(p, t, QueryTimeSample(d, p, t))
    case CreateSpec(p, _, inert) => InvertCreateSpec(p, inert)
    case DeleteSpec(p, inert) => InvertDeleteSpec(p, inert, GetSpecType(d, p), Subtree(d, p))
    case MoveSpec(o, n) => InvertMoveSpec(o, n)
    case PushChild(p, f, TokenChild(t)) => InvertPushTokenChild(p, f, t)
    case PushChild(p, f, ChildPath(q)) => InvertPushPathChild(p, f, q)
    case PopChild(p, f, TokenChild(t)) => InvertPopTokenChild(p, f, t)
    case PopChild(p, f, ChildPath(q)) => InvertPopPathChild(p, f, q)
  }

  /** The edit a replayer performs through the delegate (and so announces). */
  function ReplayEdit(inv: Inverse): Edit {
    match inv
    case InvertSetField(p, f, v) => SetField(p, f, v)
    case InvertSetFieldDictValueByKey(p, f, k, v) => SetFieldDictValueByKey(p, f, k, v)
    case InvertSetTimeSample(p, t, v) => SetTimeSample(p, t, v)
    case InvertCreateSpec(p, inert) => DeleteSpec(p, inert)
    case InvertDeleteSpec(p, inert, ty, _) => CreateSpec(p, ty, inert)
    case InvertMoveSpec(o, n) => MoveSpec(n, o)
    case InvertPushTokenChild(p, f, t) => PopChild(p, f, TokenChild(t))
    case InvertPopTokenChild(p, f, t) => PushChild(p, f, TokenChild(t))
    case InvertPushPathChild(p, f, q) => PopChild(p, f, ChildPath(q))
    case InvertPopPathChild(p, f, q) => PushChild(p, f, ChildPath(q))
  }

  /**
   * The layer data after replaying `inv` on a live layer.  A deletion's
   * replay also copies the snapshot straight into the layer data, which the
   * delegate does not see.
   */
  function ReplayStep(d: Data, inv: Inverse): Data {
    var d1 := Perform(d, ReplayEdit(inv));
    if inv.InvertDeleteSpec? then CopySpecs(d1, inv.deletedData) else d1
  }

  /** What the delegate records while replaying `inv`: the inverse of the announced edit. */
  function RedoOf(d: Data, inv: Inverse): seq<Inverse> {
    if Applicable(d, ReplayEdit(inv)) then [InverseOf(d, ReplayEdit(inv))] else []
  }

  /** The replay of `inv` is accepted by the layer and its snapshot (if any) is coherent. */
  predicate Replayable(d: Data, inv: Inverse) {
    Applicable(d, ReplayEdit(inv))
    && (inv.InvertDeleteSpec? ==>
          WellFormed(inv.deletedData) && forall q | q in inv.deletedData :: inv.path <= q)
  }

  // ----- storage facts used by the round trips -----

  lemma WithFieldOverwrite(d: Data, p: Path, f: Field, v: Value, w: Value)
    requires p in d
    ensures WithField(WithField(d, p, f, v), p, f, w) == WithField(d, p, f, w)
  {
    var d1 := WithField(d, p, f, v);
    assert PutField(d1[p].fields, f, w) == PutField(d[p].fields, f, w);
  }

  /** Writing back what GetField read leaves the layer as it was. */
  lemma WithFieldSame(d: Data, p: Path, f: Field)
    requires WellFormed(d) && p in d
    ensures WithField(d, p, f, GetField(d, p, f)) == d
  {
    var F := d[p].fields;
    assert PutField(F, f, GetField(d, p, f)) == F;
    assert d[p].(fields := F) == d[p];
  }

  lemma WithFieldDictSame(d: Data, p: Path, f: Field)
    requires WellFormed(d) && p in d
    requires GetField(d, p, f).Empty? || GetField(d, p, f).Dict?
    ensures WithField(d, p, f, Dict(DictOf(d, p, f))) == d
  {
    if GetField(d, p, f).Dict? {
      assert Dict(DictOf(d, p, f)) == GetField(d, p, f);
    }
    WithFieldSame(d, p, f);
  }

  lemma WithFieldSamplesSame(d: Data, p: Path)
    requires WellFormed(d) && p in d
    requires GetField(d, p, TimeSamples).Samples?
    ensures WithField(d, p, TimeSamples, Samples(SamplesOf(d, p))) == d
  {
    assert Samples(SamplesOf(d, p)) == GetField(d, p, TimeSamples);
    WithFieldSame(d, p, TimeSamples);
  }

  lemma WithFieldChildrenSame(d: Data, p: Path, f: Field)
    requires WellFormed(d) && p in d
    requires GetField(d, p, f).Empty? || GetField(d, p, f).Children?
    ensures WithField(d, p, f, Children(ChildrenOf(d, p, f))) == d
  {
    if GetField(d, p, f).Children? {
      assert Children(ChildrenOf(d, p, f)) == GetField(d, p, f);
    }
    WithFieldSame(d, p, f);
  }

  lemma WithFieldReads(d: Data, p: Path, f: Field, v: Value)
    requires p in d
    ensures GetField(WithField(d, p, f, v), p, f) == if Storable(v) then v else Empty
  {
  }

  // ----- one recorded inverse undoes its edit -----

  lemma SetFieldUndone(d: Data, p: Path, f: Field, v: Value)
    requires WellFormed(d) && Applicable(d, SetField(p, f, v))
    ensures var inv := InverseOf(d, SetField(p, f, v));
      Replayable(Apply(d, SetField(p, f, v)), inv)
      && ReplayStep(Apply(d, SetField(p, f, v)), inv) == d
  {
    WithFieldOverwrite(d, p, f, v, GetField(d, p, f));
    WithFieldSame(d, p, f);
  }

  lemma DictValueUndone(d: Data, p: Path, f: Field, k: string, v: Value)
    requires WellFormed(d) && Applicable(d, SetFieldDictValueByKey(p, f, k, v))
    ensures var e := SetFieldDictValueByKey(p, f, k, v);
      Replayable(Apply(d, e), InverseOf(d, e)) && ReplayStep(Apply(d, e), InverseOf(d, e)) == d
  {
    var e := SetFieldDictValueByKey(p, f, k, v);
    var E := DictOf(d, p, f);
    var E1 := if v.Val? then E[k := v.x] else E - {k};
    var d1 := Apply(d, e);
    assert d1 == WithField(d, p, f, Dict(E1));
    WithFieldReads(d, p, f, Dict(E1));
    assert DictOf(d1, p, f) == E1;
    var old_ := GetFieldDictValueByKey(d, p, f, k);
    var E2 := if old_.Val? then E1[k := old_.x] else E1 - {k};
    assert E2 == E;
    WithFieldOverwrite(d, p, f, Dict(E1), Dict(E));
    WithFieldDictSame(d, p, f);
  }

  lemma TimeSampleUndone(d: Data, p: Path, t: real, v: Value)
    requires WellFormed(d) && Applicable(d, SetTimeSample(p, t, v))
    ensures var e := SetTimeSample(p, t, v);
      Replayable(Apply(d, e), InverseOf(d, e)) && ReplayStep(Apply(d, e), InverseOf(d, e)) == d
  {
    var S := SamplesOf(d, p);
    var S1 := if v.Val? then S[t := v.x] else S - {t};
    var d1 := WithField(d, p, TimeSamples, Samples(S1));
    WithFieldReads(d, p, TimeSamples, Samples(S1));
    if GetField(d, p, TimeSamples).Empty? {
      WithFieldOverwrite(d, p, TimeSamples, Samples(S1), Empty);
      WithFieldSame(d, p, TimeSamples);
    } else {
      assert SamplesOf(d1, p) == S1;
      var q := QueryTimeSample(d, p, t);
      var S2 := if q.Val? then S1[t := q.x] else S1 - {t};
      assert S2 == S;
      WithFieldOverwrite(d, p, TimeSamples, Samples(S1), Samples(S));
      WithFieldSamplesSame(d, p);
    }
  }

  lemma CreateSpecUndone(d: Data, p: Path, ty: SpecType, inert: bool)
    requires WellFormed(d) && Applicable(d, CreateSpec(p, ty, inert))
    ensures var e := CreateSpec(p, ty, inert);
      Replayable(Apply(d, e), InverseOf(d, e)) && ReplayStep(Apply(d, e), InverseOf(d, e)) == d
  {
    var d1 := d[p := Spec(ty, map[])];
    assert Without(d1, p) == d;
  }

  lemma DeleteSpecUndone(d: Data, p: Path, inert: bool)
    requires WellFormed(d) && Applicable(d, DeleteSpec(p, inert))
    ensures var e := DeleteSpec(p, inert);
      Replayable(Apply(d, e), InverseOf(d, e)) && ReplayStep(Apply(d, e), InverseOf(d, e)) == d
  {
    var d1, snap := Without(d, p), Subtree(d, p);
    var inv := InvertDeleteSpec(p, inert, GetSpecType(d, p), snap);
    assert InverseOf(d, DeleteSpec(p, inert)) == inv;
    assert Apply(d, DeleteSpec(p, inert)) == d1;
    DeleteSplits(d, p);
    assert Replayable(d1, inv);
    var d2 := d1[p := Spec(GetSpecType(d, p), map[])];
    assert ReplayStep(d1, inv) == CopySpecs(d2, snap);
    CopySpecsIntoVacancy(d2, snap);
    DeleteRejoins(d, p, GetSpecType(d, p));
  }

  /** Deleting `p` leaves it vacant, and the snapshot of its subtree is
      normalised and lies at or below `p`. */
  lemma DeleteSplits(d: Data, p: Path)
    requires WellFormed(d)
    ensures Vacant(Without(d, p), p)
    ensures WellFormed(Subtree(d, p)) && forall q | q in Subtree(d, p) :: p <= q
  {
  }

  /** The vacated layer with a bare spec at `p`, overlaid with the subtree
      snapshot, is the layer before the deletion. */
  lemma DeleteRejoins(d: Data, p: Path, ty: SpecType)
    requires p in d
    ensures Without(d, p)[p := Spec(ty, map[])] + Subtree(d, p) == d
  {
    var r := Without(d, p)[p := Spec(ty, map[])] + Subtree(d, p);
    assert r.Keys == d.Keys;
  }

  /** Two paths that are both prefixes of a third are comparable. */
  lemma PrefixesComparable(a: Path, b: Path, q: Path)
    requires a <= q && b <= q
    ensures a <= b || b <= a
  {
    if |a| <= |b| {
      assert b[..|a|] == q[..|a|];
    } else {
      assert a[..|b|] == q[..|b|];
    }
  }

  /** After a move, the moved root sits at `n` and nothing is left at or below `o`. */
  lemma MoveVacates(d: Data, o: Path, n: Path)
    requires Applicable(d, MoveSpec(o, n))
    ensures n in Move(d, o, n) && Vacant(Move(d, o, n), o)
  {
    RerootInverse(o, o, n);
    assert Reroot(o, o, n) == n;
    MoveKeys(d, o, n, n);
    forall q | q in Move(d, o, n)
      ensures !(o <= q)
    {
      MoveKeys(d, o, n, q);
      if o <= q && n <= q {
        PrefixesComparable(o, n, q);
      }
    }
  }

  lemma MoveBackKey(d: Data, o: Path, n: Path, q: Path)
    requires Applicable(d, MoveSpec(o, n))
    requires Applicable(Move(d, o, n), MoveSpec(n, o))
    ensures q in Move(Move(d, o, n), n, o) <==> q in d
  {
    var d1 := Move(d, o, n);
    MoveKeys(d1, n, o, q);
    MoveKeys(d, o, n, q);
    if o <= q {
      RerootInverse(q, o, n);
      MoveKeys(d, o, n, Reroot(q, o, n));
    }
    if n <= q && o <= q {
      PrefixesComparable(o, n, q);
    }
  }

  lemma MoveBackValue(d: Data, o: Path, n: Path, q: Path)
    requires Applicable(d, MoveSpec(o, n))
    requires Applicable(Move(d, o, n), MoveSpec(n, o))
    requires q in d && q in Move(Move(d, o, n), n, o)
    ensures Move(Move(d, o, n), n, o)[q] == d[q]
  {
    var d1 := Move(d, o, n);
    if o <= q {
      RerootInverse(q, o, n);
      var r := Reroot(q, o, n);
      assert r in MovedKeys(d, o, n);
      MoveKeys(d, o, n, r);
      assert r in d1 && d1[r] == d[q];
      assert q in MovedKeys(d1, n, o);
    } else {
      assert q in Without(d1, n);
    }
  }

  /** Moving a subtree away and back again restores the layer. */
  lemma MoveBack(d: Data, o: Path, n: Path)
    requires Applicable(d, MoveSpec(o, n))
    requires Applicable(Move(d, o, n), MoveSpec(n, o))
    ensures Move(Move(d, o, n), n, o) == d
  {
    var d2 := Move(Move(d, o, n), n, o);
    forall q
      ensures q in d2 <==> q in d
    {
      MoveBackKey(d, o, n, q);
    }
    forall q | q in d
      ensures d2[q] == d[q]
    {
      MoveBackValue(d, o, n, q);
    }
    SameEntries(d2, d);
  }

  /** Two layers with the same paths holding the same specs are equal. */
  lemma SameEntries(a: Data, b: Data)
    requires forall q :: q in a <==> q in b
    requires forall q | q in b :: a[q] == b[q]
    ensures a == b
  {
  }

  lemma MoveSpecUndone(d: Data, o: Path, n: Path)
    requires Applicable(d, MoveSpec(o, n))
    ensures Replayable(Move(d, o, n), InvertMoveSpec(o, n))
    ensures ReplayStep(Move(d, o, n), InvertMoveSpec(o, n)) == d
  {
    MoveReplayable(d, o, n);
    ReplayMove(Move(d, o, n), o, n);
    MoveBackPerform(d, o, n);
  }

  lemma MoveBackPerform(d: Data, o: Path, n: Path)
    requires Applicable(d, MoveSpec(o, n))
    ensures Perform(Move(d, o, n), MoveSpec(n, o)) == d
  {
    MoveReplayable(d, o, n);
    MoveBack(d, o, n);
  }

  lemma ReplayMove(d: Data, o: Path, n: Path)
    ensures ReplayStep(d, InvertMoveSpec(o, n)) == Perform(d, MoveSpec(n, o))
  {
  }

  lemma MoveReplayable(d: Data, o: Path, n: Path)
    requires Applicable(d, MoveSpec(o, n))
    ensures Applicable(Move(d, o, n), MoveSpec(n, o))
    ensures Replayable(Move(d, o, n), InvertMoveSpec(o, n))
  {
    MoveVacates(d, o, n);
    MoveBackApplicable(Move(d, o, n), o, n);
  }

  /** The move back is applicable wherever `n` holds a spec and `o` is vacant. */
  lemma MoveBackApplicable(d1: Data, o: Path, n: Path)
    requires n in d1 && Vacant(d1, o) && !(o <= n) && !(n <= o)
    ensures Applicable(d1, MoveSpec(n, o)) && Replayable(d1, InvertMoveSpec(o, n))
  {
    assert ReplayEdit(InvertMoveSpec(o, n)) == MoveSpec(n, o);
  }

  lemma PushChildUndone(d: Data, p: Path, f: Field, c: Child)
    requires WellFormed(d) && Applicable(d, PushChild(p, f, c))
    ensures var e := PushChild(p, f, c);
      Replayable(Apply(d, e), InverseOf(d, e)) && ReplayStep(Apply(d, e), InverseOf(d, e)) == d
  {
    var items := ChildrenOf(d, p, f);
    var d1 := WithField(d, p, f, Children(items + [c]));
    WithFieldReads(d, p, f, Children(items + [c]));
    assert ChildrenOf(d1, p, f) == items + [c];
    assert (items + [c])[..|items|] == items;
    WithFieldOverwrite(d, p, f, Children(items + [c]), Children(items));
    WithFieldChildrenSame(d, p, f);
  }

  lemma PopChildUndone(d: Data, p: Path, f: Field, c: Child)
    requires WellFormed(d) && Applicable(d, PopChild(p, f, c))
    ensures var e := PopChild(p, f, c);
      Replayable(Apply(d, e), InverseOf(d, e)) && ReplayStep(Apply(d, e), InverseOf(d, e)) == d
  {
    var items := ChildrenOf(d, p, f);
    var front := items[..|items| - 1];
    var d1 := WithField(d, p, f, Children(front));
    WithFieldReads(d, p, f, Children(front));
    assert ChildrenOf(d1, p, f) == front;
    assert front + [c] == items;
    WithFieldOverwrite(d, p, f, Children(front), Children(items));
    WithFieldChildrenSame(d, p, f);
  }

  /**
   * The inverse recorded for an applicable edit can be replayed on the edited
   * layer, and replaying it restores the layer to its state before the edit.
   */
  lemma RecordedInverseUndoes(d: Data, e: Edit)
    requires WellFormed(d) && Applicable(d, e)
    ensures Replayable(Apply(d, e), InverseOf(d, e))
    ensures ReplayStep(Apply(d, e), InverseOf(d, e)) == d
  {
    match e
    case SetField(p, f, v) => SetFieldUndone(d, p, f, v);
    case SetFieldDictValueByKey(p, f, k, v) => DictValueUndone(d, p, f, k, v);
    case SetTimeSample(p, t, v) => TimeSampleUndone(d, p, t, v);
    case CreateSpec(p, ty, inert) => CreateSpecUndone(d, p, ty, inert);
    case DeleteSpec(p, inert) => DeleteSpecUndone(d, p, inert);
    case MoveSpec(o, n) =>
      assert Apply(d, e) == Move(d, o, n);
      MoveSpecUndone(d, o, n);
    case PushChild(p, f, c) => PushChildUndone(d, p, f, c);
    case PopChild(p, f, c) => PopChildUndone(d, p, f, c);
  }

  lemma ReplayWellFormed(d: Data, inv: Inverse)
    requires WellFormed(d) && Replayable(d, inv)
    ensures WellFormed(ReplayStep(d, inv))
  {
    ApplyWellFormed(d, ReplayEdit(inv));
    if inv.InvertDeleteSpec? {
      CopySpecsWellFormed(Apply(d, ReplayEdit(inv)), inv.deletedData);
    }
  }

  /**
   * Replaying an inverse records exactly one redo inverse, and replaying that
   * redo restores the layer to its state before the first replay.
   */
  lemma RedoUndoesReplay(d: Data, inv: Inverse)
    requires WellFormed(d) && Replayable(d, inv)
    ensures WellFormed(ReplayStep(d, inv))
    ensures |RedoOf(d, inv)| == 1
    ensures Replayable(ReplayStep(d, inv), RedoOf(d, inv)[0])
    ensures ReplayStep(ReplayStep(d, inv), RedoOf(d, inv)[0]) == d
  {
    ReplayWellFormed(d, inv);
    if inv.InvertDeleteSpec? {
      RedoUndoesRecreate(d, inv);
    } else {
      RecordedInverseUndoes(d, ReplayEdit(inv));
    }
  }

  /** The replay of a deletion's inverse recreates the subtree, and its redo
      deletes it again. */
  lemma RedoUndoesRecreate(d: Data, inv: Inverse)
    requires Replayable(d, inv) && inv.InvertDeleteSpec?
    ensures |RedoOf(d, inv)| == 1
    ensures Replayable(ReplayStep(d, inv), RedoOf(d, inv)[0])
    ensures ReplayStep(ReplayStep(d, inv), RedoOf(d, inv)[0]) == d
  {
    var p := inv.path;
    var d0 := d[p := Spec(inv.deletedSpecType, map[])];
    CopySpecsIntoVacancy(d0, inv.deletedData);
    var d1 := d0 + inv.deletedData;
    assert ReplayStep(d, inv) == d1;
    assert RedoOf(d, inv) == [InvertCreateSpec(p, inv.inert)];
    WithoutOverlay(d, p, Spec(inv.deletedSpecType, map[]), inv.deletedData);
  }

  /** Deleting `p` from a layer vacant at `p`, overlaid with a spec at `p`
      and a subtree below `p`, gives the layer back. */
  lemma WithoutOverlay(d: Data, p: Path, s: Spec, snap: Data)
    requires Vacant(d, p) && forall q | q in snap :: p <= q
    ensures p in d[p := s] + snap && Without(d[p := s] + snap, p) == d
  {
    var r := Without(d[p := s] + snap, p);
    assert r.Keys == d.Keys;
  }

  // ----- whole lists: undo and redo -----

  /** The layer data after replaying `invs` from the last element to the first (`_Invert`). */
  function ReplayBackward(d: Data, invs: seq<Inverse>): Data
    decreases |invs|
  {
    if |invs| == 0 then d else ReplayStep(ReplayBackward(d, invs[1..]), invs[0])
  }

  /** The inverses the delegate records during ReplayBackward, in recording order. */
  function RedoBackward(d: Data, invs: seq<Inverse>): seq<Inverse>
    decreases |invs|
  {
    if |invs| == 0 then []
    else RedoBackward(d, invs[1..]) + RedoOf(ReplayBackward(d, invs[1..]), invs[0])
  }

  /** Every replay of ReplayBackward is accepted by the layer. */
  predicate ReplayableBackward(d: Data, invs: seq<Inverse>)
    decreases |invs|
  {
    |invs| == 0
    || (ReplayableBackward(d, invs[1..]) && Replayable(ReplayBackward(d, invs[1..]), invs[0]))
  }

  /** The inverses the delegate records while the client performs `es`. */
  function RecordAll(d: Data, es: seq<Edit>): seq<Inverse>
    decreases |es|
  {
    if |es| == 0 then []
    else
      (if Applicable(d, es[0]) then [InverseOf(d, es[0])] else [])
      + RecordAll(Perform(d, es[0]), es[1..])
  }

  /** Recording one more edit appends its inverse, if the layer accepts it. */
  lemma {:induction false} RecordAllSnoc(d: Data, es: seq<Edit>, e: Edit)
    ensures RecordAll(d, es + [e])
      == RecordAll(d, es)
         + (if Applicable(PerformAll(d, es), e) then [InverseOf(PerformAll(d, es), e)] else [])
    decreases |es|
  {
    if |es| > 0 {
      assert (es + [e])[1..] == es[1..] + [e];
      RecordAllSnoc(Perform(d, es[0]), es[1..], e);
    } else {
      assert es + [e] == [e];
    }
  }

  lemma {:induction false} BackwardAppend(d: Data, a: seq<Inverse>, b: seq<Inverse>)
    ensures ReplayBackward(d, a + b) == ReplayBackward(ReplayBackward(d, b), a)
    ensures ReplayableBackward(d, a + b)
      <==> ReplayableBackward(d, b) && ReplayableBackward(ReplayBackward(d, b), a)
    decreases |a|
  {
    if |a| == 0 {
      assert a + b == b;
    } else {
      assert (a + b)[1..] == a[1..] + b;
      assert (a + b)[0] == a[0];
      BackwardAppend(d, a[1..], b);
    }
  }

  /**
   * Undo: replaying, last to first, what the delegate recorded while a client
   * performed `es` is accepted at every step and restores the layer to its
   * state before the edits.
   */
  lemma {:induction false} UndoRestores(d: Data, es: seq<Edit>)
    requires WellFormed(d) && ApplicableAll(d, es)
    ensures WellFormed(PerformAll(d, es))
    ensures |RecordAll(d, es)| == |es|
    ensures ReplayableBackward(PerformAll(d, es), RecordAll(d, es))
    ensures ReplayBackward(PerformAll(d, es), RecordAll(d, es)) == d
    decreases |es|
  {
    if |es| > 0 {
      var e := es[0];
      var d1 := Apply(d, e);
      ApplyWellFormed(d, e);
      UndoRestores(d1, es[1..]);
      var rest := RecordAll(d1, es[1..]);
      var all := [InverseOf(d, e)] + rest;
      assert RecordAll(d, es) == all;
      assert all[1..] == rest;
      RecordedInverseUndoes(d, e);
    }
  }

  /**
   * Redo: after any accepted backward replay, replaying what it recorded
   * (again last to first) is accepted at every step and restores the layer
   * to its state before the first replay.  Applied to the output of
   * UndoRestores, this is "Invert twice returns to the edited state".
   */
  lemma {:induction false} RedoRestores(d: Data, invs: seq<Inverse>)
    requires WellFormed(d) && ReplayableBackward(d, invs)
    ensures WellFormed(ReplayBackward(d, invs))
    ensures |RedoBackward(d, invs)| == |invs|
    ensures ReplayableBackward(ReplayBackward(d, invs), RedoBackward(d, invs))
    ensures ReplayBackward(ReplayBackward(d, invs), RedoBackward(d, invs)) == d
    decreases |invs|
  {
    if |invs| > 0 {
      var t := invs[1..];
      RedoRestores(d, t);
      var m := ReplayBackward(d, t);
      var rt := RedoBackward(d, t);
      RedoUndoesReplay(m, invs[0]);
      var d1 := ReplayStep(m, invs[0]);
      var r0 := RedoOf(m, invs[0]);
      assert RedoBackward(d, invs) == rt + r0;
      BackwardAppend(d1, rt, r0);
      assert r0 == [r0[0]] && r0[1..] == [];
      assert ReplayBackward(d1, r0) == m;
    }
  }
}

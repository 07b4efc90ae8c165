// The layer state delegate the undo machinery installs on every tracked
// layer.  The layer announces each primitive edit to its delegate before
// performing it; the delegate marks itself dirty, snapshots what the edit is
// about to overwrite, and routes the inverse to the undo router.  The
// delegate's replayers perform an inverse back through the same channel, so
// replaying an inverse records the redo.

module UndoStateDelegate {
  import opened LayerData
  import opened Inversions
  import opened UndoRouter

  /** An Sdf layer: its data and the state delegate it announces edits to. */
  class Layer {
    var data: Data
    var stateDelegate: StateDelegate?

    constructor(d: Data)
      ensures data == d && stateDelegate == null
    {
      data := d;
      stateDelegate := null;
    }
  }

  class StateDelegate {
    var dirty: bool
    /** The layer handle; null once the layer has expired or been detached. */
    var layer: Layer?
    /** The process-wide router every inverse is routed to. */
    const router: Router

    constructor(router: Router)
      ensures !dirty && layer == null && this.router == router
    {
      dirty := false;
      layer := null;
      this.router := router;
    }

    method MarkCurrentStateAsClean()
      modifies this
      ensures !dirty && layer == old(layer)
    {
      dirty := false;
    }

    method MarkCurrentStateAsDirty()
      modifies this
      ensures dirty && layer == old(layer)
    {
      dirty := true;
    }

    method OnSetLayer(l: Layer?)
      modifies this
      ensures layer == l && dirty == old(dirty)
    {
      if l != null {
        layer := l;
      } else {
        layer := null;
      }
    }

    /** Forwards an inverse to the router unless it is muted; a muted router drops it with a warning. */
    method RouteInverse(inv: Inverse)
      modifies router
      ensures router.State() == Routed(old(router.State()), inv)
    {
      if !router.IsMuted() {
        router.AddInverse(inv);
      } else {
        router.diagnostics := router.diagnostics + [InverseMuted];
      }
    }

    // ----- the recorders, called before the layer performs the edit -----

    method OnSetField(p: Path, f: Field, value: Value)
      requires layer != null
      modifies this, router
      ensures dirty && layer == old(layer)
      ensures router.State() == Routed(old(router.State()), InverseOf(layer.data, SetField(p, f, value)))
    {
      MarkCurrentStateAsDirty();
      var inverseValue := GetField(layer.data, p, f);
      RouteInverse(InvertSetField(p, f, inverseValue));
    }

    method OnSetFieldDictValueByKey(p: Path, f: Field, k: string, value: Value)
      requires layer != null
      modifies this, router
      ensures dirty && layer == old(layer)
      ensures router.State()
        == Routed(old(router.State()), InverseOf(layer.data, SetFieldDictValueByKey(p, f, k, value)))
    {
      MarkCurrentStateAsDirty();
      var inverseValue := GetFieldDictValueByKey(layer.data, p, f, k);
      RouteInverse(InvertSetFieldDictValueByKey(p, f, k, inverseValue));
    }

    /**
     * Without a time-samples field the inverse erases the whole field;
     * otherwise it restores the sample held at `t` (or its absence).
     */
    method OnSetTimeSample(p: Path, t: real, value: Value)
      requires layer != null
      modifies this, router
      ensures dirty && layer == old(layer)
      ensures router.State() == Routed(old(router.State()), InverseOf(layer.data, SetTimeSample(p, t, value)))
    {
      MarkCurrentStateAsDirty();
      if !HasField(layer.data, p, TimeSamples) {
        RouteInverse(InvertSetField(p, TimeSamples, Empty));
      } else {
        var oldValue := QueryTimeSample(layer.data, p, t);
        RouteInverse(InvertSetTimeSample(p, t, oldValue));
      }
    }

    method OnCreateSpec(p: Path, ty: SpecType, inert: bool)
      requires layer != null
      modifies this, router
      ensures dirty && layer == old(layer)
      ensures router.State() == Routed(old(router.State()), InverseOf(layer.data, CreateSpec(p, ty, inert)))
    {
      MarkCurrentStateAsDirty();
      RouteInverse(InvertCreateSpec(p, inert));
    }

    /** Snapshots every spec at or below `p`, one traversal step at a time. */
    method OnDeleteSpec(p: Path, inert: bool)
      requires layer != null
      modifies this, router
      ensures dirty && layer == old(layer)
      ensures router.State() == Routed(old(router.State()), InverseOf(layer.data, DeleteSpec(p, inert)))
    {
      MarkCurrentStateAsDirty();
      var d := layer.data;
      var deletedData: Data := map[];
      var todo := set q | q in d && p <= q;
      while todo != {}
        invariant todo <= d.Keys
        invariant forall q | q in todo :: p <= q
        invariant deletedData == map q | q in d && p <= q && q !in todo :: d[q]
        decreases todo
      {
        var q :| q in todo;
        deletedData := deletedData[q := d[q]];
        todo := todo - {q};
      }
      assert deletedData == Subtree(d, p);
      var deletedSpecType := GetSpecType(d, p);
      RouteInverse(InvertDeleteSpec(p, inert, deletedSpecType, deletedData));
    }

    method OnMoveSpec(o: Path, n: Path)
      requires layer != null
      modifies this, router
      ensures dirty && layer == old(layer)
      ensures router.State() == Routed(old(router.State()), InverseOf(layer.data, MoveSpec(o, n)))
    {
      MarkCurrentStateAsDirty();
      RouteInverse(InvertMoveSpec(o, n));
    }

    method OnPushChild(p: Path, f: Field, c: Child)
      requires layer != null
      modifies this, router
      ensures dirty && layer == old(layer)
      ensures router.State() == Routed(old(router.State()), InverseOf(layer.data, PushChild(p, f, c)))
    {
      MarkCurrentStateAsDirty();
      match c
      case TokenChild(t) => RouteInverse(InvertPushTokenChild(p, f, t));
      case ChildPath(q) => RouteInverse(InvertPushPathChild(p, f, q));
    }

    method OnPopChild(p: Path, f: Field, c: Child)
      requires layer != null
      modifies this, router
      ensures dirty && layer == old(layer)
      ensures router.State() == Routed(old(router.State()), InverseOf(layer.data, PopChild(p, f, c)))
    {
      MarkCurrentStateAsDirty();
      match c
      case TokenChild(t) => RouteInverse(InvertPopTokenChild(p, f, t));
      case ChildPath(q) => RouteInverse(InvertPopPathChild(p, f, q));
    }

    /**
     * The delegate base class's edit entry point: an edit the layer accepts
     * is announced to the matching recorder and then performed; an edit it
     * refuses changes nothing.
     */
    method PerformEdit(e: Edit)
      requires layer != null
      modifies this, router, layer
      ensures layer == old(layer)
      ensures layer.data == Perform(old(layer.data), e)
      ensures router.State()
        == RoutedAll(old(router.State()), if Applicable(old(layer.data), e) then [InverseOf(old(layer.data), e)] else [])
      ensures dirty == (old(dirty) || Applicable(old(layer.data), e))
    {
      var d := layer.data;
      if Applicable(d, e) {
        match e {
          case SetField(p, f, v) => OnSetField(p, f, v);
          case SetFieldDictValueByKey(p, f, k, v) => OnSetFieldDictValueByKey(p, f, k, v);
          case SetTimeSample(p, t, v) => OnSetTimeSample(p, t, v);
          case CreateSpec(p, ty, inert) => OnCreateSpec(p, ty, inert);
          case DeleteSpec(p, inert) => OnDeleteSpec(p, inert);
          case MoveSpec(o, n) => OnMoveSpec(o, n);
          case PushChild(p, f, c) => OnPushChild(p, f, c);
          case PopChild(p, f, c) => OnPopChild(p, f, c);
        }
        layer.data := Apply(d, e);
      }
    }

    /** Copies every spec of a snapshot straight into the layer data, unannounced. */
    method CopySnapshot(snap: Data)
      requires layer != null
      modifies layer
      ensures layer.data == CopySpecs(old(layer.data), snap)
    {
      var d := layer.data;
      var todo := snap.Keys;
      ghost var done: set<Path> := {};
      assert CopySpecs(d, map r | r in snap && r in done :: snap[r]) == d;
      while todo != {}
        invariant todo + done == snap.Keys && todo !! done
        invariant layer.data == CopySpecs(d, map r | r in snap && r in done :: snap[r])
        decreases todo
      {
        var q :| q in todo;
        CopySpecsStep(d, snap, done, q);
        layer.data := CopySpec(layer.data, q, snap[q]);
        todo := todo - {q};
        done := done + {q};
      }
      assert (map r | r in snap && r in done :: snap[r]) == snap;
    }

    /**
     * The `_Invert*` replayers.  With an expired layer each reports an error,
     * edits nothing and fails; otherwise it performs the opposite edit
     * through the delegate (recording the redo) and succeeds.  A deletion's
     * replay re-creates the spec and then copies its snapshot back.
     */
    method ReplayInverse(inv: Inverse) returns (ok: bool)
      modifies this, router, layer
      ensures layer == old(layer)
      ensures old(layer) == null ==>
        !ok && dirty == old(dirty)
        && router.State() == old(router.State()).(diagnostics := old(router.diagnostics) + [ExpiredLayer])
      ensures old(layer) != null ==>
        ok && layer.data == ReplayStep(old(layer.data), inv)
        && router.State() == RoutedAll(old(router.State()), RedoOf(old(layer.data), inv))
        && dirty == (old(dirty) || RedoOf(old(layer.data), inv) != [])
    {
      if layer == null {
        router.diagnostics := router.diagnostics + [ExpiredLayer];
        return false;
      }
      PerformEdit(ReplayEdit(inv));
      if inv.InvertDeleteSpec? {
        CopySnapshot(inv.deletedData);
      }
      return true;
    }
  }

  /**
   * TrackLayer: installs a fresh delegate on the layer and succeeds; nothing
   * checks for an existing one, which is detached from the layer.
   */
  method TrackLayer(router: Router, layer: Layer) returns (ok: bool, delegate: StateDelegate)
    modifies layer, layer.stateDelegate
    ensures ok && fresh(delegate)
    ensures layer.stateDelegate == delegate && delegate.layer == layer
    ensures delegate.router == router && !delegate.dirty
    ensures layer.data == old(layer.data)
    ensures old(layer.stateDelegate) != null ==> old(layer.stateDelegate).layer == null
  {
    if layer.stateDelegate != null {
      layer.stateDelegate.OnSetLayer(null);
    }
    delegate := new StateDelegate(router);
    delegate.OnSetLayer(layer);
    layer.stateDelegate := delegate;
    ok := true;
  }
}

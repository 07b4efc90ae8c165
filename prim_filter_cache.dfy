// UsdQtPrimFilterCache as a class over its state map. Each method leaves the
// map, and returns, what the function of the same operation in
// PrimFilterCacheModel gives for the map it started from; the properties of
// those functions are proved there.

module PrimFilterCaches {
  import opened SdfPaths
  import opened UsdStages
  import opened PrimFilterCacheModel

  /** The cache itself: the state map, which every run of the filter
      updates in place. */
  class PrimFilterCache {
    var stateMap: map<SdfPath, FilterState>

    /** A new cache holds no states. */
    constructor()
      ensures stateMap == map[]
    {
      stateMap := map[];
    }

    /** `GetState`. */
    method GetState(p: SdfPath) returns (state: FilterState)
      ensures state == PrimFilterCacheModel.GetState(stateMap, p)
    {
      if p in stateMap {
        return stateMap[p];
      }
      return Untraversed;
    }

    /** `_RunFilter`: the children of a prim not rejected are run one after
        the other; an Intermediate prim then looks for an accepted child,
        stopping at the first. */
    method RunFilter(filter: Filter, pred: Predicate, st: Stage, p: SdfPath) returns (state: FilterState)
      requires StageWf(st)
      modifies this
      ensures (stateMap, state) == PrimFilterCacheModel.RunFilter(filter, pred, st, old(stateMap), p)
      decreases |Subtree(st, p)|
    {
      state := filter(p);
      if state != Reject {
        var kids := FilteredChildren(pred, st, p);
        ghost var target := RunAll(filter, pred, st, stateMap, p, kids);
        for i := 0 to |kids|
          invariant RunAll(filter, pred, st, stateMap, p, kids[i..]) == target
        {
          RunAllStep(filter, pred, st, stateMap, p, kids, i);
          var childState := RunFilter(filter, pred, st, kids[i]);
        }
        assert kids[|kids|..] == [];
        if state == Intermediate {
          var i := 0;
          while i < |kids| && state != Accept
            invariant i <= |kids|
            invariant state == Intermediate || state == Accept
            invariant state == Accept <==> exists j :: 0 <= j < i && kids[j] in stateMap && stateMap[kids[j]] == Accept
          {
            if kids[i] in stateMap && stateMap[kids[i]] == Accept {
              state := Accept;
            }
            i := i + 1;
          }
          if state != Accept {
            state := Reject;
          }
        }
      }
      stateMap := stateMap[p := state];
    }

    /** `ApplyFilter`: the map is cleared before the run. */
    method ApplyFilter(filter: Filter, pred: Predicate, st: Stage, root: SdfPath)
      requires StageWf(st)
      modifies this
      ensures stateMap == PrimFilterCacheModel.ApplyFilter(filter, pred, st, root)
    {
      stateMap := map[];
      var rootState := RunFilter(filter, pred, st, root);
    }

    /** `ApplyPathContainsFilter`. */
    method ApplyPathContainsFilter(st: Stage, root: SdfPath, substring: string, pred: Predicate)
      requires StageWf(st)
      modifies this
      ensures stateMap == PrimFilterCacheModel.ApplyPathContainsFilter(st, root, substring, pred)
    {
      ApplyFilter(PathContainsFilter(substring, st), pred, st, root);
    }
  }
}

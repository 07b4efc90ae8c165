// UsdQt_PrimIdTable as a class over its two maps and its id counter. Every
// method leaves the maps, and returns, what the function of the same
// operation in PrimIdTableModel gives for the maps it started from; the
// properties of those functions are proved there. The stage is read at the
// moment of each call, so each method that consults it takes the current
// snapshot as a parameter.

module PrimIdTables {
  import opened SdfPaths
  import opened UsdStages
  import opened PrimIdTableModel

  class PrimIdTable {
    const root: SdfPath
    const pred: Predicate
    const maxId: nat
    var pathToId: map<SdfPath, nat>
    var idToItem: map<nat, ItemInfo>
    var nextAvailableId: nat

    /** The two maps and the counter. */
    function State(): Table
      reads this
    {
      Table(pathToId, idToItem, nextAvailableId)
    }

    /** What is fixed at construction. */
    function Cfg(): Config
    {
      Config(root, pred, maxId)
    }

    ghost predicate Valid()
      reads this
    {
      Inv(State())
    }

    /** The counter starts at 1 and the root prim is registered. A prim's path
        is never the empty path. */
    constructor(st: Stage, root: SdfPath, pred: Predicate, maxId: nat)
      requires StageWf(st) && root != EmptyPath
      ensures Cfg() == Config(root, pred, maxId)
      ensures State() == Fresh(Cfg(), st) && Valid()
    {
      this.root := root;
      this.pred := pred;
      this.maxId := maxId;
      pathToId := map[];
      idToItem := map[];
      nextAvailableId := 1;
      new;
      RegisterPrim(st, root);
    }

    /** `_RegisterPrim`: the item's children are copied one by one from the
        prim's filtered children. */
    method RegisterPrim(st: Stage, p: SdfPath)
      requires StageWf(st) && Valid() && p != EmptyPath
      modifies this
      ensures State() == RegisterOf(Cfg(), st, old(State()), p) && Valid()
    {
      RegisterKeeps(Cfg(), st, State(), p);
      if p !in pathToId {
        pathToId := pathToId[p := nextAvailableId];
        var kids := FilteredChildren(pred, st, p);
        var children: seq<SdfPath> := [];
        for i := 0 to |kids|
          invariant children == kids[..i]
        {
          children := children + [kids[i]];
        }
        assert kids[..|kids|] == kids;
        idToItem := idToItem[nextAvailableId := ItemInfo(p, children)];
        nextAvailableId := nextAvailableId + 1;
      }
    }

    /** `GetRow`: the search for the path among its parent's children is the
        loop of `std::find`. */
    method GetRow(id: nat) returns (row: nat)
      ensures row == PrimIdTableModel.GetRow(Cfg(), State(), id)
    {
      if id !in idToItem {
        return 0;
      }
      var parentId := GetParentId(Cfg(), State(), id);
      var path := GetPathFromId(State(), id);
      if path == root || parentId !in idToItem {
        return 0;
      }
      var siblings := idToItem[parentId].children;
      row := 0;
      while row < |siblings| && siblings[row] != path
        invariant row <= |siblings|
        invariant FindIndex(siblings, path) == row + FindIndex(siblings[row..], path)
      {
        assert siblings[row..][1..] == siblings[row + 1..];
        row := row + 1;
      }
    }

    /** `RegisterChild`. */
    method RegisterChild(st: Stage, id: nat, index: nat) returns (ok: bool)
      requires StageWf(st) && Valid()
      modifies this
      ensures (State(), ok) == RegisterChildOf(Cfg(), st, old(State()), id, index) && Valid()
    {
      if id !in idToItem || index >= |idToItem[id].children| {
        return false;
      }
      var path := idToItem[id].children[index];
      if path in pathToId {
        return true;
      }
      if !IsValidPrim(st, path) || nextAvailableId >= maxId {
        return false;
      }
      RegisterPrim(st, path);
      ok := true;
    }

    /** `_DeleteSubtree`: the path leaves the path map, its listed children are
        deleted in order, then its id leaves the item map. */
    method DeleteSubtree(p: SdfPath)
      requires Valid()
      modifies this
      ensures State() == DeleteOf(old(State()), p) && Valid()
      decreases |pathToId.Keys|
    {
      ghost var t := State();
      if p in pathToId {
        var id := pathToId[p];
        var kids := ItemAt(State(), id).children;
        pathToId := pathToId - {p};
        assert pathToId.Keys == t.pathToId.Keys - {p};
        ghost var t1 := State();
        ShrunkInv(t, t1);
        ghost var target := DeleteAll(t1, kids);
        for i := 0 to |kids|
          invariant Valid()
          invariant pathToId.Keys <= t1.pathToId.Keys
          invariant DeleteAll(State(), kids[i..]) == target
        {
          assert kids[i..][1..] == kids[i + 1..];
          SubsetCard(pathToId.Keys, t1.pathToId.Keys);
          ghost var before := State();
          DeleteSubtree(kids[i]);
          ShrunkInv(before, State());
        }
        idToItem := idToItem - {id};
        assert State() == DeleteOf(t, p);
        ShrunkInv(t, State());
      }
    }

    /** `_InvalidateSubtree`: a kept item's old children are invalidated in
        order, then its children list is cleared and refilled from the prim's
        filtered children; a rejected path's subtree is deleted. */
    method InvalidateSubtree(st: Stage, p: SdfPath)
      requires StageWf(st) && Valid()
      modifies this
      ensures State() == InvalidateOf(Cfg(), st, old(State()), p) && Valid()
      decreases |Desc(State(), p)|
    {
      if p !in pathToId {
        return;
      }
      if !(IsValidPrim(st, p) && Accepts(pred, st, p)) {
        DeleteSubtree(p);
        return;
      }
      ghost var t := State();
      var id := pathToId[p];
      var kids := ItemAt(State(), id).children;
      ghost var target := InvalidateAll(Cfg(), st, t, p, kids);
      for i := 0 to |kids|
        invariant Valid() && p in pathToId && pathToId[p] == id
        invariant |Desc(State(), p)| <= |Desc(t, p)|
        invariant InvalidateAll(Cfg(), st, State(), p, kids[i..]) == target
      {
        assert kids[i..][1..] == kids[i + 1..];
        DescShrinks(State(), p, kids[i]);
        ghost var before := State();
        InvalidateSubtree(st, kids[i]);
        ConfinedWiden(before, State(), kids[i], p);
        SubsetCard(Desc(State(), p), Desc(before, p));
      }
      var filtered := FilteredChildren(pred, st, p);
      var children: seq<SdfPath> := [];
      for i := 0 to |filtered|
        invariant children == filtered[..i]
      {
        children := children + [filtered[i]];
      }
      assert filtered[..|filtered|] == filtered;
      idToItem := idToItem[id := ItemInfo(ItemAt(State(), id).path, children)];
    }

    /** One parent of `ResyncSubtrees`: its children list is replaced by the
        kept children, and the reported paths are returned. */
    method UpdateChildren(st: Stage, parent: SdfPath, sorted: seq<SdfPath>) returns (reported: set<SdfPath>)
      requires StageWf(st) && Valid()
      modifies this
      ensures (State(), reported) == UpdateParent(Cfg(), st, old(State()), parent, sorted) && Valid()
    {
      UpdateParentKeeps(Cfg(), st, State(), parent, sorted);
      var parentId := PrimIdTableModel.GetIdFromPath(State(), parent);
      var info := ItemAt(State(), parentId);
      var newChildren, outOfSync := KeepChildren(FilteredChildren(pred, st, parent), info.children, sorted);
      var lost := LostChildren(info.children, newChildren, sorted);
      assert lost == set x | x in info.children && x !in newChildren && x !in sorted;
      reported := outOfSync + lost;
      idToItem := idToItem[parentId := ItemInfo(info.path, newChildren)];
    }

    /** The parent loop of `ResyncSubtrees`. */
    method UpdateAllParents(st: Stage, parents: seq<SdfPath>, sorted: seq<SdfPath>) returns (outOfSync: set<SdfPath>)
      requires StageWf(st) && Valid()
      modifies this
      ensures (State(), outOfSync) == UpdateParents(Cfg(), st, old(State()), parents, sorted) && Valid()
    {
      ghost var updated := UpdateParents(Cfg(), st, State(), parents, sorted);
      assert parents[0..] == parents;
      outOfSync := {};
      for i := 0 to |parents|
        invariant Valid()
        invariant UpdateParents(Cfg(), st, State(), parents[i..], sorted).0 == updated.0
        invariant outOfSync + UpdateParents(Cfg(), st, State(), parents[i..], sorted).1 == updated.1
      {
        ghost var before := State();
        var reported := UpdateChildren(st, parents[i], sorted);
        UpdateParentsAdvance(Cfg(), st, before, State(), parents, i, sorted, outOfSync, reported, updated);
        outOfSync := outOfSync + reported;
      }
      assert parents[|parents|..] == [];
    }

    /** The last loop of `ResyncSubtrees`. */
    method InvalidateSorted(st: Stage, sorted: seq<SdfPath>)
      requires StageWf(st) && Valid()
      modifies this
      ensures State() == InvalidateEach(Cfg(), st, old(State()), sorted) && Valid()
    {
      ghost var target := InvalidateEach(Cfg(), st, State(), sorted);
      for i := 0 to |sorted|
        invariant Valid()
        invariant InvalidateEach(Cfg(), st, State(), sorted[i..]) == target
      {
        assert sorted[i..][1..] == sorted[i + 1..];
        InvalidateSubtree(st, sorted[i]);
      }
    }

    /** `ResyncSubtrees`: the paths are sorted, the children of each distinct
        parent are rebuilt in ascending order, then each path is invalidated in
        ascending order. Returns the out-of-sync paths, whose presence the
        source reports as a coding error. */
    method ResyncSubtrees(st: Stage, paths: seq<SdfPath>) returns (outOfSync: set<SdfPath>)
      requires StageWf(st) && Valid()
      modifies this
      ensures (State(), outOfSync) == ResyncOf(Cfg(), st, old(State()), paths) && Valid()
    {
      var sorted := SortPaths(paths);
      outOfSync := UpdateAllParents(st, UniqueParents(sorted), sorted);
      InvalidateSorted(st, sorted);
    }
  }

  /** The filtered-children loop of one parent's resync: keeps, in order, the
      children listed before or being resynced, and collects the others. */
  method KeepChildren(filtered: seq<SdfPath>, originals: seq<SdfPath>, resync: seq<SdfPath>)
    returns (newChildren: seq<SdfPath>, outOfSync: set<SdfPath>)
    ensures (newChildren, outOfSync) == KeptChildren(filtered, originals, resync)
  {
    ghost var kept := KeptChildren(filtered, originals, resync);
    newChildren, outOfSync := [], {};
    for i := 0 to |filtered|
      invariant kept.0 == newChildren + KeptChildren(filtered[i..], originals, resync).0
      invariant kept.1 == outOfSync + KeptChildren(filtered[i..], originals, resync).1
    {
      assert filtered[i..][1..] == filtered[i + 1..];
      if filtered[i] in originals || filtered[i] in resync {
        newChildren := newChildren + [filtered[i]];
      } else {
        outOfSync := outOfSync + {filtered[i]};
      }
    }
    assert filtered[|filtered|..] == [];
    assert newChildren + [] == newChildren && outOfSync + {} == outOfSync;
  }

  /** The original-children loop of one parent's resync: the listed children
      that were neither kept nor resynced. */
  method LostChildren(originals: seq<SdfPath>, kept: seq<SdfPath>, resync: seq<SdfPath>) returns (lost: set<SdfPath>)
    ensures forall x :: x in lost <==> x in originals && x !in kept && x !in resync
  {
    lost := {};
    for i := 0 to |originals|
      invariant forall x :: x in lost <==> x in originals[..i] && x !in kept && x !in resync
    {
      assert originals[..i + 1] == originals[..i] + [originals[i]];
      if originals[i] !in kept && originals[i] !in resync {
        lost := lost + {originals[i]};
      }
    }
    assert originals[..|originals|] == originals;
  }
}

// The path <-> id table behind the hierarchy model's internal ids, as values.
// A table maps each registered path to an id and each id to an item holding
// its path and the paths of its filtered children (read when the prim was
// registered or last refreshed). Ids are handed out from a counter that
// starts at 1, so 0 can stand for "no id". Lookups that miss report a coding
// error and return 0 or the empty path; those fallback values are modelled,
// the diagnostics are not.

module PrimIdTableModel {
  import opened SdfPaths
  import opened UsdStages

  /** The largest 32-bit id, the default `maxId`. */
  const UInt32Max: nat := 0xFFFF_FFFF

  datatype ItemInfo = ItemInfo(path: SdfPath, children: seq<SdfPath>)

  datatype Table = Table(pathToId: map<SdfPath, nat>, idToItem: map<nat, ItemInfo>, nextId: nat)

  /** What is fixed when a table is built: the root path, the children
      predicate and the id ceiling. */
  datatype Config = Config(root: SdfPath, pred: Predicate, maxId: nat)

  /** `_idToItem[id]`: `std::map::operator[]` yields a default item for a missing id. */
  function ItemAt(t: Table, id: nat): (r: ItemInfo)
    ensures id !in t.idToItem ==> r == ItemInfo(EmptyPath, [])
  {
    if id in t.idToItem then t.idToItem[id] else ItemInfo(EmptyPath, [])
  }

  // ---------------------------------------------------------------- invariants

  /** What every operation keeps, even with the stray id-0 entry that a resync
      of an unregistered parent creates: ids of paths are in [1, nextId) and
      distinct, every stored id is below nextId, and the children listed for a
      registered path are child paths of it. */
  ghost predicate Inv(t: Table)
  {
    1 <= t.nextId
    && EmptyPath !in t.pathToId
    && (forall p :: p in t.pathToId ==> 1 <= t.pathToId[p] < t.nextId)
    && (forall id :: id in t.idToItem ==> id < t.nextId)
    && (forall p, q :: p in t.pathToId && q in t.pathToId && t.pathToId[p] == t.pathToId[q] ==> p == q)
    && (forall p, k :: p in t.pathToId && k in ItemAt(t, t.pathToId[p]).children ==> IsChildOf(k, p))
  }

  /** The two maps agree: `_idToItem[_pathToId[p]].path == p`, and every
      nonzero item id is the id of its path. */
  ghost predicate Wf(t: Table)
  {
    Inv(t)
    && (forall p :: p in t.pathToId ==> t.pathToId[p] in t.idToItem && t.idToItem[t.pathToId[p]].path == p)
    && (forall id :: id in t.idToItem && id != 0 ==>
          t.idToItem[id].path in t.pathToId && t.pathToId[t.idToItem[id].path] == id)
  }

  /** The counter never passes the ceiling by more than the root's own id, so a
      32-bit counter never wraps when the ceiling is a 32-bit value. */
  ghost predicate Bounded(c: Config, t: Table)
  {
    t.nextId <= if c.maxId < 2 then 2 else c.maxId
  }

  /** `r` keeps a subset of `t`'s entries, unchanged, and the same counter. */
  ghost predicate Shrunk(t: Table, r: Table)
  {
    r.pathToId.Keys <= t.pathToId.Keys
    && (forall q :: q in r.pathToId ==> r.pathToId[q] == t.pathToId[q])
    && r.idToItem.Keys <= t.idToItem.Keys
    && (forall id :: id in r.idToItem ==> r.idToItem[id] == t.idToItem[id])
    && r.nextId == t.nextId
  }

  lemma ShrunkInv(t: Table, r: Table)
    requires Inv(t) && Shrunk(t, r)
    ensures Inv(r)
  {
    forall p, k | p in r.pathToId && k in ItemAt(r, r.pathToId[p]).children
      ensures IsChildOf(k, p)
    {
      assert ItemAt(r, r.pathToId[p]) == ItemAt(t, t.pathToId[p]);
    }
  }

  // ---------------------------------------------------------------- registration

  /** `_RegisterPrim`: a path not yet in the table gets the next id and an item
      listing its filtered children; a registered path is left alone. */
  function RegisterOf(c: Config, st: Stage, t: Table, p: SdfPath): (r: Table)
  {
    if p in t.pathToId then t
    else Table(t.pathToId[p := t.nextId],
               t.idToItem[t.nextId := ItemInfo(p, FilteredChildren(c.pred, st, p))],
               t.nextId + 1)
  }

  lemma RegisterKeeps(c: Config, st: Stage, t: Table, p: SdfPath)
    requires StageWf(st) && Inv(t) && p != EmptyPath
    ensures var r := RegisterOf(c, st, t, p);
      Inv(r) && (Wf(t) ==> Wf(r))
      && p in r.pathToId
      && (p in t.pathToId ==> r == t)
      && (p !in t.pathToId ==>
            r.pathToId[p] == t.nextId && r.nextId == t.nextId + 1
            && ItemAt(r, t.nextId) == ItemInfo(p, FilteredChildren(c.pred, st, p)))
      && (forall q :: q in t.pathToId ==> q in r.pathToId && r.pathToId[q] == t.pathToId[q])
      && (forall id :: id in t.idToItem ==> id in r.idToItem && r.idToItem[id] == t.idToItem[id])
  {
    if p !in t.pathToId {
      RegisterInv(c, st, t, p);
      if Wf(t) {
        RegisterWf(c, st, t, p);
      }
    }
  }

  lemma RegisterInv(c: Config, st: Stage, t: Table, p: SdfPath)
    requires StageWf(st) && Inv(t) && p != EmptyPath && p !in t.pathToId
    ensures Inv(RegisterOf(c, st, t, p))
  {
    var r := RegisterOf(c, st, t, p);
    forall q, k | q in r.pathToId && k in ItemAt(r, r.pathToId[q]).children
      ensures IsChildOf(k, q)
    {
      if q != p {
        assert ItemAt(r, r.pathToId[q]) == ItemAt(t, t.pathToId[q]);
      }
    }
  }

  lemma RegisterWf(c: Config, st: Stage, t: Table, p: SdfPath)
    requires StageWf(st) && Wf(t) && p != EmptyPath && p !in t.pathToId
    requires Inv(RegisterOf(c, st, t, p))
    ensures Wf(RegisterOf(c, st, t, p))
  {
  }

  /** The constructor: the counter starts at 1 and the root is registered. */
  function Fresh(c: Config, st: Stage): (r: Table)
  {
    RegisterOf(c, st, Table(map[], map[], 1), c.root)
  }

  lemma FreshTable(c: Config, st: Stage)
    requires StageWf(st) && IsValidPrim(st, c.root)
    ensures var t := Fresh(c, st);
      Wf(t) && Bounded(c, t)
      && t.pathToId == map[c.root := 1]
      && t.idToItem == map[1 := ItemInfo(c.root, FilteredChildren(c.pred, st, c.root))]
      && GetLastId(t) == 1
      && IsRoot(c, t, 1) && GetIdFromPath(t, c.root) == 1
  {
    RegisterKeeps(c, st, Table(map[], map[], 1), c.root);
  }

  // ---------------------------------------------------------------- lookups

  /** `IsRoot`: the id names an item whose path is the root path. */
  predicate IsRoot(c: Config, t: Table, id: nat)
  {
    id in t.idToItem && t.idToItem[id].path == c.root
  }

  predicate ContainsPath(t: Table, p: SdfPath)
  {
    p in t.pathToId
  }

  /** `ContainsId` as the header defines it: true when the id is ABSENT. */
  predicate ContainsIdAsWritten(t: Table, id: nat)
  {
    id !in t.idToItem
  }

  /** `ContainsId` as documented: the id is stored in the table. */
  predicate ContainsId(t: Table, id: nat)
  {
    id in t.idToItem
  }

  /** `GetIdFromPath`: the path's id, or 0 when it is not registered. */
  function GetIdFromPath(t: Table, p: SdfPath): (r: nat)
    ensures Inv(t) ==> (r == 0 <==> p !in t.pathToId)
  {
    if p in t.pathToId then t.pathToId[p] else 0
  }

  /** `GetPathFromId`: the item's path, or the empty path for an unknown id. */
  function GetPathFromId(t: Table, id: nat): (r: SdfPath)
    ensures Wf(t) && id != 0 ==> (r.EmptyPath? <==> id !in t.idToItem)
  {
    if id in t.idToItem then t.idToItem[id].path else EmptyPath
  }

  /** `GetChildCount`: the length of the item's children list, 0 for an unknown id. */
  function GetChildCount(t: Table, id: nat): (r: nat)
    ensures r == |ItemAt(t, id).children|
  {
    if id in t.idToItem then |t.idToItem[id].children| else 0
  }

  /** `GetChildPath`: the `index`th listed child, or the empty path when the id
      is unknown or the index is past the end. */
  function GetChildPath(t: Table, id: nat, index: nat): (r: SdfPath)
    ensures index < GetChildCount(t, id) ==> r in ItemAt(t, id).children
  {
    if id !in t.idToItem then EmptyPath
    else if index >= |t.idToItem[id].children| then EmptyPath
    else t.idToItem[id].children[index]
  }

  /** `GetParentId`: 0 for an unknown id and for the root; otherwise the id of
      the parent path, or 0 when the parent path is not registered. */
  function GetParentId(c: Config, t: Table, id: nat): (r: nat)
  {
    if id !in t.idToItem then 0
    else if t.idToItem[id].path == c.root then 0
    else GetIdFromPath(t, ParentPath(t.idToItem[id].path))
  }

  /** `GetRow`: 0 for an unknown id, the root or a missing parent item;
      otherwise the path's position among its parent's children, which is the
      list length when the path is not listed. */
  function GetRow(c: Config, t: Table, id: nat): (r: nat)
  {
    if id !in t.idToItem then 0
    else
      var parentId := GetParentId(c, t, id);
      var path := GetPathFromId(t, id);
      if path == c.root then 0
      else if parentId !in t.idToItem then 0
      else FindIndex(t.idToItem[parentId].children, path)
  }

  /** `GetLastId`: the id handed out last. */
  function GetLastId(t: Table): (r: int)
    ensures Inv(t) ==> 0 <= r && forall p :: p in t.pathToId ==> t.pathToId[p] <= r
  {
    t.nextId - 1
  }

  lemma IdPathRoundTrip(t: Table, p: SdfPath, id: nat)
    requires Wf(t)
    ensures p in t.pathToId ==> GetPathFromId(t, GetIdFromPath(t, p)) == p
    ensures id != 0 && id in t.idToItem ==> GetIdFromPath(t, GetPathFromId(t, id)) == id
    ensures p !in t.pathToId ==> GetIdFromPath(t, p) == 0
    ensures id !in t.idToItem ==>
              GetPathFromId(t, id) == EmptyPath && GetChildCount(t, id) == 0 && GetChildPath(t, id, 0) == EmptyPath
  {
  }

  lemma ContainsIdSpec(t: Table, id: nat)
    requires Wf(t) && id != 0
    ensures ContainsId(t, id) <==> exists p :: p in t.pathToId && t.pathToId[p] == id
  {
    if ContainsId(t, id) {
      var p := t.idToItem[id].path;
      assert p in t.pathToId && t.pathToId[p] == id;
    }
  }

  /** Finding: the header's `ContainsId` answers false for the root of a new
      table, whose id is stored, and true for the unused id 0. */
  lemma ContainsIdInverted(c: Config, st: Stage)
    requires StageWf(st) && IsValidPrim(st, c.root)
    ensures var t := Fresh(c, st);
      ContainsId(t, 1) && !ContainsIdAsWritten(t, 1)
      && !ContainsId(t, 0) && ContainsIdAsWritten(t, 0)
  {
    FreshTable(c, st);
  }

  lemma ParentIdSpec(c: Config, t: Table, id: nat)
    requires Wf(t) && id in t.idToItem
    ensures IsRoot(c, t, id) ==> GetParentId(c, t, id) == 0
    ensures !IsRoot(c, t, id) && ParentPath(GetPathFromId(t, id)) in t.pathToId ==>
              GetParentId(c, t, id) != 0
              && GetPathFromId(t, GetParentId(c, t, id)) == ParentPath(GetPathFromId(t, id))
    ensures !IsRoot(c, t, id) && ParentPath(GetPathFromId(t, id)) !in t.pathToId ==>
              GetParentId(c, t, id) == 0
  {
  }

  lemma RowSpec(c: Config, t: Table, id: nat)
    requires Wf(t) && id in t.idToItem && id != 0
    ensures IsRoot(c, t, id) ==> GetRow(c, t, id) == 0
    ensures var parentId := GetParentId(c, t, id);
      !IsRoot(c, t, id) && parentId in t.idToItem ==>
        GetRow(c, t, id) <= GetChildCount(t, parentId)
        && (GetPathFromId(t, id) in t.idToItem[parentId].children <==> GetRow(c, t, id) < GetChildCount(t, parentId))
        && (GetRow(c, t, id) < GetChildCount(t, parentId) ==>
              GetChildPath(t, parentId, GetRow(c, t, id)) == GetPathFromId(t, id))
  {
    var parentId := GetParentId(c, t, id);
    if !IsRoot(c, t, id) && parentId in t.idToItem {
      var s := t.idToItem[parentId].children;
      var i := FindIndex(s, GetPathFromId(t, id));
      assert s[..|s|] == s;
    }
  }

  // ---------------------------------------------------------------- RegisterChild

  /** `RegisterChild(id, index)`: registers the `index`th listed child of `id`.
      False for an unknown id, an index past the end, a child that is no longer
      a valid prim, or exhausted ids; true, without a new id, when the child is
      already registered. */
  function RegisterChildOf(c: Config, st: Stage, t: Table, id: nat, index: nat): (r: (Table, bool))
  {
    if id !in t.idToItem then (t, false)
    else if index >= |t.idToItem[id].children| then (t, false)
    else
      var path := t.idToItem[id].children[index];
      if path in t.pathToId then (t, true)
      else if !IsValidPrim(st, path) then (t, false)
      else if t.nextId >= c.maxId then (t, false)
      else (RegisterOf(c, st, t, path), true)
  }

  lemma RegisterChildSpec(c: Config, st: Stage, t: Table, id: nat, index: nat)
    requires StageWf(st) && Inv(t)
    ensures var r := RegisterChildOf(c, st, t, id, index);
      (r.1 <==> index < GetChildCount(t, id)
                && (GetChildPath(t, id, index) in t.pathToId
                    || (IsValidPrim(st, GetChildPath(t, id, index)) && t.nextId < c.maxId)))
      && (r.1 ==> GetChildPath(t, id, index) in r.0.pathToId)
      && (!r.1 || GetChildPath(t, id, index) in t.pathToId ==> r.0 == t)
      && (r.1 && GetChildPath(t, id, index) !in t.pathToId ==>
            r.0.pathToId[GetChildPath(t, id, index)] == t.nextId && r.0.nextId == t.nextId + 1)
      && t.nextId <= r.0.nextId
  {
    var r := RegisterChildOf(c, st, t, id, index);
    if r.1 {
      RegisterKeeps(c, st, t, GetChildPath(t, id, index));
    }
  }

  lemma RegisterChildKeeps(c: Config, st: Stage, t: Table, id: nat, index: nat)
    requires StageWf(st) && Inv(t) && Bounded(c, t)
    ensures var r := RegisterChildOf(c, st, t, id, index).0;
      Inv(r) && (Wf(t) ==> Wf(r)) && Bounded(c, r)
      && (c.maxId <= UInt32Max ==> r.nextId <= UInt32Max)
  {
    var r := RegisterChildOf(c, st, t, id, index);
    if r.1 && r.0 != t {
      RegisterKeeps(c, st, t, GetChildPath(t, id, index));
    }
  }

  // ---------------------------------------------------------------- deletion

  /** Paths that left the table took their ids out of `_idToItem`; paths that
      stayed kept theirs. */
  ghost predicate Pruned(t: Table, r: Table)
  {
    (forall q :: q in t.pathToId && q !in r.pathToId ==> t.pathToId[q] !in r.idToItem)
    && (forall q :: q in r.pathToId && q in t.pathToId && t.pathToId[q] in t.idToItem ==>
          t.pathToId[q] in r.idToItem)
  }

  /** `_DeleteSubtree`: an unregistered path is skipped; a registered path
      leaves `_pathToId`, its listed children are deleted in order, and then its
      id leaves `_idToItem`. */
  function DeleteOf(t: Table, p: SdfPath): (r: Table)
    ensures Shrunk(t, r)
    ensures p !in r.pathToId
    ensures p !in t.pathToId ==> r == t
    decreases |t.pathToId.Keys|, 0
  {
    if p !in t.pathToId then t
    else
      var id := t.pathToId[p];
      var t1 := t.(pathToId := t.pathToId - {p});
      assert t1.pathToId.Keys == t.pathToId.Keys - {p};
      var t2 := DeleteAll(t1, ItemAt(t, id).children);
      t2.(idToItem := t2.idToItem - {id})
  }

  /** The loop over a deleted item's children. */
  function DeleteAll(t: Table, kids: seq<SdfPath>): (r: Table)
    ensures Shrunk(t, r)
    ensures forall k :: k in kids ==> k !in r.pathToId
    decreases |t.pathToId.Keys|, |kids|
  {
    if kids == [] then t
    else
      var t1 := DeleteOf(t, kids[0]);
      SubsetCard(t1.pathToId.Keys, t.pathToId.Keys);
      DeleteAll(t1, kids[1..])
  }

  lemma {:induction false} DeleteOfPruned(t: Table, p: SdfPath)
    requires Inv(t)
    ensures Pruned(t, DeleteOf(t, p))
    decreases |t.pathToId.Keys|, 0
  {
    if p in t.pathToId {
      var id := t.pathToId[p];
      var t1 := t.(pathToId := t.pathToId - {p});
      assert t1.pathToId.Keys == t.pathToId.Keys - {p};
      ShrunkInv(t, t1);
      var kids := ItemAt(t, id).children;
      DeleteAllPruned(t1, kids);
      PrunedWithout(t, DeleteAll(t1, kids), p);
    }
  }

  /** Taking `p`'s id out after pruning what remains without `p` prunes the
      whole table. */
  lemma PrunedWithout(t: Table, t2: Table, p: SdfPath)
    requires Inv(t) && p in t.pathToId
    requires Shrunk(t.(pathToId := t.pathToId - {p}), t2) && Pruned(t.(pathToId := t.pathToId - {p}), t2)
    ensures Pruned(t, t2.(idToItem := t2.idToItem - {t.pathToId[p]}))
  {
    var id := t.pathToId[p];
    var t1 := t.(pathToId := t.pathToId - {p});
    var r := t2.(idToItem := t2.idToItem - {id});
    forall q | q in t.pathToId && q !in r.pathToId
      ensures t.pathToId[q] !in r.idToItem
    {
      if q != p {
        assert q in t1.pathToId && t1.pathToId[q] == t.pathToId[q];
      }
    }
    forall q | q in r.pathToId && q in t.pathToId && t.pathToId[q] in t.idToItem
      ensures t.pathToId[q] in r.idToItem
    {
      assert q in t1.pathToId && q != p;
      assert t.pathToId[q] != id;
    }
  }

  lemma {:induction false} DeleteAllPruned(t: Table, kids: seq<SdfPath>)
    requires Inv(t)
    ensures Pruned(t, DeleteAll(t, kids))
    decreases |t.pathToId.Keys|, |kids|
  {
    if kids != [] {
      var t1 := DeleteOf(t, kids[0]);
      DeleteOfPruned(t, kids[0]);
      SubsetCard(t1.pathToId.Keys, t.pathToId.Keys);
      ShrunkInv(t, t1);
      DeleteAllPruned(t1, kids[1..]);
    }
  }

  /** Every path that left the table had all its children, as listed in `t`,
      leave too. */
  ghost predicate ChildrenGone(t: Table, r: Table)
  {
    forall q, k :: q in t.pathToId && q !in r.pathToId && k in ItemAt(t, t.pathToId[q]).children ==>
      k !in r.pathToId
  }

  /** Only `p` and its descendants left the table. */
  ghost predicate OnlyUnder(t: Table, r: Table, p: SdfPath)
  {
    forall q :: q in t.pathToId && q !in r.pathToId ==> HasPrefix(q, p)
  }

  lemma {:induction false} DeleteOfChildrenGone(t: Table, p: SdfPath)
    requires Inv(t)
    ensures ChildrenGone(t, DeleteOf(t, p))
    decreases |t.pathToId.Keys|, 0
  {
    if p in t.pathToId {
      var id := t.pathToId[p];
      var t1 := t.(pathToId := t.pathToId - {p});
      assert t1.pathToId.Keys == t.pathToId.Keys - {p};
      ShrunkInv(t, t1);
      DeleteAllChildrenGone(t1, ItemAt(t, id).children);
      var r := DeleteOf(t, p);
      forall q, k | q in t.pathToId && q !in r.pathToId && k in ItemAt(t, t.pathToId[q]).children
        ensures k !in r.pathToId
      {
        if q != p {
          assert ItemAt(t1, t1.pathToId[q]) == ItemAt(t, t.pathToId[q]);
        }
      }
    }
  }

  lemma {:induction false} DeleteAllChildrenGone(t: Table, kids: seq<SdfPath>)
    requires Inv(t)
    ensures ChildrenGone(t, DeleteAll(t, kids))
    decreases |t.pathToId.Keys|, |kids|
  {
    if kids != [] {
      var t1 := DeleteOf(t, kids[0]);
      DeleteOfChildrenGone(t, kids[0]);
      DeleteOfPruned(t, kids[0]);
      SubsetCard(t1.pathToId.Keys, t.pathToId.Keys);
      ShrunkInv(t, t1);
      var r := DeleteAll(t1, kids[1..]);
      DeleteAllChildrenGone(t1, kids[1..]);
      forall q, k | q in t.pathToId && q !in r.pathToId && k in ItemAt(t, t.pathToId[q]).children
        ensures k !in r.pathToId
      {
        if q in t1.pathToId {
          assert ItemAt(t1, t1.pathToId[q]) == ItemAt(t, t.pathToId[q]);
        }
      }
    }
  }

  lemma {:induction false} DeleteOfOnlyUnder(t: Table, p: SdfPath)
    requires Inv(t)
    ensures OnlyUnder(t, DeleteOf(t, p), p)
    decreases |t.pathToId.Keys|, 0
  {
    if p in t.pathToId {
      var id := t.pathToId[p];
      var t1 := t.(pathToId := t.pathToId - {p});
      assert t1.pathToId.Keys == t.pathToId.Keys - {p};
      ShrunkInv(t, t1);
      DeleteAllOnlyUnder(t1, ItemAt(t, id).children, p);
    }
  }

  lemma {:induction false} DeleteAllOnlyUnder(t: Table, kids: seq<SdfPath>, p: SdfPath)
    requires Inv(t)
    requires forall k :: k in kids ==> HasPrefix(k, p)
    ensures OnlyUnder(t, DeleteAll(t, kids), p)
    decreases |t.pathToId.Keys|, |kids|
  {
    if kids != [] {
      var t1 := DeleteOf(t, kids[0]);
      DeleteOfOnlyUnder(t, kids[0]);
      SubsetCard(t1.pathToId.Keys, t.pathToId.Keys);
      ShrunkInv(t, t1);
      var r := DeleteAll(t1, kids[1..]);
      DeleteAllOnlyUnder(t1, kids[1..], p);
      forall q | q in t.pathToId && q !in r.pathToId
        ensures HasPrefix(q, p)
      {
        if q !in t1.pathToId {
          HasPrefixTransitive(q, kids[0], p);
        }
      }
    }
  }

  lemma DeleteKeeps(t: Table, p: SdfPath)
    requires Inv(t)
    ensures var r := DeleteOf(t, p);
      Inv(r) && (Wf(t) ==> Wf(r)) && ChildrenGone(t, r) && OnlyUnder(t, r, p)
      && (p in t.pathToId ==> t.pathToId[p] !in r.idToItem) && Pruned(t, r)
  {
    var r := DeleteOf(t, p);
    ShrunkInv(t, r);
    DeleteOfChildrenGone(t, p);
    DeleteOfOnlyUnder(t, p);
    DeleteOfPruned(t, p);
  }

  // ---------------------------------------------------------------- invalidation

  /** The registered paths at or below `p`: what invalidation recurses on. */
  ghost function Desc(t: Table, p: SdfPath): set<SdfPath>
  {
    set q | q in t.pathToId && HasPrefix(q, p)
  }

  lemma DescShrinks(t: Table, p: SdfPath, k: SdfPath)
    requires p in t.pathToId && IsChildOf(k, p)
    ensures |Desc(t, k)| < |Desc(t, p)|
  {
    var a, b := Desc(t, k), Desc(t, p);
    forall q | q in a ensures q in b {
      HasPrefixTransitive(q, k, p);
    }
    assert b == a + (b - a);
    assert p in b - a;
  }

  /** The changes from `t` to `r` stay inside `p`'s subtree: registrations
      only disappear, only at or below `p`, and every item outside the subtree
      is untouched. */
  ghost predicate ConfinedTo(t: Table, r: Table, p: SdfPath)
  {
    r.pathToId.Keys <= t.pathToId.Keys
    && (forall q :: q in r.pathToId ==> r.pathToId[q] == t.pathToId[q])
    && OnlyUnder(t, r, p)
    && (forall q :: q in r.pathToId && !HasPrefix(q, p) ==> ItemAt(r, r.pathToId[q]) == ItemAt(t, t.pathToId[q]))
    && r.nextId == t.nextId
  }

  lemma ConfinedWiden(t: Table, r: Table, k: SdfPath, p: SdfPath)
    requires ConfinedTo(t, r, k) && HasPrefix(k, p)
    ensures ConfinedTo(t, r, p)
  {
    forall q | q in t.pathToId && q !in r.pathToId ensures HasPrefix(q, p) {
      HasPrefixTransitive(q, k, p);
    }
    forall q | q in r.pathToId && !HasPrefix(q, p)
      ensures ItemAt(r, r.pathToId[q]) == ItemAt(t, t.pathToId[q])
    {
      if HasPrefix(q, k) {
        HasPrefixTransitive(q, k, p);
      }
    }
  }

  lemma DeleteConfined(t: Table, p: SdfPath)
    requires Inv(t)
    ensures ConfinedTo(t, DeleteOf(t, p), p)
  {
    DeleteKeeps(t, p);
  }

  lemma ConfinedChain(t: Table, m: Table, r: Table, p: SdfPath)
    requires ConfinedTo(t, m, p) && ConfinedTo(m, r, p)
    ensures ConfinedTo(t, r, p)
  {
  }

  /** The item of `p` now lists `kids`, its path unchanged. */
  function Refresh(t: Table, id: nat, kids: seq<SdfPath>): (r: Table)
  {
    t.(idToItem := t.idToItem[id := ItemInfo(ItemAt(t, id).path, kids)])
  }

  lemma RefreshKeeps(t: Table, p: SdfPath, kids: seq<SdfPath>)
    requires Inv(t) && p in t.pathToId
    requires forall k :: k in kids ==> IsChildOf(k, p)
    ensures var r := Refresh(t, t.pathToId[p], kids);
      Inv(r) && (Wf(t) ==> Wf(r)) && ConfinedTo(t, r, p)
      && ItemAt(r, r.pathToId[p]).children == kids
  {
    var id := t.pathToId[p];
    var r := Refresh(t, id, kids);
    forall q, k | q in r.pathToId && k in ItemAt(r, r.pathToId[q]).children
      ensures IsChildOf(k, q)
    {
      if q != p {
        assert ItemAt(r, r.pathToId[q]) == ItemAt(t, t.pathToId[q]);
      }
    }
    forall q | q in r.pathToId && !HasPrefix(q, p)
      ensures ItemAt(r, r.pathToId[q]) == ItemAt(t, t.pathToId[q])
    {
      assert q != p;
    }
  }

  /** After invalidating `p`: either `p` is gone, or the predicate accepts it and
      its item lists exactly its current filtered children. */
  ghost predicate Refreshed(c: Config, st: Stage, t: Table, p: SdfPath)
  {
    p !in t.pathToId
    || (Accepts(c.pred, st, p) && ItemAt(t, t.pathToId[p]).children == FilteredChildren(c.pred, st, p))
  }

  /** `_InvalidateSubtree`: an unregistered path is skipped. A registered path
      whose prim is still valid and accepted has its old children invalidated
      in order and then re-reads its filtered children; any other registered
      path has its subtree deleted. */
  function InvalidateOf(c: Config, st: Stage, t: Table, p: SdfPath): (r: Table)
    requires StageWf(st) && Inv(t)
    ensures Inv(r) && (Wf(t) ==> Wf(r)) && ConfinedTo(t, r, p)
    ensures Refreshed(c, st, r, p)
    ensures p in t.pathToId && Accepts(c.pred, st, p) ==> p in r.pathToId
    ensures p !in t.pathToId ==> r == t
    decreases |Desc(t, p)|, 1, 0
  {
    if p !in t.pathToId then t
    else if IsValidPrim(st, p) && Accepts(c.pred, st, p) then
      var id := t.pathToId[p];
      var t1 := InvalidateAll(c, st, t, p, ItemAt(t, id).children);
      RefreshKeeps(t1, p, FilteredChildren(c.pred, st, p));
      ConfinedChain(t, t1, Refresh(t1, id, FilteredChildren(c.pred, st, p)), p);
      Refresh(t1, id, FilteredChildren(c.pred, st, p))
    else
      DeleteKeeps(t, p);
      DeleteConfined(t, p);
      DeleteOf(t, p)
  }

  /** The loop over a kept item's old children. */
  function InvalidateAll(c: Config, st: Stage, t: Table, p: SdfPath, kids: seq<SdfPath>): (r: Table)
    requires StageWf(st) && Inv(t)
    requires p in t.pathToId
    requires forall k :: k in kids ==> IsChildOf(k, p)
    ensures Inv(r) && (Wf(t) ==> Wf(r)) && ConfinedTo(t, r, p)
    ensures p in r.pathToId && ItemAt(r, r.pathToId[p]) == ItemAt(t, t.pathToId[p])
    decreases |Desc(t, p)|, 0, |kids|
  {
    if kids == [] then t
    else
      DescShrinks(t, p, kids[0]);
      var t1 := InvalidateOf(c, st, t, kids[0]);
      ConfinedWiden(t, t1, kids[0], p);
      SubsetCard(Desc(t1, p), Desc(t, p));
      var r := InvalidateAll(c, st, t1, p, kids[1..]);
      ConfinedChain(t, t1, r, p);
      r
  }

  /** The last loop of `ResyncSubtrees`: each path invalidated in turn. */
  function InvalidateEach(c: Config, st: Stage, t: Table, ps: seq<SdfPath>): (r: Table)
    requires StageWf(st) && Inv(t)
    ensures Inv(r) && (Wf(t) ==> Wf(r))
    ensures r.pathToId.Keys <= t.pathToId.Keys && r.nextId == t.nextId
    decreases |ps|
  {
    if ps == [] then t else InvalidateEach(c, st, InvalidateOf(c, st, t, ps[0]), ps[1..])
  }

  /** Invalidating `q` keeps `p` refreshed unless `q` is a proper ancestor of `p`. */
  lemma RefreshedStays(c: Config, st: Stage, t: Table, q: SdfPath, p: SdfPath)
    requires StageWf(st) && Inv(t) && Refreshed(c, st, t, p)
    requires !(HasPrefix(p, q) && p != q)
    ensures Refreshed(c, st, InvalidateOf(c, st, t, q), p)
  {
  }

  lemma {:induction false} InvalidateEachKeeps(c: Config, st: Stage, t: Table, ps: seq<SdfPath>, p: SdfPath)
    requires StageWf(st) && Inv(t) && Refreshed(c, st, t, p)
    requires forall q :: q in ps ==> !(HasPrefix(p, q) && p != q)
    ensures Refreshed(c, st, InvalidateEach(c, st, t, ps), p)
    decreases |ps|
  {
    if ps != [] {
      RefreshedStays(c, st, t, ps[0], p);
      InvalidateEachKeeps(c, st, InvalidateOf(c, st, t, ps[0]), ps[1..], p);
    }
  }

  /** Invalidating a sorted list of paths leaves every one of them refreshed:
      ancestors come first, and invalidating a path never disturbs the item of
      a path outside its subtree. */
  lemma {:induction false} InvalidateEachRefreshes(c: Config, st: Stage, t: Table, ps: seq<SdfPath>)
    requires StageWf(st) && Inv(t) && Sorted(ps)
    ensures forall p :: p in ps ==> Refreshed(c, st, InvalidateEach(c, st, t, ps), p)
    decreases |ps|
  {
    if ps != [] {
      var t1 := InvalidateOf(c, st, t, ps[0]);
      assert Sorted(ps[1..]);
      InvalidateEachRefreshes(c, st, t1, ps[1..]);
      forall q | q in ps[1..] ensures !(HasPrefix(ps[0], q) && ps[0] != q) {
        var j :| 0 <= j < |ps[1..]| && ps[1..][j] == q;
        assert !PathLess(ps[j + 1], ps[0]);
        if HasPrefix(ps[0], q) && ps[0] != q {
          AncestorFirst(ps[0], q);
        }
      }
      InvalidateEachKeeps(c, st, t1, ps[1..], ps[0]);
    }
  }

  /** Invalidating paths none of which is at or above `q` leaves `q`
      registered under the same id with the same item. */
  lemma {:induction false} InvalidateEachOutside(c: Config, st: Stage, t: Table, ps: seq<SdfPath>, q: SdfPath)
    requires StageWf(st) && Inv(t) && q in t.pathToId
    requires forall p :: p in ps ==> !HasPrefix(q, p)
    ensures var r := InvalidateEach(c, st, t, ps);
      q in r.pathToId && r.pathToId[q] == t.pathToId[q] && ItemAt(r, r.pathToId[q]) == ItemAt(t, t.pathToId[q])
    decreases |ps|
  {
    if ps != [] {
      InvalidateEachOutside(c, st, InvalidateOf(c, st, t, ps[0]), ps[1..], q);
    }
  }

  // ---------------------------------------------------------------- resync

  /** One parent's pass over its filtered children during resync: the children
      it listed before or that are being resynced are kept, in stage order; the
      others are new to the table and are reported out of sync. */
  function KeptChildren(filtered: seq<SdfPath>, originals: seq<SdfPath>, resync: seq<SdfPath>): (r: (seq<SdfPath>, set<SdfPath>))
    ensures forall x :: x in r.0 <==> x in filtered && (x in originals || x in resync)
    ensures forall x :: x in r.1 <==> x in filtered && x !in originals && x !in resync
    ensures |r.0| <= |filtered|
  {
    if filtered == [] then ([], {})
    else
      var rest := KeptChildren(filtered[1..], originals, resync);
      if filtered[0] in originals || filtered[0] in resync then ([filtered[0]] + rest.0, rest.1)
      else (rest.0, {filtered[0]} + rest.1)
  }

  /** The children the table and the stage disagree about, leaving out the
      paths being resynced: what one parent's update reports. */
  ghost function Disagreeing(filtered: seq<SdfPath>, originals: seq<SdfPath>, resync: seq<SdfPath>): set<SdfPath>
  {
    (set x | x in filtered && x !in originals && x !in resync)
    + (set x | x in originals && x !in filtered && x !in resync)
  }

  /** The body of the parent loop of `ResyncSubtrees` for one parent. The
      parent's id is looked up with `GetIdFromPath`, so an unregistered parent
      reads and writes the entry under id 0 that indexing the item map creates. */
  function UpdateParent(c: Config, st: Stage, t: Table, parent: SdfPath, resync: seq<SdfPath>): (r: (Table, set<SdfPath>))
    ensures r.0.pathToId == t.pathToId && r.0.nextId == t.nextId
    ensures r.1 == Disagreeing(FilteredChildren(c.pred, st, parent), ItemAt(t, GetIdFromPath(t, parent)).children, resync)
  {
    var pid := GetIdFromPath(t, parent);
    var info := ItemAt(t, pid);
    var kept := KeptChildren(FilteredChildren(c.pred, st, parent), info.children, resync);
    var lost := set x | x in info.children && x !in kept.0 && x !in resync;
    (t.(idToItem := t.idToItem[pid := ItemInfo(info.path, kept.0)]), kept.1 + lost)
  }

  lemma UpdateParentKeeps(c: Config, st: Stage, t: Table, parent: SdfPath, resync: seq<SdfPath>)
    requires StageWf(st) && Inv(t)
    ensures var r := UpdateParent(c, st, t, parent, resync).0;
      Inv(r) && (Wf(t) ==> Wf(r))
      && (forall id :: id != GetIdFromPath(t, parent) ==> ItemAt(r, id) == ItemAt(t, id))
      && (parent in t.pathToId ==>
            ItemAt(r, t.pathToId[parent]).children
            == KeptChildren(FilteredChildren(c.pred, st, parent), ItemAt(t, t.pathToId[parent]).children, resync).0)
  {
    var pid := GetIdFromPath(t, parent);
    var r := UpdateParent(c, st, t, parent, resync).0;
    forall q, k | q in r.pathToId && k in ItemAt(r, r.pathToId[q]).children
      ensures IsChildOf(k, q)
    {
      if r.pathToId[q] != pid {
        assert ItemAt(r, r.pathToId[q]) == ItemAt(t, t.pathToId[q]);
      } else {
        assert q == parent;
      }
    }
  }

  /** The parent loop of `ResyncSubtrees`, over the parents in ascending order;
      the reports are collected into one set. */
  function UpdateParents(c: Config, st: Stage, t: Table, parents: seq<SdfPath>, resync: seq<SdfPath>): (r: (Table, set<SdfPath>))
    ensures r.0.pathToId == t.pathToId && r.0.nextId == t.nextId
    ensures forall x :: x in r.1 ==> x !in resync
    decreases |parents|
  {
    if parents == [] then (t, {})
    else
      var u := UpdateParent(c, st, t, parents[0], resync);
      var rest := UpdateParents(c, st, u.0, parents[1..], resync);
      (rest.0, u.1 + rest.1)
  }

  /** One parent of the sequence, from position `i`. */
  lemma UpdateParentsStep(c: Config, st: Stage, t: Table, parents: seq<SdfPath>, i: nat, resync: seq<SdfPath>)
    requires i < |parents|
    ensures var u := UpdateParent(c, st, t, parents[i], resync);
      var rest := UpdateParents(c, st, u.0, parents[i + 1..], resync);
      UpdateParents(c, st, t, parents[i..], resync) == (rest.0, u.1 + rest.1)
  {
    assert parents[i..][1..] == parents[i + 1..];
  }

  /** The loop over the parents keeps its invariant across one parent. */
  lemma UpdateParentsAdvance(c: Config, st: Stage, t: Table, t': Table, parents: seq<SdfPath>, i: nat, resync: seq<SdfPath>,
                             acc: set<SdfPath>, reported: set<SdfPath>, updated: (Table, set<SdfPath>))
    requires i < |parents| && (t', reported) == UpdateParent(c, st, t, parents[i], resync)
    requires UpdateParents(c, st, t, parents[i..], resync).0 == updated.0
    requires acc + UpdateParents(c, st, t, parents[i..], resync).1 == updated.1
    ensures UpdateParents(c, st, t', parents[i + 1..], resync).0 == updated.0
    ensures (acc + reported) + UpdateParents(c, st, t', parents[i + 1..], resync).1 == updated.1
  {
    UpdateParentsStep(c, st, t, parents, i, resync);
  }

  lemma {:induction false} UpdateParentsKeeps(c: Config, st: Stage, t: Table, parents: seq<SdfPath>, resync: seq<SdfPath>)
    requires StageWf(st) && Inv(t)
    ensures var r := UpdateParents(c, st, t, parents, resync).0;
      Inv(r) && (Wf(t) ==> Wf(r))
    decreases |parents|
  {
    if parents != [] {
      UpdateParentKeeps(c, st, t, parents[0], resync);
      UpdateParentsKeeps(c, st, UpdateParent(c, st, t, parents[0], resync).0, parents[1..], resync);
    }
  }

  /** The item of a nonzero id that belongs to none of the parents is untouched. */
  lemma {:induction false} UpdateParentsOthers(c: Config, st: Stage, t: Table, parents: seq<SdfPath>, resync: seq<SdfPath>, id: nat)
    requires StageWf(st) && Inv(t) && id != 0
    requires forall P :: P in parents && P in t.pathToId ==> t.pathToId[P] != id
    ensures ItemAt(UpdateParents(c, st, t, parents, resync).0, id) == ItemAt(t, id)
    decreases |parents|
  {
    if parents != [] {
      var u := UpdateParent(c, st, t, parents[0], resync);
      UpdateParentKeeps(c, st, t, parents[0], resync);
      UpdateParentsOthers(c, st, u.0, parents[1..], resync, id);
    }
  }

  /** With distinct parents, every registered parent ends up listing its kept
      children and reports every child the table and the stage disagree about. */
  lemma {:induction false} UpdateParentsChildren(c: Config, st: Stage, t: Table, parents: seq<SdfPath>, resync: seq<SdfPath>)
    requires StageWf(st) && Inv(t) && Distinct(parents)
    ensures var r := UpdateParents(c, st, t, parents, resync);
      forall P :: P in parents && P in t.pathToId ==>
        ItemAt(r.0, t.pathToId[P]).children
        == KeptChildren(FilteredChildren(c.pred, st, P), ItemAt(t, t.pathToId[P]).children, resync).0
        && Disagreeing(FilteredChildren(c.pred, st, P), ItemAt(t, t.pathToId[P]).children, resync) <= r.1
    decreases |parents|
  {
    if parents != [] {
      var P0 := parents[0];
      var u := UpdateParent(c, st, t, P0, resync);
      UpdateParentKeeps(c, st, t, P0, resync);
      DistinctTail(parents);
      UpdateParentsChildren(c, st, u.0, parents[1..], resync);
      if P0 in t.pathToId {
        UpdateParentsOthers(c, st, u.0, parents[1..], resync, t.pathToId[P0]);
      }
      forall P | P in parents[1..] && P in t.pathToId
        ensures ItemAt(u.0, t.pathToId[P]) == ItemAt(t, t.pathToId[P])
      {
        assert P != P0;
      }
    }
  }

  /** `ResyncSubtrees`: sorts the paths, rebuilds the children of each of their
      parents, then invalidates each path in ascending order. The second
      component is the set of out-of-sync paths, whose presence is reported as
      a coding error. */
  function ResyncOf(c: Config, st: Stage, t: Table, paths: seq<SdfPath>): (r: (Table, set<SdfPath>))
    requires StageWf(st) && Inv(t)
  {
    var sorted := SortPaths(paths);
    var u := UpdateParents(c, st, t, UniqueParents(sorted), sorted);
    UpdateParentsKeeps(c, st, t, UniqueParents(sorted), sorted);
    (InvalidateEach(c, st, u.0, sorted), u.1)
  }

  /** After a resync, every resynced path is either gone or accepted and
      listing its current filtered children; a registered parent outside every
      resynced subtree lists its kept children; no resynced path is reported
      out of sync; and the table invariants hold. */
  lemma ResyncSpec(c: Config, st: Stage, t: Table, paths: seq<SdfPath>)
    requires StageWf(st) && Inv(t)
    ensures var r := ResyncOf(c, st, t, paths);
      Inv(r.0) && (Wf(t) ==> Wf(r.0))
      && r.0.pathToId.Keys <= t.pathToId.Keys && r.0.nextId == t.nextId
      && (forall p :: p in paths ==> Refreshed(c, st, r.0, p))
      && (forall x :: x in r.1 ==> x !in paths)
      && (forall p :: p in paths && ParentPath(p) in t.pathToId && (forall q :: q in paths ==> !HasPrefix(ParentPath(p), q)) ==>
            var P := ParentPath(p);
            P in r.0.pathToId && r.0.pathToId[P] == t.pathToId[P]
            && ItemAt(r.0, r.0.pathToId[P]).children
               == KeptChildren(FilteredChildren(c.pred, st, P), ItemAt(t, t.pathToId[P]).children, SortPaths(paths)).0)
  {
    var sorted := SortPaths(paths);
    assert forall x :: x in sorted <==> x in paths by {
      forall x ensures x in sorted <==> x in paths {
        assert x in sorted <==> x in multiset(sorted);
        assert x in paths <==> x in multiset(paths);
      }
    }
    var parents := UniqueParents(sorted);
    UpdateParentsKeeps(c, st, t, parents, sorted);
    UpdateParentsChildren(c, st, t, parents, sorted);
    var u := UpdateParents(c, st, t, parents, sorted);
    InvalidateEachRefreshes(c, st, u.0, sorted);
    forall p | p in paths && ParentPath(p) in t.pathToId && (forall q :: q in paths ==> !HasPrefix(ParentPath(p), q))
      ensures var r := InvalidateEach(c, st, u.0, sorted); var P := ParentPath(p);
        P in r.pathToId && r.pathToId[P] == t.pathToId[P]
        && ItemAt(r, r.pathToId[P]).children
           == KeptChildren(FilteredChildren(c.pred, st, P), ItemAt(t, t.pathToId[P]).children, sorted).0
    {
      assert ParentPath(p) in parents;
      InvalidateEachOutside(c, st, u.0, sorted, ParentPath(p));
    }
  }
}

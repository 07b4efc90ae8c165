// The rest of treemodel's ItemTree and LazyItemTree as functions of the
// dictionaries: the read-only queries, the lookups that go through
// _GetItemChildren (and so may fetch), the breadth-first WalkItems and
// LazyItemTree.ForgetChildren.

module ItemTreeQueries {
  import opened Wrappers
  import opened ItemTreeModel
  import opened ItemTreeRemoval

  // ----- Read-only queries -----

  /** __contains__: whether `item` is in the tree. */
  predicate Contains(t: Tree, item: TreeItem) {
    item in t.p2c
  }

  /** Empty(): only the root is left. */
  predicate Empty(t: Tree) {
    |t.p2c| == 1
  }

  /** ItemCount(): the number of items, the root not counted. */
  function ItemCount(t: Tree): int {
    |t.p2c| - 1
  }

  /** IterItems(): the (key, item) pairs of the key dictionary. */
  function IterItems(t: Tree): set<(Key, TreeItem)> {
    set k | k in t.k2i :: (k, t.k2i[k])
  }

  /**
   * On a tree, the item count is the number of parented items and one less
   * than the number of keys; the tree is empty exactly when the count is 0;
   * and IterItems lists every item once, with its own key.
   */
  lemma ItemCountKeys(root: TreeItem, lazy: bool, t: Tree)
    requires Sound(root, lazy, t)
    ensures ItemCount(t) == |t.c2p| == |t.k2i| - 1
    ensures Empty(t) <==> ItemCount(t) == 0
    ensures forall k, i :: (k, i) in IterItems(t) <==> Contains(t, i) && i.key == k
  {
    var rank :| Wf(root, lazy, t, rank);
    assert t.c2p.Keys == t.p2c.Keys - {root};
    assert |t.c2p.Keys| == |t.p2c.Keys| - 1;
    assert t.k2i.Values == t.p2c.Keys by {
      forall i | i in t.p2c ensures i in t.k2i.Values {
        assert t.k2i[i.key] == i;
      }
    }
    InjectiveCard(t.k2i);
    forall k, i ensures (k, i) in IterItems(t) <==> Contains(t, i) && i.key == k {
      if Contains(t, i) && i.key == k {
        assert k in t.k2i && t.k2i[k] == i;
      }
    }
  }

  /** ItemByKey(key): the item carrying `key`, or ItemLookupError. */
  function ItemByKey(t: Tree, key: Key): Result<TreeItem, TreeError> {
    if key in t.k2i then Success(t.k2i[key]) else Failure(ItemLookupError)
  }

  /** On a tree, ItemByKey finds exactly the item carrying the key, and fails exactly when none does. */
  lemma ItemByKeyFinds(root: TreeItem, lazy: bool, t: Tree, key: Key, i: TreeItem)
    requires Sound(root, lazy, t)
    ensures ItemByKey(t, key) == Success(i) <==> Contains(t, i) && i.key == key
    ensures ItemByKey(t, key) == Failure(ItemLookupError) <==> forall j | Contains(t, j) :: j.key != key
  {
    var rank :| Wf(root, lazy, t, rank);
    if key in t.k2i {
      assert Contains(t, t.k2i[key]);
    }
  }

  /** Parent(item): ValueError for the root, ItemLookupError for an item with no parent. */
  function Parent(root: TreeItem, t: Tree, item: TreeItem): Result<TreeItem, TreeError> {
    if item == root then Failure(ValueError)
    else if item in t.c2p then Success(t.c2p[item])
    else Failure(ItemLookupError)
  }

  /**
   * On a tree, Parent(item) is the one item listing `item` among its
   * children; the root has none and an item not in the tree has no parent.
   */
  lemma ParentSpec(root: TreeItem, lazy: bool, t: Tree, item: TreeItem, p: TreeItem)
    requires Sound(root, lazy, t)
    ensures Parent(root, t, item) == Success(p) <==> item != root && Contains(t, p) && item in KidsIn(t.p2c, p)
    ensures Parent(root, t, root) == Failure(ValueError)
    ensures !Contains(t, item) ==> Parent(root, t, item) == Failure(ItemLookupError)
  {
    var rank :| Wf(root, lazy, t, rank);
  }

  // ----- Lookups through _GetItemChildren -----

  /** `parent`, or the root when it is None. */
  function OrRoot(c: Config, parent: Option<TreeItem>): TreeItem {
    if parent.Some? then parent.value else c.root
  }

  /** ChildCount(parent) / Children(parent): the children of `parent` (the root by default), looked up. */
  function ChildrenUnder(c: Config, t: Tree, parent: Option<TreeItem>): (Tree, Result<seq<TreeItem>, TreeError>) {
    ChildrenOf(c, t, OrRoot(c, parent))
  }

  /** ChildCount(parent): the number of children of `parent` (the root by default), looked up. */
  function ChildCountOf(c: Config, t: Tree, parent: Option<TreeItem>): (Tree, Result<int, TreeError>) {
    var p := ChildrenUnder(c, t, parent);
    (p.0, if p.1.Failure? then Failure(p.1.error) else Success(|p.1.value|))
  }

  /** Python's `list[row]`: a negative row counts from the end; IndexError out of range. */
  function PyIndex(s: seq<TreeItem>, row: int): Result<TreeItem, TreeError> {
    if 0 <= row < |s| then Success(s[row])
    else if -|s| <= row < 0 then Success(s[|s| + row])
    else Failure(IndexError)
  }

  /** Python's `list.index(x)`: the first position of `x`, or ValueError. */
  function IndexOf(s: seq<TreeItem>, x: TreeItem): (r: Result<int, TreeError>)
    ensures r.Success? <==> x in s
    ensures r.Failure? ==> r.error == ValueError
    ensures r.Success? ==> 0 <= r.value < |s| && s[r.value] == x && x !in s[..r.value]
    decreases |s|
  {
    if s == [] then Failure(ValueError)
    else if s[0] == x then Success(0)
    else match IndexOf(s[1..], x)
      case Failure(e) => Failure(e)
      case Success(i) =>
        assert s[..i + 1] == [s[0]] + s[1..][..i];
        Success(i + 1)
  }

  /** A row and the same row counted from the end index the same child; rows out of range raise IndexError. */
  lemma PyIndexSpec(s: seq<TreeItem>, row: int)
    ensures PyIndex(s, row).Success? <==> -|s| <= row < |s|
    ensures 0 <= row < |s| ==> PyIndex(s, row) == PyIndex(s, row - |s|) == Success(s[row])
    ensures !(-|s| <= row < |s|) ==> PyIndex(s, row) == Failure(IndexError)
  {
  }

  /** ChildAtRow(parent, row): the parent's children looked up, then indexed as a Python list. */
  function ChildAtRowOf(c: Config, t: Tree, parent: TreeItem, row: int): (Tree, Result<TreeItem, TreeError>) {
    var p := ChildrenOf(c, t, parent);
    (p.0, if p.1.Failure? then Failure(p.1.error) else PyIndex(p.1.value, row))
  }

  /**
   * ChildCount and ChildAtRow agree: both leave the same dictionaries, and
   * ChildAtRow finds a child exactly at the rows from -count to count - 1,
   * raising IndexError elsewhere and the lookup's error when ChildCount
   * raises one.
   */
  lemma ChildCountRows(c: Config, t: Tree, p: TreeItem, row: int)
    ensures var n, a := ChildCountOf(c, t, Some(p)), ChildAtRowOf(c, t, p, row);
      && a.0 == n.0
      && (n.1.Failure? ==> a.1 == Failure(n.1.error))
      && (n.1.Success? ==> (a.1.Success? <==> -n.1.value <= row < n.1.value))
      && (n.1.Success? && !(-n.1.value <= row < n.1.value) ==> a.1 == Failure(IndexError))
  {
    var q := ChildrenOf(c, t, p);
    if q.1.Success? {
      PyIndexSpec(q.1.value, row);
    }
  }

  /** RowIndex(item): ItemLookupError without a parent, else the position of `item` in its parent's children. */
  function RowIndexOf(c: Config, t: Tree, item: TreeItem): (Tree, Result<int, TreeError>) {
    if item !in t.c2p then (t, Failure(ItemLookupError))
    else
      var p := ChildrenOf(c, t, t.c2p[item]);
      (p.0, if p.1.Failure? then Failure(p.1.error) else IndexOf(p.1.value, item))
  }

  /**
   * On a tree, RowIndex and ChildAtRow are inverse: RowIndex of an item
   * changes nothing and finds a row of its parent, and ChildAtRow of the
   * parent at that row is the item again.  An item without a parent has no
   * row.
   */
  lemma RowIndexRoundTrip(c: Config, t: Tree, item: TreeItem)
    requires Sound(c.root, c.lazy, t)
    ensures item !in t.c2p ==> RowIndexOf(c, t, item) == (t, Failure(ItemLookupError))
    ensures item in t.c2p ==>
      var r := RowIndexOf(c, t, item);
      && r.0 == t && r.1.Success?
      && 0 <= r.1.value < |KidsIn(t.p2c, t.c2p[item])|
      && ChildAtRowOf(c, t, t.c2p[item], r.1.value) == (t, Success(item))
  {
    var rank :| Wf(c.root, c.lazy, t, rank);
    if item in t.c2p {
      var p := t.c2p[item];
      assert item in KidsIn(t.p2c, p);
      assert t.p2c[p].Some?;
    }
  }

  // ----- WalkItems -----

  /**
   * What drawing from the WalkItems generator gives: the dictionaries
   * afterwards (looking children up may fetch), the items yielded, and the
   * error raised, if any, after them.
   */
  datatype Walked = Walked(tree: Tree, items: seq<TreeItem>, error: Option<TreeError>)

  /**
   * The generator's loop on the queue `queue`, for at most `limit` more
   * items: the head's children are looked up and queued before the head is
   * yielded.
   */
  function Walk(c: Config, t: Tree, queue: seq<TreeItem>, limit: nat): Walked
    decreases limit
  {
    if limit == 0 || queue == [] then Walked(t, [], None)
    else
      var p := ChildrenOf(c, t, queue[0]);
      if p.1.Failure? then Walked(p.0, [], Some(p.1.error))
      else
        var w := Walk(c, p.0, queue[1..] + p.1.value, limit - 1);
        w.(items := [queue[0]] + w.items)
  }

  /**
   * WalkItems(startParent), drawn from at most `limit` times: the queue
   * starts as the children of the start (the root by default), looked up
   * at the first draw.
   */
  function WalkItemsOf(c: Config, t: Tree, start: Option<TreeItem>, limit: nat): Walked {
    if limit == 0 then Walked(t, [], None)
    else
      var p := ChildrenUnder(c, t, start);
      if p.1.Failure? then Walked(p.0, [], Some(p.1.error))
      else Walk(c, p.0, p.1.value, limit)
  }

  /** Every one of `zs` hangs from `start` or from an item of `ys`. */
  ghost predicate HangFrom(t: Tree, start: TreeItem, ys: seq<TreeItem>, zs: seq<TreeItem>) {
    forall z | z in zs :: z in t.c2p && (t.c2p[z] == start || t.c2p[z] in ys)
  }

  /** Each item of `ys` hangs from `start` or from an item yielded before it. */
  ghost predicate ParentsFirst(t: Tree, start: TreeItem, ys: seq<TreeItem>) {
    forall i | 0 <= i < |ys| :: ys[i] in t.c2p && (t.c2p[ys[i]] == start || t.c2p[ys[i]] in ys[..i])
  }

  /** A list without repeats splits into two lists without repeats and without common items. */
  lemma DistinctSplit(s: seq<TreeItem>, u: seq<TreeItem>)
    requires Distinct(s + u)
    ensures Distinct(s) && Distinct(u) && forall x | x in u :: x !in s
  {
    forall i, j | 0 <= i < |s| && 0 <= j < |u| ensures s[i] != u[j] {
      assert (s + u)[i] == s[i] && (s + u)[|s| + j] == u[j];
    }
    forall i, j | 0 <= i < j < |u| ensures u[i] != u[j] {
      assert (s + u)[|s| + i] == u[i] && (s + u)[|s| + j] == u[j];
    }
    forall i, j | 0 <= i < j < |s| ensures s[i] != s[j] {
      assert (s + u)[i] == s[i] && (s + u)[j] == s[j];
    }
  }

  /** Appending distinct new items to a list without repeats keeps it without repeats. */
  lemma DistinctAppend(s: seq<TreeItem>, u: seq<TreeItem>)
    requires Distinct(s) && Distinct(u) && forall x | x in u :: x !in s
    ensures Distinct(s + u)
  {
    forall i, j | 0 <= i < j < |s + u| ensures (s + u)[i] != (s + u)[j] {
      if i < |s| && j >= |s| {
        assert (s + u)[j] in u;
      }
    }
  }

  /** The head of the queue is not yet yielded, and its children are neither yielded nor queued. */
  lemma WalkFresh(root: TreeItem, lazy: bool, t: Tree, rank: map<TreeItem, nat>, start: TreeItem,
                  ys: seq<TreeItem>, queue: seq<TreeItem>)
    requires Wf(root, lazy, t, rank) && start in t.p2c && queue != []
    requires Distinct(ys + queue) && HangFrom(t, start, ys, ys + queue)
    requires forall z | z in ys + queue :: rank[z] > rank[start]
    ensures queue[0] !in ys && queue[0] in t.p2c
    ensures Distinct(KidsIn(t.p2c, queue[0]))
    ensures forall k | k in KidsIn(t.p2c, queue[0]) ::
      k !in ys + queue && k in t.c2p && t.c2p[k] == queue[0] && rank[k] > rank[start]
  {
    var q := queue[0];
    assert q in ys + queue;
    DistinctSplit(ys, queue);
    KidsBelow(root, lazy, t, rank, q);
    forall k | k in KidsIn(t.p2c, q) ensures k !in ys + queue && k in t.c2p && t.c2p[k] == q {
      ListedHasParent(t.p2c, t.c2p, q, k);
    }
  }

  /**
   * One draw of the walk keeps its invariant: the head moves to the yielded
   * items and its children, none of them seen before, join the queue.
   */
  lemma WalkStep(t: Tree, rank: map<TreeItem, nat>, start: TreeItem,
                 ys: seq<TreeItem>, queue: seq<TreeItem>, kids: seq<TreeItem>)
    requires queue != [] && queue[0] !in ys && Distinct(kids) && start in rank
    requires forall k | k in kids :: k !in ys + queue && k in t.c2p && t.c2p[k] == queue[0] && k in rank && rank[k] > rank[start]
    requires Distinct(ys + queue) && HangFrom(t, start, ys, ys + queue) && ParentsFirst(t, start, ys)
    requires forall z | z in ys + queue :: z in rank && rank[z] > rank[start]
    ensures var ys', queue' := ys + [queue[0]], queue[1..] + kids;
      && Distinct(ys' + queue') && HangFrom(t, start, ys', ys' + queue') && ParentsFirst(t, start, ys')
      && (forall z | z in ys' + queue' :: z in rank && rank[z] > rank[start])
  {
    var q := queue[0];
    var ys', queue' := ys + [q], queue[1..] + kids;
    assert ys' + queue' == (ys + queue) + kids by {
      assert queue == [q] + queue[1..];
    }
    DistinctAppend(ys + queue, kids);
    assert ParentsFirst(t, start, ys') by {
      assert ys'[..|ys|] == ys;
      assert q in ys + queue;
    }
  }

  /** Yielding one more item moves it from the front of what follows to the end of what went before. */
  lemma MoveYielded(ys: seq<TreeItem>, q: TreeItem, ws: seq<TreeItem>)
    ensures (ys + [q]) + ws == ys + ([q] + ws)
  {
  }

  /** Without fetching, one draw of the walk yields the head and queues its stored children. */
  lemma WalkUnfold(c: Config, t: Tree, queue: seq<TreeItem>, limit: nat, l: nat)
    requires NoFetch(c) && queue != [] && queue[0] in t.p2c && l + 1 == limit
    ensures var w := Walk(c, t, queue[1..] + KidsIn(t.p2c, queue[0]), l);
      Walk(c, t, queue, limit) == w.(items := [queue[0]] + w.items)
  {
    ChildrenFetchOnce(c, t, queue[0]);
  }

  /**
   * The walk loop on a tree that does not fetch: it changes nothing, raises
   * nothing, yields each item once, and yields every item after its parent
   * (or as a child of the start).
   */
  lemma {:induction false} WalkOrder(c: Config, t: Tree, rank: map<TreeItem, nat>, start: TreeItem,
                                     ys: seq<TreeItem>, queue: seq<TreeItem>, limit: nat)
    requires Wf(c.root, c.lazy, t, rank) && NoFetch(c) && start in t.p2c
    requires Distinct(ys + queue) && HangFrom(t, start, ys, ys + queue) && ParentsFirst(t, start, ys)
    requires forall z | z in ys + queue :: rank[z] > rank[start]
    ensures var w := Walk(c, t, queue, limit);
      && w.tree == t && w.error == None && |w.items| <= limit
      && Distinct(ys + w.items) && ParentsFirst(t, start, ys + w.items)
    decreases limit
  {
    if limit != 0 && queue != [] {
      var q := queue[0];
      WalkFresh(c.root, c.lazy, t, rank, start, ys, queue);
      WalkStep(t, rank, start, ys, queue, KidsIn(t.p2c, q));
      var ys', queue' := ys + [q], queue[1..] + KidsIn(t.p2c, q);
      var l: nat := limit - 1;
      WalkUnfold(c, t, queue, limit, l);
      WalkOrder(c, t, rank, start, ys', queue', l);
      var w := Walk(c, t, queue', l);
      MoveYielded(ys, q, w.items);
    } else {
      DistinctSplit(ys, queue);
      assert ys + [] == ys;
    }
  }

  /**
   * WalkItems on a tree that does not fetch: it changes nothing, raises
   * nothing for an item of the tree, yields at most `limit` distinct items
   * and every item after its parent, the first ones being children of the
   * start.
   */
  lemma WalkItemsOrder(c: Config, t: Tree, start: TreeItem, limit: nat)
    requires Sound(c.root, c.lazy, t) && NoFetch(c) && start in t.p2c
    ensures var w := WalkItemsOf(c, t, Some(start), limit);
      && w.tree == t && w.error == None && |w.items| <= limit
      && Distinct(w.items) && ParentsFirst(t, start, w.items)
  {
    var rank :| Wf(c.root, c.lazy, t, rank);
    if limit != 0 {
      ChildrenFetchOnce(c, t, start);
      var kids := KidsIn(t.p2c, start);
      assert [] + kids == kids;
      assert Distinct(kids) by {
        assert ListsDistinct(t.p2c);
      }
      forall k | k in kids ensures k in t.c2p && t.c2p[k] == start && rank[k] > rank[start] {
        ListedHasParent(t.p2c, t.c2p, start, k);
      }
      WalkOrder(c, t, rank, start, [], kids, limit);
      assert [] + Walk(c, t, kids, limit).items == Walk(c, t, kids, limit).items;
    }
  }

  // ----- LazyItemTree.ForgetChildren -----

  /**
   * ForgetChildren(parent): ValueError for no parent or the root; otherwise,
   * with updates blocked, the parent's stored children (no fetch) are
   * deleted and its entry reset to the unfetched placeholder.  On an error
   * from the removal the entry is left as it is.  `depth` bounds the
   * recursion of the removal.
   */
  function ForgetOf(c: Config, t: Tree, parent: Option<TreeItem>, depth: nat): (Tree, Result<seq<TreeItem>, TreeError>) {
    if parent.None? || parent.value == c.root then (t, Failure(ValueError))
    else if parent.value !in t.p2c then (t, Failure(ItemLookupError))
    else
      var p, kids := parent.value, KidsIn(t.p2c, parent.value);
      var q := if kids == [] then (t, Success([])) else RemoveOf(c.(blockUpdates := true), t, kids, Delete, depth);
      if q.1.Failure? then q else (q.0.(p2c := q.0.p2c[p := None]), q.1)
  }

  /** In a LazyItemTree, a childless item may be reset to the unfetched placeholder. */
  lemma PlaceholderWf(root: TreeItem, t: Tree, rank: map<TreeItem, nat>, p: TreeItem)
    requires Wf(root, true, t, rank) && p in t.p2c && KidsIn(t.p2c, p) == []
    ensures Wf(root, true, t.(p2c := t.p2c[p := None]), rank)
  {
    var t' := t.(p2c := t.p2c[p := None]);
    assert forall q :: KidsIn(t'.p2c, q) == KidsIn(t.p2c, q);
    forall y | y in t'.c2p ensures t'.c2p[y] in t'.p2c && y in KidsIn(t'.p2c, t'.c2p[y]) {
      assert y in KidsIn(t.p2c, t.c2p[y]);
    }
  }

  /** Resetting a parent whose children were deleted below it leaves a tree with the placeholder. */
  lemma ForgetStep(root: TreeItem, t: Tree, t1: Tree, rank: map<TreeItem, nat>, p: TreeItem, removed: seq<TreeItem>)
    requires p in t.c2p && p in rank && Deletes(root, true, t, t1, removed, rank, rank[p] + 1)
    requires Rooted(root, t.p2c, t.c2p)
    requires forall k | k in KidsIn(t.p2c, p) :: k !in t1.p2c
    ensures var t2 := t1.(p2c := t1.p2c[p := None]);
      && Wf(root, true, t2, rank) && p in t2.p2c
      && (forall y :: y in removed <==> y in t.p2c && y !in t2.p2c)
  {
    KidsGone(root, t, t1, rank, p);
    PlaceholderWf(root, t1, rank, p);
  }

  /**
   * ForgetChildren on a LazyItemTree: when it succeeds, the tree is still a
   * tree, the parent stays with the placeholder (so the next lookup fetches
   * again), its former children are gone, and the result lists exactly the
   * items removed.
   */
  lemma ForgetSound(c: Config, t: Tree, rank: map<TreeItem, nat>, p: TreeItem, depth: nat)
    requires c.lazy && Wf(c.root, c.lazy, t, rank) && p in t.p2c && p != c.root
    ensures var f := ForgetOf(c, t, Some(p), depth);
      f.1.Success? ==>
        && Wf(c.root, c.lazy, f.0, rank)
        && p in f.0.p2c && f.0.p2c[p] == None
        && (!c.blockUpdates ==> Fetches(c, f.0, p))
        && (forall k | k in KidsIn(t.p2c, p) :: k !in f.0.p2c)
        && (forall y :: y in f.1.value <==> y in t.p2c && y !in f.0.p2c)
  {
    if KidsIn(t.p2c, p) == [] {
      PlaceholderWf(c.root, t, rank, p);
    } else {
      ForgetRemoves(c, t, rank, p, depth);
    }
  }

  /** ForgetChildren of an item that has children: the removal, then the placeholder. */
  lemma ForgetRemoves(c: Config, t: Tree, rank: map<TreeItem, nat>, p: TreeItem, depth: nat)
    requires c.lazy && Wf(c.root, c.lazy, t, rank) && p in t.p2c && p != c.root && KidsIn(t.p2c, p) != []
    ensures var f := ForgetOf(c, t, Some(p), depth);
      f.1.Success? ==>
        && Wf(c.root, c.lazy, f.0, rank)
        && p in f.0.p2c && f.0.p2c[p] == None
        && (forall k | k in KidsIn(t.p2c, p) :: k !in f.0.p2c)
        && (forall y :: y in f.1.value <==> y in t.p2c && y !in f.0.p2c)
  {
    var kids := KidsIn(t.p2c, p);
    var cb := c.(blockUpdates := true);
    KidsBelow(c.root, c.lazy, t, rank, p);
    RemoveDeleteWf(cb, t, rank, kids, depth, rank[p] + 1);
    var q := RemoveOf(cb, t, kids, Delete, depth);
    assert ForgetOf(c, t, Some(p), depth) == if q.1.Failure? then q else (q.0.(p2c := q.0.p2c[p := None]), q.1);
    if q.1.Success? {
      ForgetStep(c.root, t, q.0, rank, p, q.1.value);
    }
  }
}

// ItemTree.RemoveItems, as a function of the dictionaries: the items are
// made a set without the root, every item's children are looked up first
// (which may fetch in a LazyItemTree), and then each item is removed in
// turn, its children either deleted recursively or handed to the nearest
// ancestor that is not itself being removed.

module ItemTreeRemoval {
  import opened Wrappers
  import opened ItemTreeModel

  /** The child actions RemoveItems accepts. */
  const Delete: string := "delete"
  const Reparent: string := "reparent"

  /**
   * The items of `items` not in `seen`, each once, in order of first
   * occurrence: the set RemoveItems iterates over, in the order the model
   * fixes for it.
   */
  function Unique(items: seq<TreeItem>, seen: set<TreeItem>): (r: seq<TreeItem>)
    ensures Distinct(r)
    ensures forall x :: x in r <==> x in items && x !in seen
    decreases |items|
  {
    if items == [] then []
    else if items[0] in seen then Unique(items[1..], seen)
    else [items[0]] + Unique(items[1..], seen + {items[0]})
  }

  /** list.remove: `s` without its first occurrence of `x`. */
  function Without(s: seq<TreeItem>, x: TreeItem): (r: seq<TreeItem>)
    ensures multiset(r) == multiset(s) - multiset{x}
    decreases |s|
  {
    if s == [] then []
    else
      assert s == [s[0]] + s[1..];
      if s[0] == x then s[1..] else [s[0]] + Without(s[1..], x)
  }

  /** A list without repeats loses exactly `x` and keeps no repeats. */
  lemma {:induction false} WithoutDistinct(s: seq<TreeItem>, x: TreeItem)
    requires Distinct(s)
    ensures Distinct(Without(s, x))
    ensures forall y :: y in Without(s, x) <==> y in s && y != x
    decreases |s|
  {
    if s != [] {
      var tail := s[1..];
      assert s[0] !in tail;
      if s[0] != x {
        WithoutDistinct(tail, x);
        ConsDistinct(s[0], Without(tail, x));
      }
    }
  }

  lemma ConsDistinct(h: TreeItem, r: seq<TreeItem>)
    requires Distinct(r) && h !in r
    ensures Distinct([h] + r)
  {
    var l := [h] + r;
    assert forall i | 1 <= i < |l| :: l[i] == r[i - 1];
  }

  /** Removing `x` keeps every other item of the list. */
  lemma WithoutKeeps(s: seq<TreeItem>, x: TreeItem, y: TreeItem)
    requires y != x
    ensures y in Without(s, x) <==> y in s
  {
    assert y in Without(s, x) <==> y in multiset(Without(s, x));
    assert y in s <==> y in multiset(s);
  }

  /**
   * The removals that end each pass of RemoveItems' loop for `x`: pop its
   * parent (KeyError when it has none), take it off the parent's list, pop
   * its key and drop its own children entry.
   */
  function Unlink(t: Tree, x: TreeItem): (r: Result<Tree, TreeError>)
    ensures r.Success? <==> x in t.c2p
  {
    if x !in t.c2p then Failure(KeyError)
    else
      var parent := t.c2p[x];
      var p2c := if parent in t.p2c then t.p2c[parent := Some(Without(KidsIn(t.p2c, parent), x))] else t.p2c;
      Success(Tree(p2c - {x}, t.c2p - {x}, t.k2i - {x.key}))
  }

  /**
   * RemoveItems' `while newParent in items` climb: the first of `np` and its
   * ancestors outside `items`.  Each item climbed through is dropped from
   * `items`, which changes nothing on a tree, where no item is its own
   * ancestor, and makes the climb end on any dictionaries.
   */
  function Climb(c2p: map<TreeItem, TreeItem>, items: set<TreeItem>, np: TreeItem): Result<TreeItem, TreeError>
    decreases |items|
  {
    if np !in items then Success(np)
    else if np !in c2p then Failure(KeyError)
    else Climb(c2p, items - {np}, c2p[np])
  }

  /**
   * The first pass of RemoveItems: every item's children looked up, in
   * order, stopping at the first error.  An item whose lookup fetched is
   * added to `fetched` with the fetched list, a list the tree does not hold;
   * for any other item the list looked up is the one the tree holds.
   */
  function Prefetch(c: Config, t: Tree, xs: seq<TreeItem>, fetched: map<TreeItem, seq<TreeItem>>)
    : (Tree, map<TreeItem, seq<TreeItem>>, Option<TreeError>)
    decreases |xs|
  {
    if xs == [] then (t, fetched, None)
    else
      var (t1, r) := ChildrenOf(c, t, xs[0]);
      if r.Failure? then (t1, fetched, Some(r.error))
      else Prefetch(c, t1, xs[1..], if Fetches(c, t, xs[0]) then fetched[xs[0] := r.value] else fetched)
  }

  /**
   * Hands `children`, the children of `x`, to `np`: appended to its list and
   * re-parented; `x`'s own list is left as it is.
   */
  function Handed(t: Tree, children: seq<TreeItem>, np: TreeItem): Tree {
    Tree(t.p2c[np := Some(KidsIn(t.p2c, np) + children)], Attach(t.c2p, children, np), t.k2i)
  }

  /**
   * One pass of RemoveItems' loop, for `x`.  Its children are the list the
   * first pass looked up: the fetched list when that lookup fetched, and
   * otherwise the list the tree holds, read as it is now, so it has lost
   * whatever was removed since and it is empty once `x` itself has been
   * deleted as a descendant of an earlier item.  `depth` is the recursion
   * left before Python's recursion limit.
   */
  function ProcessItem(c: Config, t: Tree, x: TreeItem, items: set<TreeItem>, fetched: map<TreeItem, seq<TreeItem>>,
                       action: string, depth: nat)
    : (Tree, Result<seq<TreeItem>, TreeError>)
    decreases depth, 0, 1
  {
    var (t1, r1) := Cleared(c, t, x, items, fetched, action, depth);
    if r1.Failure? then (t1, r1)
    else match Unlink(t1, x)
      case Failure(e) => (t1, Failure(e))
      case Success(t2) => (t2, Success(r1.value + [x]))
  }

  /** The children the pass over `x` works on: the list fetched for it in
      the first pass, or else the list the tree holds now. */
  function LookedUp(t: Tree, x: TreeItem, fetched: map<TreeItem, seq<TreeItem>>): seq<TreeItem> {
    if x in fetched then fetched[x] else KidsIn(t.p2c, x)
  }

  /** The first half of a pass: `x`'s children are deleted (delete mode)
      or handed to its nearest ancestor not being removed (reparent mode). */
  function Cleared(c: Config, t: Tree, x: TreeItem, items: set<TreeItem>, fetched: map<TreeItem, seq<TreeItem>>,
                   action: string, depth: nat)
    : (Tree, Result<seq<TreeItem>, TreeError>)
    decreases depth, 0, 0
  {
    var children := LookedUp(t, x, fetched);
    if children == [] then (t, Success([]))
    else if action == Delete then
      if depth == 0 then (t, Failure(RecursionError)) else RemoveOf(c, t, children, Delete, depth - 1)
    else
      match (if x in t.c2p then Climb(t.c2p, items, t.c2p[x]) else Failure(KeyError))
      case Failure(e) => (t, Failure(e))
      case Success(np) => (Handed(t, children, np), Success([]))
  }

  /** The loop of RemoveItems over `xs`, collecting the removed items; it stops at the first error. */
  function ProcessAll(c: Config, t: Tree, xs: seq<TreeItem>, items: set<TreeItem>, fetched: map<TreeItem, seq<TreeItem>>,
                      action: string, depth: nat)
    : (Tree, Result<seq<TreeItem>, TreeError>)
    decreases depth, 1, |xs|
  {
    if xs == [] then (t, Success([]))
    else
      var (t1, r1) := ProcessItem(c, t, xs[0], items, fetched, action, depth);
      if r1.Failure? then (t1, r1)
      else
        var (t2, r2) := ProcessAll(c, t1, xs[1..], items, fetched, action, depth);
        (t2, if r2.Failure? then r2 else Success(r1.value + r2.value))
  }

  /**
   * RemoveItems(items, action): the dictionaries afterwards and the removed
   * items, or the error raised (after whatever was changed before it).
   */
  function RemoveOf(c: Config, t: Tree, items: seq<TreeItem>, action: string, depth: nat)
    : (r: (Tree, Result<seq<TreeItem>, TreeError>))
    ensures action != Delete && action != Reparent ==> r == (t, Failure(ValueError))
    ensures (action == Delete || action == Reparent) && (forall x | x in items :: x == c.root) ==> r == (t, Success([]))
    decreases depth, 2, 0
  {
    if action != Delete && action != Reparent then (t, Failure(ValueError))
    else
      var xs := Unique(items, {c.root});
      assert xs != [] ==> xs[0] in xs;
      if xs == [] then (t, Success([]))
      else
        var (t1, fetched, e) := Prefetch(c, t, xs, map[]);
        if e.Some? then (t1, Failure(e.value))
        else ProcessAll(c, t1, xs, set x | x in xs :: x, fetched, action, depth)
  }

  // ----- Removal keeps the tree consistent -----

  /** The first pass only fetches in a LazyItemTree whose updates are not blocked. */
  predicate NoFetch(c: Config) {
    !c.lazy || c.blockUpdates
  }

  /** Without fetching, the first pass changes nothing, records no fetched
      list and fails exactly on an item not in the tree. */
  lemma {:induction false} PrefetchNoFetch(c: Config, t: Tree, xs: seq<TreeItem>, fetched: map<TreeItem, seq<TreeItem>>)
    requires NoFetch(c)
    ensures Prefetch(c, t, xs, fetched).0 == t
    ensures Prefetch(c, t, xs, fetched).1 == fetched
    ensures Prefetch(c, t, xs, fetched).2 == if forall x | x in xs :: x in t.p2c then None else Some(ItemLookupError)
    decreases |xs|
  {
    if xs != [] {
      ChildrenFetchOnce(c, t, xs[0]);
      PrefetchNoFetch(c, t, xs[1..], fetched);
      assert forall x | x in xs :: x == xs[0] || x in xs[1..];
    }
  }

  /** A list without repeats, none of them seen, is its own set's iteration order. */
  lemma {:induction false} UniqueOf(s: seq<TreeItem>, seen: set<TreeItem>)
    requires Distinct(s) && forall x | x in s :: x !in seen
    ensures Unique(s, seen) == s
    decreases |s|
  {
    if s != [] {
      assert s[0] !in s[1..];
      UniqueOf(s[1..], seen + {s[0]});
    }
  }

  /**
   * On a tree the climb from `y` ends outside `items`, on a tree item no
   * deeper than `y`: the items it has climbed through (`items - rem`) all
   * lie below where it stands, so it never meets them again.
   */
  lemma {:induction false} ClimbOnTree(root: TreeItem, lazy: bool, t: Tree, rank: map<TreeItem, nat>,
                                       items: set<TreeItem>, rem: set<TreeItem>, y: TreeItem)
    requires Wf(root, lazy, t, rank) && root !in items && rem <= items && y in t.p2c
    requires forall z | z in items - rem :: z in rank && rank[z] > rank[y]
    ensures var r := Climb(t.c2p, rem, y);
      r.Success? && r.value !in items && r.value in t.p2c && rank[r.value] <= rank[y]
    decreases |rem|
  {
    if y in rem {
      assert y in t.c2p;
      var y' := t.c2p[y];
      assert rank[y'] < rank[y];
      ClimbOnTree(root, lazy, t, rank, items, rem - {y}, y');
    }
  }

  /** Unlink's dictionaries, entry by entry. */
  lemma UnlinkShape(t: Tree, x: TreeItem)
    requires x in t.c2p && t.c2p[x] in t.p2c && t.c2p[x] != x
    ensures var t', q := Unlink(t, x).value, t.c2p[x];
      && q in t'.p2c && t'.p2c[q].Some?
      && t'.p2c.Keys == t.p2c.Keys - {x}
      && t'.c2p == t.c2p - {x}
      && t'.k2i == t.k2i - {x.key}
      && (forall y | y in t'.p2c && y != q :: t'.p2c[y] == t.p2c[y])
      && KidsIn(t'.p2c, q) == Without(KidsIn(t.p2c, q), x)
  {
    var q := t.c2p[x];
    var kids := Without(KidsIn(t.p2c, q), x);
    var m := t.p2c[q := Some(kids)];
    assert Unlink(t, x).value.p2c == m - {x};
    assert (m - {x})[q] == Some(kids);
  }

  /**
   * A tree in which no item names `x` as its parent and which is consistent
   * except that `x`'s own list may still name items: what each pass of
   * RemoveItems' loop leaves just before unlinking `x`.
   */
  ghost predicate Detachable(root: TreeItem, lazy: bool, t: Tree, rank: map<TreeItem, nat>, x: TreeItem) {
    && Rooted(root, t.p2c, t.c2p) && ParentsList(t.p2c, t.c2p) && Keyed(t.p2c, t.k2i) && Ranked(lazy, t.p2c, t.c2p, rank)
    && (forall p, c | p in t.p2c && p != x && c in KidsIn(t.p2c, p) :: c in t.c2p && t.c2p[c] == p)
    && (forall p | p in t.p2c && p != x :: Distinct(KidsIn(t.p2c, p)))
    && x in t.c2p && (forall c | c in t.c2p :: t.c2p[c] != x)
  }

  /** `t'` is `t` with `x` taken out of its parent `q`'s list and out of the tree. */
  ghost predicate Unlinked(t: Tree, t': Tree, x: TreeItem, q: TreeItem) {
    && x in t.c2p && q == t.c2p[x] && q in t.p2c && q != x && q in t'.p2c && t'.p2c[q].Some?
    && t'.p2c.Keys == t.p2c.Keys - {x}
    && t'.c2p == t.c2p - {x}
    && t'.k2i == t.k2i - {x.key}
    && (forall y | y in t'.p2c && y != q :: t'.p2c[y] == t.p2c[y])
    && (forall y :: y in KidsIn(t'.p2c, q) <==> y in KidsIn(t.p2c, q) && y != x)
    && Distinct(KidsIn(t'.p2c, q))
  }

  /** Unlinking an item whose parent lists no child twice. */
  lemma UnlinkIsUnlinked(t: Tree, x: TreeItem)
    requires x in t.c2p && t.c2p[x] in t.p2c && t.c2p[x] != x && Distinct(KidsIn(t.p2c, t.c2p[x]))
    ensures Unlinked(t, Unlink(t, x).value, x, t.c2p[x])
  {
    UnlinkShape(t, x);
    WithoutDistinct(KidsIn(t.p2c, t.c2p[x]), x);
  }

  /** After unlinking an item no one names as parent, every remaining item's parent still lists it. */
  lemma UnlinkedParentsList(t: Tree, t': Tree, x: TreeItem, q: TreeItem)
    requires ParentsList(t.p2c, t.c2p) && forall c | c in t.c2p :: t.c2p[c] != x
    requires Unlinked(t, t', x, q)
    ensures ParentsList(t'.p2c, t'.c2p)
  {
    forall c | c in t'.c2p ensures t'.c2p[c] in t'.p2c && c in KidsIn(t'.p2c, t'.c2p[c]) {
      var p := t.c2p[c];
      assert c in KidsIn(t.p2c, p);
      if p != q {
        assert KidsIn(t'.p2c, p) == KidsIn(t.p2c, p);
      }
    }
  }

  /** After unlinking `x` every remaining list names its lister as parent, once per child. */
  lemma UnlinkedListsParent(t: Tree, t': Tree, x: TreeItem, q: TreeItem)
    requires forall p, c | p in t.p2c && p != x && c in KidsIn(t.p2c, p) :: c in t.c2p && t.c2p[c] == p
    requires forall p | p in t.p2c && p != x :: Distinct(KidsIn(t.p2c, p))
    requires Unlinked(t, t', x, q)
    ensures ListsParent(t'.p2c, t'.c2p) && ListsDistinct(t'.p2c)
  {
    forall p, c | p in t'.p2c && c in KidsIn(t'.p2c, p) ensures c in t'.c2p && t'.c2p[c] == p {
      if p != q {
        assert KidsIn(t'.p2c, p) == KidsIn(t.p2c, p);
      }
      assert c in KidsIn(t.p2c, p) && t.c2p[c] == p;
    }
    forall p | p in t'.p2c ensures Distinct(KidsIn(t'.p2c, p)) {
      if p != q {
        assert KidsIn(t'.p2c, p) == KidsIn(t.p2c, p);
      }
    }
  }

  /** Unlinking from a detachable tree leaves a consistent tree. */
  lemma UnlinkedWf(root: TreeItem, lazy: bool, t: Tree, t': Tree, rank: map<TreeItem, nat>, x: TreeItem, q: TreeItem)
    requires Detachable(root, lazy, t, rank, x) && Unlinked(t, t', x, q)
    ensures Wf(root, lazy, t', rank)
  {
    UnlinkedParentsList(t, t', x, q);
    UnlinkedListsParent(t, t', x, q);
    UnlinkedKeyed(t, t', x, q);
    UnlinkedRootedRanked(root, lazy, t, t', rank, x, q);
  }

  lemma UnlinkedRootedRanked(root: TreeItem, lazy: bool, t: Tree, t': Tree, rank: map<TreeItem, nat>, x: TreeItem, q: TreeItem)
    requires Rooted(root, t.p2c, t.c2p) && Ranked(lazy, t.p2c, t.c2p, rank) && Unlinked(t, t', x, q)
    ensures Rooted(root, t'.p2c, t'.c2p) && Ranked(lazy, t'.p2c, t'.c2p, rank)
  {
  }

  lemma UnlinkedKeyed(t: Tree, t': Tree, x: TreeItem, q: TreeItem)
    requires Keyed(t.p2c, t.k2i) && x in t.p2c && Unlinked(t, t', x, q)
    ensures Keyed(t'.p2c, t'.k2i)
  {
    forall i | i in t'.p2c ensures i.key in t'.k2i && t'.k2i[i.key] == i {
      assert t.k2i[i.key] == i;
      assert t.k2i[x.key] == x;
    }
  }

  /** Unlinking an item no one names as parent leaves a consistent tree. */
  lemma UnlinkWf(root: TreeItem, lazy: bool, t: Tree, rank: map<TreeItem, nat>, x: TreeItem)
    requires Detachable(root, lazy, t, rank, x)
    ensures Wf(root, lazy, Unlink(t, x).value, rank)
  {
    var q := t.c2p[x];
    assert q in t.p2c && q != x;
    UnlinkIsUnlinked(t, x);
    UnlinkedWf(root, lazy, t, Unlink(t, x).value, rank, x, q);
  }

  /** A childless non-root item of a tree can be unlinked. */
  lemma LeafDetachable(root: TreeItem, lazy: bool, t: Tree, rank: map<TreeItem, nat>, x: TreeItem)
    requires Wf(root, lazy, t, rank) && x in t.c2p && KidsIn(t.p2c, x) == []
    ensures Detachable(root, lazy, t, rank, x)
  {
    forall c | c in t.c2p ensures t.c2p[c] != x {
      assert c in KidsIn(t.p2c, t.c2p[c]);
    }
  }

  /** Handing `x`'s children to `np`, entry by entry. */
  lemma HandedShape(t: Tree, x: TreeItem, np: TreeItem)
    requires np in t.p2c && np != x
    ensures var kids, h := KidsIn(t.p2c, x), Handed(t, KidsIn(t.p2c, x), np);
      && h.p2c.Keys == t.p2c.Keys && h.k2i == t.k2i
      && (forall q | q != np :: KidsIn(h.p2c, q) == KidsIn(t.p2c, q))
      && KidsIn(h.p2c, np) == KidsIn(t.p2c, np) + kids
      && (forall q :: q in h.c2p <==> q in t.c2p || q in kids)
      && (forall c | c in h.c2p :: h.c2p[c] == if c in kids then np else t.c2p[c])
  {
  }

  /** The hand-over adds and drops no item, so the root and the keys stay as they were. */
  lemma HandedKeys(root: TreeItem, t: Tree, x: TreeItem, np: TreeItem)
    requires Rooted(root, t.p2c, t.c2p) && Keyed(t.p2c, t.k2i) && ListsParent(t.p2c, t.c2p)
    requires x in t.c2p && np in t.p2c
    ensures Rooted(root, Handed(t, KidsIn(t.p2c, x), np).p2c, Handed(t, KidsIn(t.p2c, x), np).c2p)
    ensures Keyed(Handed(t, KidsIn(t.p2c, x), np).p2c, Handed(t, KidsIn(t.p2c, x), np).k2i)
  {
    var kids := KidsIn(t.p2c, x);
    var h := Handed(t, kids, np);
    forall c | c in kids ensures c in t.c2p {
      assert x in t.p2c;
    }
    assert h.c2p.Keys == t.c2p.Keys;
    assert h.p2c.Keys == t.p2c.Keys;
  }

  /** After the hand-over a child's new parent lists it and is not `x`. */
  lemma HandedParentOf(root: TreeItem, lazy: bool, t: Tree, rank: map<TreeItem, nat>, x: TreeItem, np: TreeItem, c: TreeItem)
    requires Wf(root, lazy, t, rank) && x in t.c2p && np in t.p2c && rank[np] < rank[x]
    requires c in Handed(t, KidsIn(t.p2c, x), np).c2p
    ensures var h := Handed(t, KidsIn(t.p2c, x), np);
      h.c2p[c] in h.p2c && c in KidsIn(h.p2c, h.c2p[c]) && h.c2p[c] != x
  {
    var kids := KidsIn(t.p2c, x);
    HandedShape(t, x, np);
    var h := Handed(t, kids, np);
    if c !in kids {
      var p := t.c2p[c];
      assert c in KidsIn(t.p2c, p);
      assert h.c2p[c] == p;
    }
  }

  /** After the hand-over every list but `x`'s names its lister as parent, once per child. */
  lemma HandedLists(t: Tree, x: TreeItem, np: TreeItem, p: TreeItem)
    requires ListsParent(t.p2c, t.c2p) && ListsDistinct(t.p2c) && np in t.p2c && np != x
    requires p in t.p2c && p != x
    ensures var h := Handed(t, KidsIn(t.p2c, x), np);
      Distinct(KidsIn(h.p2c, p)) && forall c | c in KidsIn(h.p2c, p) :: c in h.c2p && h.c2p[c] == p
  {
    var kids := KidsIn(t.p2c, x);
    HandedShape(t, x, np);
    var h := Handed(t, kids, np);
    if p == np {
      var before := KidsIn(t.p2c, np);
      forall i, j | 0 <= i < j < |before + kids| ensures (before + kids)[i] != (before + kids)[j] {
        if i < |before| <= j {
          assert t.c2p[before[i]] == np;
        }
      }
      forall c | c in before ensures c !in kids {
        assert t.c2p[c] == np;
      }
    } else {
      forall c | c in KidsIn(t.p2c, p) ensures c !in kids {
        assert t.c2p[c] == p;
      }
    }
  }

  /**
   * Once a non-root item's children are handed to a tree item above it, the
   * item can be unlinked.
   */
  lemma HandedDetachable(root: TreeItem, lazy: bool, t: Tree, rank: map<TreeItem, nat>, x: TreeItem, np: TreeItem)
    requires Wf(root, lazy, t, rank) && x in t.c2p && np in t.p2c && rank[np] < rank[x]
    ensures Detachable(root, lazy, Handed(t, KidsIn(t.p2c, x), np), rank, x)
  {
    var kids := KidsIn(t.p2c, x);
    HandedShape(t, x, np);
    var h := Handed(t, kids, np);
    assert np != x;
    HandedKeys(root, t, x, np);
    forall c | c in h.c2p ensures h.c2p[c] in h.p2c && c in KidsIn(h.p2c, h.c2p[c]) && h.c2p[c] != x {
      HandedParentOf(root, lazy, t, rank, x, np, c);
    }
    forall p | p in h.p2c && p != x
      ensures Distinct(KidsIn(h.p2c, p)) && forall c | c in KidsIn(h.p2c, p) :: c in h.c2p && h.c2p[c] == p
    {
      HandedLists(t, x, np, p);
    }
    HandedRanked(lazy, t, rank, x, np);
  }

  /** The hand-over moves children to an item ranked above their old parent, so ranks still grow downward. */
  lemma HandedRanked(lazy: bool, t: Tree, rank: map<TreeItem, nat>, x: TreeItem, np: TreeItem)
    requires Ranked(lazy, t.p2c, t.c2p, rank) && ListsParent(t.p2c, t.c2p)
    requires x in t.c2p && np in t.p2c && rank[np] < rank[x]
    ensures Ranked(lazy, Handed(t, KidsIn(t.p2c, x), np).p2c, Handed(t, KidsIn(t.p2c, x), np).c2p, rank)
  {
    var kids := KidsIn(t.p2c, x);
    HandedShape(t, x, np);
    var h := Handed(t, kids, np);
    forall c | c in h.c2p ensures c in rank && h.c2p[c] in rank && rank[h.c2p[c]] < rank[c] {
      if c in kids {
        assert t.c2p[c] == x;
      } else {
        assert h.c2p[c] == t.c2p[c];
      }
    }
  }

  // ----- Delete mode -----

  /**
   * What deleting items ranked `lo` or deeper leaves of `t` in `t'`: no item
   * is added, every item removed is ranked `lo` or deeper, every remaining
   * list only loses children and every remaining item keeps its parent.
   */
  ghost predicate DeletedBelow(t: Tree, t': Tree, rank: map<TreeItem, nat>, lo: nat) {
    && t'.p2c.Keys <= t.p2c.Keys
    && (forall y | y in t.p2c && y !in t'.p2c :: y in rank && rank[y] >= lo)
    && (forall y, z | y in t'.p2c && z in KidsIn(t'.p2c, y) :: z in KidsIn(t.p2c, y))
    && (forall y | y in t'.c2p :: y in t.c2p && t'.c2p[y] == t.c2p[y])
  }

  /** Deleting in two steps is deleting. */
  lemma DeletedBelowTrans(t: Tree, t1: Tree, t2: Tree, rank: map<TreeItem, nat>, lo: nat, lo1: nat, lo2: nat)
    requires DeletedBelow(t, t1, rank, lo1) && DeletedBelow(t1, t2, rank, lo2) && lo <= lo1 && lo <= lo2
    ensures DeletedBelow(t, t2, rank, lo)
  {
  }

  /** `list.remove` only drops items. */
  lemma WithoutSub(s: seq<TreeItem>, x: TreeItem)
    ensures forall z | z in Without(s, x) :: z in s
  {
    forall z | z in Without(s, x) ensures z in s {
      assert z in multiset(Without(s, x));
    }
  }

  /**
   * `t'` is what deleting `removed` from `t` leaves: a consistent tree,
   * shrunk below rank `lo` only, that has lost exactly the items of `removed`.
   */
  ghost predicate Deletes(root: TreeItem, lazy: bool, t: Tree, t': Tree, removed: seq<TreeItem>,
                          rank: map<TreeItem, nat>, lo: nat) {
    && Wf(root, lazy, t', rank) && DeletedBelow(t, t', rank, lo)
    && (forall y :: y in removed <==> y in t.p2c && y !in t'.p2c)
  }

  /** Deleting in two steps is deleting both lots. */
  lemma DeletesTrans(root: TreeItem, lazy: bool, t: Tree, t1: Tree, t2: Tree, r1: seq<TreeItem>, r2: seq<TreeItem>,
                     rank: map<TreeItem, nat>, lo: nat)
    requires Deletes(root, lazy, t, t1, r1, rank, lo) && Deletes(root, lazy, t1, t2, r2, rank, lo)
    ensures Deletes(root, lazy, t, t2, r1 + r2, rank, lo)
  {
    DeletedBelowTrans(t, t1, t2, rank, lo, lo, lo);
  }

  /** Unlinking a childless non-root item deletes exactly it. */
  lemma UnlinkDeletes(root: TreeItem, lazy: bool, t: Tree, rank: map<TreeItem, nat>, x: TreeItem, lo: nat)
    requires Wf(root, lazy, t, rank) && x in t.c2p && KidsIn(t.p2c, x) == [] && rank[x] >= lo
    ensures Deletes(root, lazy, t, Unlink(t, x).value, [x], rank, lo)
    ensures x !in Unlink(t, x).value.p2c
  {
    LeafDetachable(root, lazy, t, rank, x);
    UnlinkWf(root, lazy, t, rank, x);
    assert t.c2p[x] in t.p2c && t.c2p[x] != x;
    UnlinkShape(t, x);
    WithoutSub(KidsIn(t.p2c, t.c2p[x]), x);
    var t' := Unlink(t, x).value;
    forall y, z | y in t'.p2c && z in KidsIn(t'.p2c, y) ensures z in KidsIn(t.p2c, y) {
      if y != t.c2p[x] {
        assert t'.p2c[y] == t.p2c[y];
      }
    }
  }

  /** A listed child is a child. */
  lemma ListedHasParent(p2c: Children, c2p: map<TreeItem, TreeItem>, p: TreeItem, z: TreeItem)
    requires ListsParent(p2c, c2p) && p in p2c && z in KidsIn(p2c, p)
    ensures z in c2p && c2p[z] == p
  {
  }

  /** A non-empty list holds its head. */
  lemma HeadIn(s: seq<TreeItem>)
    requires s != []
    ensures s[0] in s
  {
  }

  /** Once the children of `x` are deleted, `x` is a leaf still in the tree. */
  lemma KidsGone(root: TreeItem, t: Tree, t1: Tree, rank: map<TreeItem, nat>, x: TreeItem)
    requires Rooted(root, t.p2c, t.c2p) && Rooted(root, t1.p2c, t1.c2p) && ListsParent(t1.p2c, t1.c2p)
    requires x in t.c2p && x in rank && DeletedBelow(t, t1, rank, rank[x] + 1)
    requires forall k | k in KidsIn(t.p2c, x) :: k !in t1.p2c
    ensures x in t1.c2p && KidsIn(t1.p2c, x) == []
  {
    assert x in t.p2c && rank[x] < rank[x] + 1;
    assert x in t1.p2c;
    if KidsIn(t1.p2c, x) != [] {
      HeadIn(KidsIn(t1.p2c, x));
      ListedHasParent(t1.p2c, t1.c2p, x, KidsIn(t1.p2c, x)[0]);
      assert false;
    }
  }

  /** Once the children of `x` are deleted, unlinking `x` completes the deletion of its subtree. */
  lemma DeleteParent(root: TreeItem, lazy: bool, t: Tree, t1: Tree, rank: map<TreeItem, nat>, x: TreeItem,
                     lo: nat, removed: seq<TreeItem>)
    requires Wf(root, lazy, t, rank) && x in t.c2p && x in rank && rank[x] >= lo
    requires Deletes(root, lazy, t, t1, removed, rank, rank[x] + 1)
    requires forall k | k in KidsIn(t.p2c, x) :: k !in t1.p2c
    ensures x in t1.c2p
    ensures Deletes(root, lazy, t, Unlink(t1, x).value, removed + [x], rank, lo)
    ensures x !in Unlink(t1, x).value.p2c
  {
    KidsGone(root, t, t1, rank, x);
    UnlinkDeletes(root, lazy, t1, rank, x, rank[x]);
    DeletesTrans(root, lazy, t, t1, Unlink(t1, x).value, removed, [x], rank, lo);
  }

  /** A pass over a childless item only unlinks it. */
  lemma LeafStep(c: Config, t: Tree, x: TreeItem, items: set<TreeItem>, action: string, depth: nat)
    requires x in t.c2p && KidsIn(t.p2c, x) == []
    ensures ProcessItem(c, t, x, items, map[], action, depth) == (Unlink(t, x).value, Success([x]))
  {
    assert [] + [x] == [x];
  }

  /** A delete-mode pass over an item with children deletes them first, then unlinks it. */
  lemma DeleteStep(c: Config, t: Tree, x: TreeItem, items: set<TreeItem>, depth: nat, d: nat)
    requires KidsIn(t.p2c, x) != [] && d == depth - 1
    ensures var p := ProcessItem(c, t, x, items, map[], Delete, depth);
      var q := RemoveOf(c, t, KidsIn(t.p2c, x), Delete, d);
      p.1.Success? ==> q.1.Success? && Unlink(q.0, x).Success? && p == (Unlink(q.0, x).value, Success(q.1.value + [x]))
  {
    assert LookedUp(t, x, map[]) == KidsIn(t.p2c, x);
    ClearedDeletes(c, t, x, items, map[], depth);
    var q := RemoveOf(c, t, KidsIn(t.p2c, x), Delete, d);
    if q.1.Success? && x in q.0.c2p {
      ClearedThenUnlinked(c, t, x, items, map[], Delete, depth, q.0, q.1.value);
    }
  }

  /** The loop over `xs` is a pass over its head followed by the loop over the rest. */
  lemma AllStep(c: Config, t: Tree, xs: seq<TreeItem>, items: set<TreeItem>, action: string, depth: nat,
                rest: seq<TreeItem>)
    requires xs != [] && rest == xs[1..]
    ensures forall x | x in xs :: x == xs[0] || x in rest
    ensures var p := ProcessAll(c, t, xs, items, map[], action, depth);
      var p1 := ProcessItem(c, t, xs[0], items, map[], action, depth);
      var p2 := ProcessAll(c, p1.0, rest, items, map[], action, depth);
      && (p.1.Success? <==> p1.1.Success? && p2.1.Success?)
      && (p.1.Success? ==> p == (p2.0, Success(p1.1.value + p2.1.value)))
  {
    assert xs == [xs[0]] + rest;
  }

  /** A RemoveItems that does not fetch is its loop over the distinct non-root items, if they are all in the tree. */
  lemma RemoveStep(c: Config, t: Tree, items: seq<TreeItem>, action: string, depth: nat)
    requires NoFetch(c) && (action == Delete || action == Reparent)
    ensures var xs := Unique(items, {c.root});
      RemoveOf(c, t, items, action, depth) ==
        if xs == [] then (t, Success([]))
        else if forall x | x in xs :: x in t.p2c then ProcessAll(c, t, xs, set x | x in xs :: x, map[], action, depth)
        else (t, Failure(ItemLookupError))
  {
    var xs := Unique(items, {c.root});
    if xs != [] {
      PrefetchNoFetch(c, t, xs, map[]);
    }
  }

  /**
   * Delete mode: a successful RemoveItems leaves a consistent tree without
   * any of the items, having removed only items ranked at least as deep as
   * the shallowest of them, and returns exactly what it removed.
   */
  lemma {:induction false} RemoveDeleteWf(c: Config, t: Tree, rank: map<TreeItem, nat>, items: seq<TreeItem>,
                                          depth: nat, lo: nat)
    requires Wf(c.root, c.lazy, t, rank) && NoFetch(c)
    requires forall x | x in items && x in t.p2c :: rank[x] >= lo
    ensures var p := RemoveOf(c, t, items, Delete, depth);
      p.1.Success? ==>
        && Deletes(c.root, c.lazy, t, p.0, p.1.value, rank, lo)
        && (forall x | x in items && x != c.root :: x !in p.0.p2c)
    decreases depth, 2, 0
  {
    var xs := Unique(items, {c.root});
    RemoveStep(c, t, items, Delete, depth);
    if xs == [] {
      assert Deletes(c.root, c.lazy, t, t, [], rank, lo);
    } else if forall x | x in xs :: x in t.p2c {
      ProcessAllDeleteWf(c, t, rank, xs, set x | x in xs :: x, depth, lo);
    }
  }

  /** The loop of a delete-mode RemoveItems, item by item. */
  lemma {:induction false} ProcessAllDeleteWf(c: Config, t: Tree, rank: map<TreeItem, nat>, xs: seq<TreeItem>,
                                              items: set<TreeItem>, depth: nat, lo: nat)
    requires Wf(c.root, c.lazy, t, rank) && NoFetch(c) && c.root !in xs
    requires forall x | x in xs :: x in rank && rank[x] >= lo
    ensures var p := ProcessAll(c, t, xs, items, map[], Delete, depth);
      p.1.Success? ==> Deletes(c.root, c.lazy, t, p.0, p.1.value, rank, lo) && (forall x | x in xs :: x !in p.0.p2c)
    decreases depth, 1, |xs|
  {
    if xs == [] {
      assert Deletes(c.root, c.lazy, t, t, [], rank, lo);
    } else {
      var rest := xs[1..];
      AllStep(c, t, xs, items, Delete, depth, rest);
      ProcessItemDeleteWf(c, t, rank, xs[0], items, depth, lo);
      var p1 := ProcessItem(c, t, xs[0], items, map[], Delete, depth);
      if p1.1.Success? {
        ProcessAllDeleteWf(c, p1.0, rank, rest, items, depth, lo);
        var p2 := ProcessAll(c, p1.0, rest, items, map[], Delete, depth);
        if p2.1.Success? {
          DeletesTrans(c.root, c.lazy, t, p1.0, p2.0, p1.1.value, p2.1.value, rank, lo);
        }
      }
    }
  }

  /** One pass of a delete-mode RemoveItems: `x` and everything below it go. */
  lemma {:induction false} ProcessItemDeleteWf(c: Config, t: Tree, rank: map<TreeItem, nat>, x: TreeItem,
                                               items: set<TreeItem>, depth: nat, lo: nat)
    requires Wf(c.root, c.lazy, t, rank) && NoFetch(c) && x != c.root
    requires x in rank && rank[x] >= lo
    ensures var p := ProcessItem(c, t, x, items, map[], Delete, depth);
      p.1.Success? ==> Deletes(c.root, c.lazy, t, p.0, p.1.value, rank, lo) && x !in p.0.p2c
    decreases depth, 0, 0
  {
    var kids := KidsIn(t.p2c, x);
    if x !in t.c2p {
      assert kids == [];
    } else if kids == [] {
      LeafStep(c, t, x, items, Delete, depth);
      UnlinkDeletes(c.root, c.lazy, t, rank, x, lo);
    } else if depth > 0 {
      var d: nat := depth - 1;
      DeleteStep(c, t, x, items, depth, d);
      KidsBelow(c.root, c.lazy, t, rank, x);
      UniqueOf(kids, {c.root});
      RemoveDeleteWf(c, t, rank, kids, d, rank[x] + 1);
      var q := RemoveOf(c, t, kids, Delete, d);
      if q.1.Success? {
        DeleteParent(c.root, c.lazy, t, q.0, rank, x, lo, q.1.value);
      }
    }
  }

  /** The children of an item are distinct non-root items ranked below it. */
  lemma KidsBelow(root: TreeItem, lazy: bool, t: Tree, rank: map<TreeItem, nat>, x: TreeItem)
    requires Wf(root, lazy, t, rank) && x in t.p2c
    ensures Distinct(KidsIn(t.p2c, x)) && root !in KidsIn(t.p2c, x)
    ensures forall k | k in KidsIn(t.p2c, x) :: k in t.p2c && rank[k] > rank[x]
  {
    forall k | k in KidsIn(t.p2c, x) ensures k in t.p2c && rank[k] > rank[x] {
      ListedHasParent(t.p2c, t.c2p, x, k);
    }
  }

  // ----- Reparent mode -----

  /** A reparent-mode pass over an item with children hands them to `np`, the nearest ancestor outside `items`. */
  lemma HandStep(c: Config, t: Tree, x: TreeItem, items: set<TreeItem>, depth: nat, np: TreeItem)
    requires x in t.c2p && KidsIn(t.p2c, x) != [] && Climb(t.c2p, items, t.c2p[x]) == Success(np)
    requires x in Handed(t, KidsIn(t.p2c, x), np).c2p
    ensures ProcessItem(c, t, x, items, map[], Reparent, depth)
         == (Unlink(Handed(t, KidsIn(t.p2c, x), np), x).value, Success([x]))
  {
    assert Reparent != Delete;
    assert [] + [x] == [x];
  }

  /**
   * Reparent mode, for an item with children: they move to its nearest
   * ancestor outside `items`, then the item is unlinked.
   */
  lemma HandOver(c: Config, t: Tree, rank: map<TreeItem, nat>, x: TreeItem, items: set<TreeItem>, depth: nat)
    requires Wf(c.root, c.lazy, t, rank) && x in t.c2p && c.root !in items && KidsIn(t.p2c, x) != []
    ensures var p := ProcessItem(c, t, x, items, map[], Reparent, depth);
      && p.1 == Success([x]) && Wf(c.root, c.lazy, p.0, rank)
      && p.0.p2c.Keys == t.p2c.Keys - {x} && p.0.k2i == t.k2i - {x.key}
      && (forall k | k in KidsIn(t.p2c, x) :: k in p.0.c2p && p.0.c2p[k] !in items && rank[p.0.c2p[k]] < rank[x])
  {
    var kids := KidsIn(t.p2c, x);
    var y := t.c2p[x];
    ClimbOnTree(c.root, c.lazy, t, rank, items, items, y);
    var np := Climb(t.c2p, items, y).value;
    HandedDetachable(c.root, c.lazy, t, rank, x, np);
    var h := Handed(t, kids, np);
    HandStep(c, t, x, items, depth, np);
    UnlinkWf(c.root, c.lazy, h, rank, x);
    HandedShape(t, x, np);
    assert h.c2p[x] in h.p2c && h.c2p[x] != x;
    UnlinkShape(h, x);
    var t' := Unlink(h, x).value;
    forall k | k in kids ensures k in t'.c2p && t'.c2p[k] == np {
      ListedHasParent(t.p2c, t.c2p, x, k);
      assert h.c2p[k] == np;
    }
  }

  /**
   * Reparent mode: a pass over a non-root item of the tree always succeeds,
   * removes just that item and keeps the tree consistent; its children now
   * hang from an item outside `items`, ranked above it.
   */
  lemma ReparentItem(c: Config, t: Tree, rank: map<TreeItem, nat>, x: TreeItem, items: set<TreeItem>, depth: nat)
    requires Wf(c.root, c.lazy, t, rank) && x in t.p2c && x != c.root && c.root !in items
    ensures var p := ProcessItem(c, t, x, items, map[], Reparent, depth);
      && p.1 == Success([x]) && Wf(c.root, c.lazy, p.0, rank)
      && p.0.p2c.Keys == t.p2c.Keys - {x} && p.0.k2i == t.k2i - {x.key}
      && (forall k | k in KidsIn(t.p2c, x) :: k in p.0.c2p && p.0.c2p[k] !in items && rank[p.0.c2p[k]] < rank[x])
  {
    if KidsIn(t.p2c, x) == [] {
      LeafStep(c, t, x, items, Reparent, depth);
      LeafDetachable(c.root, c.lazy, t, rank, x);
      UnlinkWf(c.root, c.lazy, t, rank, x);
      assert t.c2p[x] in t.p2c && t.c2p[x] != x;
      UnlinkShape(t, x);
    } else {
      HandOver(c, t, rank, x, items, depth);
    }
  }

  /** Reparent mode: the loop over distinct items of the tree removes exactly them, keeping the tree consistent. */
  lemma {:induction false} ReparentAll(c: Config, t: Tree, rank: map<TreeItem, nat>, xs: seq<TreeItem>,
                                       items: set<TreeItem>, depth: nat)
    requires Wf(c.root, c.lazy, t, rank) && Distinct(xs) && c.root !in xs && c.root !in items
    requires forall x | x in xs :: x in t.p2c
    ensures var p := ProcessAll(c, t, xs, items, map[], Reparent, depth);
      && p.1 == Success(xs) && Wf(c.root, c.lazy, p.0, rank)
      && forall y :: y in p.0.p2c <==> y in t.p2c && y !in xs
    decreases |xs|
  {
    if xs != [] {
      var x, rest := xs[0], xs[1..];
      var p1 := ProcessItem(c, t, x, items, map[], Reparent, depth);
      var t1 := p1.0;
      assert p1.1 == Success([x]) && Wf(c.root, c.lazy, t1, rank) && t1.p2c.Keys == t.p2c.Keys - {x} by {
        ReparentItem(c, t, rank, x, items, depth);
      }
      RestRemains(xs, t.p2c.Keys, t1.p2c.Keys);
      ReparentAll(c, t1, rank, rest, items, depth);
      var p2 := ProcessAll(c, t1, rest, items, map[], Reparent, depth);
      AllJoin(c, t, xs, items, Reparent, depth, p1, p2);
    }
  }

  /** The loop over `xs` reports all of `xs` when the pass over its head
      reports the head and the loop over the rest reports the rest. */
  lemma AllJoin(c: Config, t: Tree, xs: seq<TreeItem>, items: set<TreeItem>, action: string, depth: nat,
                p1: (Tree, Result<seq<TreeItem>, TreeError>), p2: (Tree, Result<seq<TreeItem>, TreeError>))
    requires xs != [] && p1 == ProcessItem(c, t, xs[0], items, map[], action, depth)
    requires p2 == ProcessAll(c, p1.0, xs[1..], items, map[], action, depth)
    requires p1.1 == Success([xs[0]]) && p2.1 == Success(xs[1..])
    ensures ProcessAll(c, t, xs, items, map[], action, depth) == (p2.0, Success(xs))
  {
    assert [xs[0]] + xs[1..] == xs;
  }

  /** The rest of a list without repeats, once its head is taken from `keys`. */
  lemma RestRemains(xs: seq<TreeItem>, keys: set<TreeItem>, left: set<TreeItem>)
    requires xs != [] && Distinct(xs) && (forall x | x in xs :: x in keys) && left == keys - {xs[0]}
    ensures Distinct(xs[1..]) && xs[0] !in xs[1..] && forall y | y in xs[1..] :: y in left
    ensures forall y :: y in xs <==> y == xs[0] || y in xs[1..]
  {
    assert xs == [xs[0]] + xs[1..];
  }

  /**
   * Reparent mode: RemoveItems on a consistent tree that does not fetch
   * removes exactly the named non-root items, keeping the tree consistent,
   * or, when one of them is not in the tree, changes nothing and reports it.
   */
  lemma RemoveReparentWf(c: Config, t: Tree, rank: map<TreeItem, nat>, items: seq<TreeItem>, depth: nat)
    requires Wf(c.root, c.lazy, t, rank) && NoFetch(c)
    ensures var p, xs := RemoveOf(c, t, items, Reparent, depth), Unique(items, {c.root});
      if forall x | x in xs :: x in t.p2c then
        && p.1 == Success(xs) && Wf(c.root, c.lazy, p.0, rank)
        && p.0.p2c.Keys == t.p2c.Keys - (set x | x in items) + {c.root}
      else p == (t, Failure(ItemLookupError))
  {
    var xs := Unique(items, {c.root});
    RemoveStep(c, t, items, Reparent, depth);
    if forall x | x in xs :: x in t.p2c {
      assert c.root in t.p2c;
      if xs != [] {
        ReparentAll(c, t, rank, xs, set x | x in xs :: x, depth);
        var p := ProcessAll(c, t, xs, set x | x in xs :: x, map[], Reparent, depth);
        RemovedKeys(t.p2c.Keys, p.0.p2c.Keys, items, xs, c.root);
      } else {
        RemovedKeys(t.p2c.Keys, t.p2c.Keys, items, xs, c.root);
      }
    }
  }

  /** Taking away the distinct non-root items takes away the same keys as
      taking away all the items and putting the root back. */
  lemma RemovedKeys(keys: set<TreeItem>, left: set<TreeItem>, items: seq<TreeItem>, xs: seq<TreeItem>, root: TreeItem)
    requires root in keys && forall x :: x in xs <==> x in items && x != root
    requires forall y :: y in left <==> y in keys && y !in xs
    ensures left == keys - (set x | x in items) + {root}
  {
  }

  // ----- RemoveItems -----

  /**
   * Delete mode: RemoveItems on a consistent tree that does not fetch reports
   * an item not in the tree without changing anything; when it succeeds, the
   * named items and all their descendants are gone, nothing else is, and the
   * result lists exactly what went.
   */
  lemma RemoveDeleteSubtrees(c: Config, t: Tree, rank: map<TreeItem, nat>, items: seq<TreeItem>, depth: nat)
    requires Wf(c.root, c.lazy, t, rank) && NoFetch(c)
    ensures var p := RemoveOf(c, t, items, Delete, depth);
      && (!(forall x | x in items && x != c.root :: x in t.p2c) ==> p == (t, Failure(ItemLookupError)))
      && (p.1.Success? ==>
           && Wf(c.root, c.lazy, p.0, rank)
           && (forall x | x in items && x != c.root :: x !in p.0.p2c)
           && (forall y | y in t.c2p && t.c2p[y] !in p.0.p2c :: y !in p.0.p2c)
           && (forall y | y in p.0.c2p :: y in t.c2p && p.0.c2p[y] == t.c2p[y])
           && (forall y :: y in p.1.value <==> y in t.p2c && y !in p.0.p2c))
  {
    RemoveStep(c, t, items, Delete, depth);
    RemoveDeleteWf(c, t, rank, items, depth, 0);
    var p := RemoveOf(c, t, items, Delete, depth);
    if p.1.Success? {
      forall y | y in t.c2p && t.c2p[y] !in p.0.p2c ensures y !in p.0.p2c {
        InTreeHasParent(c.root, p.0, y);
      }
    }
  }

  /** An item of the tree other than the root has a parent. */
  lemma InTreeHasParent(root: TreeItem, t: Tree, y: TreeItem)
    requires Rooted(root, t.p2c, t.c2p)
    ensures y in t.p2c && y != root ==> y in t.c2p
  {
  }

  /** RemoveItems, in either mode, keeps a tree that does not fetch a tree when it succeeds. */
  lemma RemoveSound(c: Config, t: Tree, items: seq<TreeItem>, action: string, depth: nat)
    requires Sound(c.root, c.lazy, t) && NoFetch(c)
    ensures var p := RemoveOf(c, t, items, action, depth);
      p.1.Success? ==> Sound(c.root, c.lazy, p.0)
  {
    var rank :| Wf(c.root, c.lazy, t, rank);
    if action == Delete {
      RemoveDeleteWf(c, t, rank, items, depth, 0);
    } else if action == Reparent {
      RemoveReparentWf(c, t, rank, items, depth);
    }
  }

  // ----- A tree that fetches -----

  /** A lazy tree whose root lists `x` and then `k`, neither of them fetched yet. */
  function FetchingTree(r: TreeItem, x: TreeItem, k: TreeItem): Tree {
    Tree(map[r := Some([x, k]), x := None, k := None], map[x := r, k := r], map[r.key := r, x.key := x, k.key := k])
  }

  /** The first pass over `x` fetches `[k]`: the tree stores no new child for
      `x`, since `k` is already placed, but the fetched list is recorded. */
  lemma FetchingFirstPass(c: Config, r: TreeItem, x: TreeItem, k: TreeItem)
    requires r == TreeItem(0, "r") && x == TreeItem(1, "x") && k == TreeItem(2, "k")
    requires c.lazy && !c.blockUpdates && c.fetch(x) == [k]
    ensures var t := FetchingTree(r, x, k);
      Prefetch(c, t, [x], map[]) == (t.(p2c := t.p2c[x := Some([])]), map[x := [k]], None)
  {
    var t := FetchingTree(r, x, k);
    var t1 := t.(p2c := t.p2c[x := Some([])]);
    assert Incoming([k], t1.c2p.Keys, t1.k2i.Keys, {}) == Success([]);
    assert Registered(t1, x, [], Init(c.lazy)) == t1 by {
      assert t1.k2i + KeyIndex([]) == t1.k2i;
    }
    assert Extended(t1, x, []) == t1 by {
      assert KidsIn(t1.p2c, x) + [] == [];
    }
    assert AddItemsOf(c, t1, [k], Some(x)) == (t1, Success([]));
    assert ChildrenOf(c, t, x) == (t1, Success([k]));
    assert [x][1..] == [];
  }

  /** RemoveItems([x]) on the fetching tree is the second pass over `x` with the fetched `[k]`. */
  lemma FetchingSplit(c: Config, action: string, depth: nat)
    requires c.root == TreeItem(0, "r") && c.lazy && !c.blockUpdates
    requires c.fetch(TreeItem(1, "x")) == [TreeItem(2, "k")] && (action == Delete || action == Reparent)
    ensures var r, x, k := c.root, TreeItem(1, "x"), TreeItem(2, "k");
      var t := FetchingTree(r, x, k);
      RemoveOf(c, t, [x], action, depth)
        == ProcessAll(c, t.(p2c := t.p2c[x := Some([])]), [x], {x}, map[x := [k]], action, depth)
  {
    var r, x, k := c.root, TreeItem(1, "x"), TreeItem(2, "k");
    assert Unique([x], {r}) == [x];
    assert (set y | y in [x] :: y) == {x};
    FetchingFirstPass(c, r, x, k);
  }

  /**
   * Reparent mode on the fetching tree: the pass over `x` hands it the fetched
   * `[k]`, so `k`, already listed by the root, is appended there again and the
   * root ends listing it twice.
   */
  lemma FetchedReparent(c: Config, depth: nat)
    requires c.root == TreeItem(0, "r") && c.lazy && !c.blockUpdates
    requires c.fetch(TreeItem(1, "x")) == [TreeItem(2, "k")]
    ensures var r, x, k := c.root, TreeItem(1, "x"), TreeItem(2, "k");
      var p := RemoveOf(c, FetchingTree(r, x, k), [x], Reparent, depth);
      p.1 == Success([x]) && r in p.0.p2c && p.0.p2c[r] == Some([k, k])
  {
    var r, x, k := c.root, TreeItem(1, "x"), TreeItem(2, "k");
    var t := FetchingTree(r, x, k);
    FetchingSplit(c, Reparent, depth);
    ReparentFetched(c, t.(p2c := t.p2c[x := Some([])]), r, x, k, depth);
  }

  /**
   * Delete mode on the fetching tree: the pass over `x` deletes the fetched
   * `[k]`, though `k` is the root's child and not `x`'s, and reports it
   * before `x`; only the root is left.
   */
  lemma FetchedDelete(c: Config, depth: nat)
    requires c.root == TreeItem(0, "r") && c.lazy && !c.blockUpdates && depth > 0
    requires c.fetch(TreeItem(1, "x")) == [TreeItem(2, "k")] && c.fetch(TreeItem(2, "k")) == []
    ensures var r, x, k := c.root, TreeItem(1, "x"), TreeItem(2, "k");
      var p := RemoveOf(c, FetchingTree(r, x, k), [x], Delete, depth);
      p.1 == Success([k, x]) && p.0.p2c.Keys == {r}
  {
    var r, x, k := c.root, TreeItem(1, "x"), TreeItem(2, "k");
    var t := FetchingTree(r, x, k);
    var t1 := t.(p2c := t.p2c[x := Some([])]);
    FetchingSplit(c, Delete, depth);
    OnePass(c, t1, x, {x}, map[x := [k]], Delete, depth);
    DeletePassFetched(c, t1, r, x, k, depth);
  }

  /** The second pass of the delete example. */
  lemma DeletePassFetched(c: Config, t1: Tree, r: TreeItem, x: TreeItem, k: TreeItem, depth: nat)
    requires r == c.root && r != x && x != k && r != k && c.lazy && !c.blockUpdates && c.fetch(k) == [] && depth > 0
    requires t1.p2c == map[r := Some([x, k]), x := Some([]), k := None] && t1.c2p == map[x := r, k := r]
    ensures var p := ProcessItem(c, t1, x, {x}, map[x := [k]], Delete, depth);
      p.1 == Success([k, x]) && p.0.p2c.Keys == {r}
  {
    FetchedThenUnlinked(t1, r, x, k);
    assert LookedUp(t1, x, map[x := [k]]) == [k];
    DeletesFetchedChild(c, t1, x, k, {x}, map[x := [k]], depth);
  }

  /** In the delete example, unlinking the fetched `k` and then `x` leaves the root alone. */
  lemma FetchedThenUnlinked(t1: Tree, r: TreeItem, x: TreeItem, k: TreeItem)
    requires r != x && x != k && r != k
    requires t1.p2c == map[r := Some([x, k]), x := Some([]), k := None] && t1.c2p == map[x := r, k := r]
    ensures var u := Unlink(t1.(p2c := t1.p2c[k := Some([])]), k);
      && u.Success? && x in u.value.c2p && Unlink(u.value, x).Success? && Unlink(u.value, x).value.p2c.Keys == {r}
  {
    var t2 := t1.(p2c := t1.p2c[k := Some([])]);
    assert t2.p2c.Keys == {r, x, k};
    UnlinkSecond(t2, r, x, k);
    UnlinkLast(Unlink(t2, k).value, r, x);
  }

  /** A delete-mode pass over an item whose one child `k` fetches nothing: `k` is unlinked, then the item. */
  lemma DeletesFetchedChild(c: Config, t: Tree, x: TreeItem, k: TreeItem, items: set<TreeItem>,
                            fetched: map<TreeItem, seq<TreeItem>>, depth: nat)
    requires LookedUp(t, x, fetched) == [k] && depth > 0
    requires k != c.root && c.lazy && !c.blockUpdates && c.fetch(k) == []
    requires k in t.p2c && t.p2c[k] == None && k in t.c2p
    requires var u := Unlink(t.(p2c := t.p2c[k := Some([])]), k); u.Success? && x in u.value.c2p
    ensures var u := Unlink(t.(p2c := t.p2c[k := Some([])]), k).value;
      ProcessItem(c, t, x, items, fetched, Delete, depth) == (Unlink(u, x).value, Success([k, x]))
  {
    var u := Unlink(t.(p2c := t.p2c[k := Some([])]), k).value;
    DeleteFetchedChild(c, t, k, depth - 1);
    ClearedDeletes(c, t, x, items, fetched, depth);
    ClearedThenUnlinked(c, t, x, items, fetched, Delete, depth, u, [k]);
    assert [k] + [x] == [k, x];
  }

  /** A delete-mode pass over an item with children to work on starts by removing them recursively. */
  lemma ClearedDeletes(c: Config, t: Tree, x: TreeItem, items: set<TreeItem>, fetched: map<TreeItem, seq<TreeItem>>,
                       depth: nat)
    requires LookedUp(t, x, fetched) != [] && depth > 0
    ensures Cleared(c, t, x, items, fetched, Delete, depth) == RemoveOf(c, t, LookedUp(t, x, fetched), Delete, depth - 1)
  {
  }

  /** A pass over an item with no children to work on leaves the first half with nothing done. */
  lemma ClearedNothing(c: Config, t: Tree, x: TreeItem, items: set<TreeItem>, fetched: map<TreeItem, seq<TreeItem>>,
                       action: string, depth: nat)
    requires LookedUp(t, x, fetched) == []
    ensures Cleared(c, t, x, items, fetched, action, depth) == (t, Success([]))
  {
  }

  /** The recursive call of the delete example: `k` is fetched (nothing) and unlinked. */
  lemma DeleteFetchedChild(c: Config, t1: Tree, k: TreeItem, d: nat)
    requires k != c.root && c.lazy && !c.blockUpdates && c.fetch(k) == []
    requires k in t1.p2c && t1.p2c[k] == None && k in t1.c2p
    ensures RemoveOf(c, t1, [k], Delete, d) == (Unlink(t1.(p2c := t1.p2c[k := Some([])]), k).value, Success([k]))
  {
    var t2 := t1.(p2c := t1.p2c[k := Some([])]);
    EmptyFetchSplit(c, t1, k, d);
    OnePass(c, t2, k, {k}, map[k := []], Delete, d);
    ClearedNothing(c, t2, k, {k}, map[k := []], Delete, d);
    ClearedThenUnlinked(c, t2, k, {k}, map[k := []], Delete, d, t2, []);
    assert [] + [k] == [k];
  }

  /** RemoveItems([k]) with `k` unfetched and fetching nothing is the pass over `k` with the empty fetched list. */
  lemma EmptyFetchSplit(c: Config, t1: Tree, k: TreeItem, d: nat)
    requires k != c.root && c.lazy && !c.blockUpdates && c.fetch(k) == []
    requires k in t1.p2c && t1.p2c[k] == None
    ensures RemoveOf(c, t1, [k], Delete, d) == ProcessAll(c, t1.(p2c := t1.p2c[k := Some([])]), [k], {k}, map[k := []], Delete, d)
  {
    var t2 := t1.(p2c := t1.p2c[k := Some([])]);
    assert Unique([k], {c.root}) == [k];
    assert (set y | y in [k] :: y) == {k};
    assert ChildrenOf(c, t1, k) == (t2, Success([]));
    assert [k][1..] == [];
    assert Prefetch(c, t1, [k], map[]) == (t2, map[k := []], None);
  }

  /** Unlinking `k` from a root that lists `x` and `k`. */
  lemma UnlinkSecond(t: Tree, r: TreeItem, x: TreeItem, k: TreeItem)
    requires r != x && x != k && r != k
    requires t.p2c.Keys == {r, x, k} && t.p2c[r] == Some([x, k]) && t.c2p == map[x := r, k := r]
    ensures var u := Unlink(t, k);
      && u.Success? && u.value.p2c.Keys == {r, x} && r in u.value.p2c && u.value.p2c[r] == Some([x])
      && u.value.c2p.Keys == {x} && u.value.c2p[x] == r
  {
    assert KidsIn(t.p2c, r) == [x, k];
    assert Without([x, k], k) == [x];
  }

  /** Unlinking `x`, the root's only child, leaves the root alone. */
  lemma UnlinkLast(t: Tree, r: TreeItem, x: TreeItem)
    requires r != x && t.p2c.Keys == {r, x} && r in t.p2c && t.p2c[r] == Some([x]) && t.c2p.Keys == {x} && t.c2p[x] == r
    ensures var u := Unlink(t, x); u.Success? && u.value.p2c.Keys == {r}
  {
    assert Without([x], x) == [];
  }

  /** The second pass of the reparent example. */
  lemma ReparentFetched(c: Config, t1: Tree, r: TreeItem, x: TreeItem, k: TreeItem, depth: nat)
    requires r != x && x != k && r != k
    requires t1.c2p == map[x := r, k := r] && r in t1.p2c && t1.p2c[r] == Some([x, k])
    ensures var p := ProcessAll(c, t1, [x], {x}, map[x := [k]], Reparent, depth);
      p.1 == Success([x]) && r in p.0.p2c && p.0.p2c[r] == Some([k, k])
  {
    var h := Handed(t1, [k], r);
    HandFetched(c, t1, r, x, k, depth);
    HandedTwice(t1, r, x, k);
    UnlinkTwice(h, r, x, k);
    ClearedThenUnlinked(c, t1, x, {x}, map[x := [k]], Reparent, depth, h, []);
    OnePass(c, t1, x, {x}, map[x := [k]], Reparent, depth);
    assert [] + [x] == [x];
  }

  /** A pass whose first half succeeds ends by unlinking the item and reporting it last. */
  lemma ClearedThenUnlinked(c: Config, t: Tree, x: TreeItem, items: set<TreeItem>, fetched: map<TreeItem, seq<TreeItem>>,
                            action: string, depth: nat, t1: Tree, removed: seq<TreeItem>)
    requires Cleared(c, t, x, items, fetched, action, depth) == (t1, Success(removed)) && x in t1.c2p
    ensures ProcessItem(c, t, x, items, fetched, action, depth) == (Unlink(t1, x).value, Success(removed + [x]))
  {
  }

  /** The loop over one item is the pass over it. */
  lemma OnePass(c: Config, t: Tree, x: TreeItem, items: set<TreeItem>, fetched: map<TreeItem, seq<TreeItem>>,
                action: string, depth: nat)
    ensures ProcessAll(c, t, [x], items, fetched, action, depth) == ProcessItem(c, t, x, items, fetched, action, depth)
  {
    var p1 := ProcessItem(c, t, x, items, fetched, action, depth);
    assert [x][1..] == [];
    if p1.1.Success? {
      assert p1.1.value + [] == p1.1.value;
    }
  }

  /** The reparent example hands the fetched `[k]` to the root. */
  lemma HandFetched(c: Config, t1: Tree, r: TreeItem, x: TreeItem, k: TreeItem, depth: nat)
    requires r != x && t1.c2p == map[x := r, k := r]
    ensures Cleared(c, t1, x, {x}, map[x := [k]], Reparent, depth) == (Handed(t1, [k], r), Success([]))
  {
    assert Climb(t1.c2p, {x}, r) == Success(r);
  }

  /** After the hand-over the root lists `x`, `k` and `k` again. */
  lemma HandedTwice(t1: Tree, r: TreeItem, x: TreeItem, k: TreeItem)
    requires t1.c2p == map[x := r, k := r] && r in t1.p2c && t1.p2c[r] == Some([x, k])
    ensures var h := Handed(t1, [k], r);
      x in h.c2p && h.c2p[x] == r && r in h.p2c && h.p2c[r] == Some([x, k, k])
  {
    assert KidsIn(t1.p2c, r) + [k] == [x, k, k];
  }

  /** Unlinking `x` from a root that lists `x`, `k` and `k` leaves it listing `k` twice. */
  lemma UnlinkTwice(h: Tree, r: TreeItem, x: TreeItem, k: TreeItem)
    requires r != x && x != k
    requires x in h.c2p && h.c2p[x] == r && r in h.p2c && h.p2c[r] == Some([x, k, k])
    ensures var u := Unlink(h, x);
      u.Success? && r in u.value.p2c && u.value.p2c[r] == Some([k, k])
  {
    assert KidsIn(h.p2c, r) == [x, k, k];
    assert Without([x, k, k], x) == [k, k];
  }
}

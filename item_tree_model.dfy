// treemodel's ItemTree and LazyItemTree, as values: the three dictionaries
// (parent to children, child to parent, key to item) that every operation
// keeps mutually consistent, the consistency itself, and what AddItems and
// the lazy children lookup do to them.

module ItemTreeModel {
  import opened Wrappers

  type Key = string

  /**
   * A TreeItem.  The tree's dictionaries hash items by object identity; `id`
   * stands for that identity, so two items may share a key and still differ.
   */
  datatype TreeItem = TreeItem(id: int, key: Key)

  /** The key of the root item a tree makes for itself. */
  const RootKey: Key := "__ROOT__"

  /** The exceptions the tree raises. */
  datatype TreeError = ItemLookupError | ValueError | KeyError | IndexError | RecursionError

  /** _parentToChildren: a child list, or LazyItemTree's `None` placeholder for unfetched children. */
  type Children = map<TreeItem, Option<seq<TreeItem>>>

  /** The three dictionaries of a tree. */
  datatype Tree = Tree(p2c: Children, c2p: map<TreeItem, TreeItem>, k2i: map<Key, TreeItem>)

  /**
   * What a tree's operations depend on besides its dictionaries: its root,
   * whether it is a LazyItemTree, the subclass's _FetchItemChildren, and
   * the blockUpdates flag.
   */
  datatype Config = Config(root: TreeItem, lazy: bool, fetch: TreeItem -> seq<TreeItem>, blockUpdates: bool)

  /** _MakeInitialChildrenValue: an empty list, or `None` in a LazyItemTree. */
  function Init(lazy: bool): Option<seq<TreeItem>> {
    if lazy then None else Some([])
  }

  predicate Distinct<T(==)>(s: seq<T>) {
    forall i, j | 0 <= i < j < |s| :: s[i] != s[j]
  }

  /** The children stored for `p`; a missing entry or the lazy placeholder reads as none. */
  function KidsIn(p2c: Children, p: TreeItem): seq<TreeItem> {
    if p in p2c && p2c[p].Some? then p2c[p].value else []
  }

  /** The root is the one tree item without a parent. */
  ghost predicate Rooted(root: TreeItem, p2c: Children, c2p: map<TreeItem, TreeItem>) {
    root in p2c && root !in c2p && c2p.Keys == p2c.Keys - {root}
  }

  /** Every item's parent is in the tree and lists it. */
  ghost predicate ParentsList(p2c: Children, c2p: map<TreeItem, TreeItem>) {
    forall c {:trigger c2p[c]} | c in c2p :: c2p[c] in p2c && c in KidsIn(p2c, c2p[c])
  }

  /** Every listed child names the lister as its parent. */
  ghost predicate ListsParent(p2c: Children, c2p: map<TreeItem, TreeItem>) {
    forall p, c | p in p2c && c in KidsIn(p2c, p) :: c in c2p && c2p[c] == p
  }

  /** No child is listed twice. */
  ghost predicate ListsDistinct(p2c: Children) {
    forall p | p in p2c :: Distinct(KidsIn(p2c, p))
  }

  /** Every non-root item has exactly one parent, which lists it exactly once. */
  ghost predicate Linked(root: TreeItem, p2c: Children, c2p: map<TreeItem, TreeItem>) {
    Rooted(root, p2c, c2p) && ParentsList(p2c, c2p) && ListsParent(p2c, c2p) && ListsDistinct(p2c)
  }

  /** The key dictionary is a bijection between the keys and the tree's items. */
  ghost predicate Keyed(p2c: Children, k2i: map<Key, TreeItem>) {
    && (forall i | i in p2c :: i.key in k2i && k2i[i.key] == i)
    && (forall k | k in k2i :: k2i[k] in p2c && k2i[k].key == k)
  }

  /**
   * A rank that grows strictly from parent to child, so the parent links
   * have no cycle; only a lazy tree stores the `None` placeholder.
   */
  ghost predicate Ranked(lazy: bool, p2c: Children, c2p: map<TreeItem, TreeItem>, rank: map<TreeItem, nat>) {
    && p2c.Keys <= rank.Keys
    && (forall c {:trigger c2p[c]} | c in c2p :: c in rank && c2p[c] in rank && rank[c2p[c]] < rank[c])
    && (!lazy ==> forall p | p in p2c :: p2c[p].Some?)
  }

  /** The consistency of the three dictionaries, with `rank` witnessing that the parent links are acyclic. */
  ghost predicate Wf(root: TreeItem, lazy: bool, t: Tree, rank: map<TreeItem, nat>) {
    Linked(root, t.p2c, t.c2p) && Keyed(t.p2c, t.k2i) && Ranked(lazy, t.p2c, t.c2p, rank)
  }

  /** The dictionaries are consistent and describe a tree. */
  ghost predicate Sound(root: TreeItem, lazy: bool, t: Tree) {
    exists rank :: Wf(root, lazy, t, rank)
  }

  /** What the constructor makes: the root alone, registered under its key. */
  function Fresh(root: TreeItem, lazy: bool): (t: Tree)
    ensures Sound(root, lazy, t)
    ensures t.p2c.Keys == {root} && t.c2p == map[] && t.k2i == map[root.key := root]
  {
    var t := Tree(map[root := Init(lazy)], map[], map[root.key := root]);
    assert Wf(root, lazy, t, map[root := 0]);
    t
  }

  // ----- AddItems' validation pass -----

  /**
   * The incoming items that are not yet anybody's child, in order, or the
   * ValueError raised by the first one whose key shadows a key in `keys` or
   * repeats a key of an earlier incoming item (`newKeys`).
   */
  function Incoming(items: seq<TreeItem>, placed: set<TreeItem>, keys: set<Key>, newKeys: set<Key>)
    : Result<seq<TreeItem>, TreeError>
    decreases |items|
  {
    if items == [] then Success([])
    else if items[0] in placed then Incoming(items[1..], placed, keys, newKeys)
    else if items[0].key in keys || items[0].key in newKeys then Failure(ValueError)
    else
      match Incoming(items[1..], placed, keys, newKeys + {items[0].key})
      case Success(rest) => Success([items[0]] + rest)
      case Failure(e) => Failure(e)
  }

  /** `r` with `xs` in front of its items. */
  function Prefixed(xs: seq<TreeItem>, r: Result<seq<TreeItem>, TreeError>): Result<seq<TreeItem>, TreeError> {
    match r
    case Success(rest) => Success(xs + rest)
    case Failure(e) => Failure(e)
  }

  lemma PrefixedNil(r: Result<seq<TreeItem>, TreeError>)
    ensures Prefixed([], r) == r
  {
    if r.Success? {
      assert [] + r.value == r.value;
    }
  }

  /** The items of `items` not in `placed`, in order. */
  function Unplaced(items: seq<TreeItem>, placed: set<TreeItem>): seq<TreeItem>
    decreases |items|
  {
    if items == [] then []
    else (if items[0] in placed then [] else [items[0]]) + Unplaced(items[1..], placed)
  }

  /** Validation succeeds exactly when no unplaced key shadows or repeats, and then yields the unplaced items. */
  lemma {:induction false} IncomingSpec(items: seq<TreeItem>, placed: set<TreeItem>, keys: set<Key>, newKeys: set<Key>)
    ensures Incoming(items, placed, keys, newKeys).Success? <==>
      (forall i | 0 <= i < |items| && items[i] !in placed :: items[i].key !in keys && items[i].key !in newKeys)
      && (forall i, j | 0 <= i < j < |items| && items[i] !in placed && items[j] !in placed :: items[i].key != items[j].key)
    ensures Incoming(items, placed, keys, newKeys).Success? ==>
      Incoming(items, placed, keys, newKeys).value == Unplaced(items, placed)
    decreases |items|
  {
    if items != [] {
      var t := items[1..];
      assert forall i | 1 <= i < |items| :: items[i] == t[i - 1];
      if items[0] in placed {
        IncomingSpec(t, placed, keys, newKeys);
      } else {
        IncomingSpec(t, placed, keys, newKeys + {items[0].key});
      }
    }
  }

  /** What validation lets through is new to the tree, with distinct fresh keys. */
  lemma {:induction false} IncomingFresh(items: seq<TreeItem>, placed: set<TreeItem>, keys: set<Key>, newKeys: set<Key>)
    requires Incoming(items, placed, keys, newKeys).Success?
    ensures var r := Incoming(items, placed, keys, newKeys).value;
      (forall x | x in r :: x in items && x !in placed && x.key !in keys && x.key !in newKeys)
      && (forall i, j | 0 <= i < j < |r| :: r[i].key != r[j].key)
    decreases |items|
  {
    if items != [] {
      if items[0] in placed {
        IncomingFresh(items[1..], placed, keys, newKeys);
      } else {
        IncomingFresh(items[1..], placed, keys, newKeys + {items[0].key});
      }
    }
  }

  /** The key dictionary entries written for `items`, one after the other. */
  function KeyIndex(items: seq<TreeItem>): map<Key, TreeItem>
    decreases |items|
  {
    if items == [] then map[] else KeyIndex(items[..|items| - 1])[items[|items| - 1].key := items[|items| - 1]]
  }

  /** `m` with every item of `xs` added, or reset, with value `v`. */
  function Attach<V>(m: map<TreeItem, V>, xs: seq<TreeItem>, v: V): (r: map<TreeItem, V>)
    ensures forall y :: y in r <==> y in m || y in xs
    ensures forall y | y in r :: r[y] == if y in xs then v else m[y]
    decreases |xs|
  {
    if xs == [] then m else Attach(m, xs[..|xs| - 1], v)[xs[|xs| - 1] := v]
  }

  /** Writing one more item's key. */
  lemma KeyIndexSnoc(k2i: map<Key, TreeItem>, xs: seq<TreeItem>, x: TreeItem)
    ensures k2i + KeyIndex(xs + [x]) == (k2i + KeyIndex(xs))[x.key := x]
  {
    assert (xs + [x])[..|xs|] == xs;
  }

  /** Attaching one more item of `xs`. */
  lemma AttachSnoc<V>(m: map<TreeItem, V>, xs: seq<TreeItem>, j: nat, v: V)
    requires j < |xs|
    ensures Attach(m, xs[..j + 1], v) == Attach(m, xs[..j], v)[xs[j] := v]
  {
    assert xs[..j + 1][..j] == xs[..j];
  }

  /** Updating an item outside `xs` commutes with attaching `xs`. */
  lemma AttachUpdate<V>(m: map<TreeItem, V>, xs: seq<TreeItem>, x: TreeItem, u: V, v: V)
    requires x !in xs
    ensures Attach(m, xs, v)[x := u] == Attach(m[x := u], xs, v)
  {
  }

  lemma {:induction false} KeyIndexSpec(items: seq<TreeItem>)
    requires forall i, j | 0 <= i < j < |items| :: items[i].key != items[j].key
    ensures KeyIndex(items).Keys == set x | x in items :: x.key
    ensures forall x | x in items :: KeyIndex(items)[x.key] == x
    decreases |items|
  {
    if items != [] {
      var init := items[..|items| - 1];
      KeyIndexSpec(init);
      assert forall x | x in items :: x in init || x == items[|items| - 1];
    }
  }

  /** A map whose values are pairwise distinct has as many values as keys. */
  lemma {:induction false} InjectiveCard(m: map<Key, TreeItem>)
    requires forall a, b | a in m && b in m && m[a] == m[b] :: a == b
    ensures |m.Keys| == |m.Values|
    decreases |m.Keys|
  {
    if m != map[] {
      var k :| k in m;
      var m' := m - {k};
      InjectiveCard(m');
      forall v | v in m.Values - {m[k]} ensures v in m'.Values {
        var a :| a in m && m[a] == v;
        assert m'[a] == v;
      }
      forall v | v in m'.Values ensures v in m.Values - {m[k]} {
        var a :| a in m' && m'[a] == v;
        assert m[a] == v;
      }
      assert m'.Values == m.Values - {m[k]};
      assert m.Keys == m'.Keys + {k};
    }
  }

  // Linking fresh items under `p`, with the new dictionaries described entry by entry.

  lemma AddParentsList(p2c: Children, c2p: map<TreeItem, TreeItem>, p: TreeItem,
                       newItems: seq<TreeItem>, p2c': Children, c2p': map<TreeItem, TreeItem>)
    requires ParentsList(p2c, c2p) && p in p2c && forall x | x in newItems :: x !in p2c
    requires forall q :: q in p2c' <==> q in p2c || q in newItems
    requires KidsIn(p2c', p) == KidsIn(p2c, p) + newItems
    requires forall q | q in p2c && q != p && q !in newItems :: KidsIn(p2c', q) == KidsIn(p2c, q)
    requires forall q :: q in c2p' <==> q in c2p || q in newItems
    requires forall c {:trigger c2p'[c]} | c in c2p && c !in newItems :: c2p'[c] == c2p[c]
    requires forall x | x in newItems :: c2p'[x] == p
    ensures ParentsList(p2c', c2p')
  {
    forall c | c in c2p' ensures c2p'[c] in p2c' && c in KidsIn(p2c', c2p'[c]) {
      if c in newItems {
        assert c2p'[c] == p;
        assert c in KidsIn(p2c', p);
      } else {
        assert c in c2p && c2p'[c] == c2p[c];
        var q := c2p[c];
        assert c in KidsIn(p2c, q);
        if q != p { assert q !in newItems; assert KidsIn(p2c', q) == KidsIn(p2c, q); }
      }
    }
  }

  lemma AddListsParent(p2c: Children, c2p: map<TreeItem, TreeItem>, p: TreeItem,
                       newItems: seq<TreeItem>, p2c': Children, c2p': map<TreeItem, TreeItem>)
    requires ListsParent(p2c, c2p) && p in p2c && p !in newItems
    requires forall q :: q in p2c' <==> q in p2c || q in newItems
    requires KidsIn(p2c', p) == KidsIn(p2c, p) + newItems
    requires forall q | q in p2c && q != p && q !in newItems :: KidsIn(p2c', q) == KidsIn(p2c, q)
    requires forall x | x in newItems :: KidsIn(p2c', x) == []
    requires forall q :: q in c2p' <==> q in c2p || q in newItems
    requires forall c {:trigger c2p'[c]} | c in c2p && c !in newItems :: c2p'[c] == c2p[c]
    requires forall x | x in newItems :: c2p'[x] == p
    requires forall x | x in newItems :: x !in c2p
    ensures ListsParent(p2c', c2p')
  {
    forall q, c | q in p2c' && c in KidsIn(p2c', q) ensures c in c2p' && c2p'[c] == q {
      if q == p {
        var s := KidsIn(p2c, p);
        assert c in s + newItems;
        if c in s {
          assert c in c2p && c2p[c] == p;
          assert c2p'[c] == c2p[c];
        } else {
          assert c in newItems;
        }
      } else if q in p2c {
        assert KidsIn(p2c', q) == KidsIn(p2c, q);
        assert c in c2p && c2p[c] == q;
        assert c2p'[c] == c2p[c];
      } else {
        assert false;
      }
    }
  }

  lemma AddListsDistinct(p2c: Children, c2p: map<TreeItem, TreeItem>, p: TreeItem,
                         newItems: seq<TreeItem>, p2c': Children)
    requires ListsDistinct(p2c) && ListsParent(p2c, c2p) && p in p2c && forall x | x in newItems :: x !in p2c
    requires forall x | x in newItems :: x !in c2p
    requires Distinct(newItems)
    requires forall q :: q in p2c' <==> q in p2c || q in newItems
    requires KidsIn(p2c', p) == KidsIn(p2c, p) + newItems
    requires forall q | q in p2c && q != p && q !in newItems :: KidsIn(p2c', q) == KidsIn(p2c, q)
    requires forall x | x in newItems :: KidsIn(p2c', x) == []
    ensures ListsDistinct(p2c')
  {
    assert Distinct(KidsIn(p2c', p)) by {
      var s := KidsIn(p2c, p);
      forall i, j | 0 <= i < j < |s + newItems| ensures (s + newItems)[i] != (s + newItems)[j] {
        if j >= |s| && i < |s| {
          assert s[i] in c2p;
        }
      }
    }
    forall q | q in p2c' ensures Distinct(KidsIn(p2c', q)) {
      if q != p && q in p2c { assert q !in newItems; assert KidsIn(p2c', q) == KidsIn(p2c, q); }
    }
  }

  lemma AddLinked(root: TreeItem, p2c: Children, c2p: map<TreeItem, TreeItem>, p: TreeItem,
                  newItems: seq<TreeItem>, p2c': Children, c2p': map<TreeItem, TreeItem>)
    requires Linked(root, p2c, c2p) && p in p2c
    requires forall x | x in newItems :: x !in p2c
    requires Distinct(newItems)
    requires forall q :: q in p2c' <==> q in p2c || q in newItems
    requires KidsIn(p2c', p) == KidsIn(p2c, p) + newItems
    requires forall q | q in p2c && q != p && q !in newItems :: KidsIn(p2c', q) == KidsIn(p2c, q)
    requires forall x | x in newItems :: KidsIn(p2c', x) == []
    requires forall q :: q in c2p' <==> q in c2p || q in newItems
    requires forall c {:trigger c2p'[c]} | c in c2p && c !in newItems :: c2p'[c] == c2p[c]
    requires forall x | x in newItems :: c2p'[x] == p
    ensures Linked(root, p2c', c2p')
  {
    assert p !in newItems;
    assert forall x | x in newItems :: x !in c2p;
    AddParentsList(p2c, c2p, p, newItems, p2c', c2p');
    AddListsParent(p2c, c2p, p, newItems, p2c', c2p');
    AddListsDistinct(p2c, c2p, p, newItems, p2c');
    AddRooted(root, p2c, c2p, newItems, p2c', c2p');
  }

  lemma AddRooted(root: TreeItem, p2c: Children, c2p: map<TreeItem, TreeItem>,
                  newItems: seq<TreeItem>, p2c': Children, c2p': map<TreeItem, TreeItem>)
    requires Rooted(root, p2c, c2p)
    requires forall x | x in newItems :: x !in p2c
    requires forall q :: q in p2c' <==> q in p2c || q in newItems
    requires forall q :: q in c2p' <==> q in c2p || q in newItems
    ensures Rooted(root, p2c', c2p')
  {
    assert root !in newItems;
    assert c2p'.Keys == p2c'.Keys - {root};
  }

  lemma AddKeyed(p2c: Children, k2i: map<Key, TreeItem>, p: TreeItem, newItems: seq<TreeItem>, init: Option<seq<TreeItem>>)
    requires Keyed(p2c, k2i) && p in p2c
    requires forall x | x in newItems :: x.key !in k2i
    requires forall i, j | 0 <= i < j < |newItems| :: newItems[i].key != newItems[j].key
    ensures Keyed(Attach(p2c[p := Some(KidsIn(p2c, p) + newItems)], newItems, init),
                  k2i + KeyIndex(newItems))
  {
    var p2c' := Attach(p2c[p := Some(KidsIn(p2c, p) + newItems)], newItems, init);
    var k2i' := k2i + KeyIndex(newItems);
    KeyIndexSpec(newItems);
    assert members: forall i :: i in p2c' <==> i in p2c || i in newItems;
    forall i | i in p2c' ensures i.key in k2i' && k2i'[i.key] == i {
      if i !in newItems {
        assert i in p2c;
        assert i.key !in KeyIndex(newItems);
      }
    }
    forall k | k in k2i' ensures k2i'[k] in p2c' && k2i'[k].key == k {
      if k in KeyIndex(newItems) {
        var x :| x in newItems && x.key == k;
        assert k2i'[k] == x;
      } else {
        assert k2i'[k] == k2i[k];
      }
    }
  }


  lemma AddRanked(lazy: bool, p2c: Children, c2p: map<TreeItem, TreeItem>, rank: map<TreeItem, nat>,
                  p: TreeItem, newItems: seq<TreeItem>, init: Option<seq<TreeItem>>)
    requires Ranked(lazy, p2c, c2p, rank) && p in p2c
    requires forall c | c in c2p :: c2p[c] in p2c
    requires forall x | x in newItems :: x !in p2c && x !in c2p
    requires !lazy ==> init.Some?
    ensures Ranked(lazy, Attach(p2c[p := Some(KidsIn(p2c, p) + newItems)], newItems, init),
                   Attach(c2p, newItems, p),
                   Attach<nat>(rank, newItems, rank[p] + 1))
  {
    var p2c' := Attach(p2c[p := Some(KidsIn(p2c, p) + newItems)], newItems, init);
    var c2p' := Attach(c2p, newItems, p);
    var rank' := Attach<nat>(rank, newItems, rank[p] + 1);
    assert p2c'.Keys <= rank'.Keys;
    forall c | c in c2p' ensures c in rank' && c2p'[c] in rank' && rank'[c2p'[c]] < rank'[c] {
      if c in newItems {
        assert c2p'[c] == p && rank'[p] == rank[p];
      } else {
        assert c2p'[c] == c2p[c] && c2p[c] !in newItems;
      }
    }
    if !lazy {
      forall q | q in p2c' ensures p2c'[q].Some? {
        if q !in newItems && q != p { assert q in p2c; }
      }
    }
  }

  /** The dictionaries after adding fresh items under `p`, entry by entry. */
  lemma AddShape(p2c: Children, c2p: map<TreeItem, TreeItem>, p: TreeItem, newItems: seq<TreeItem>,
                 init: Option<seq<TreeItem>>)
    requires p in p2c && p !in newItems && (init.Some? ==> init.value == [])
    ensures var p2c' := Attach(p2c[p := Some(KidsIn(p2c, p) + newItems)], newItems, init);
      && (forall q :: q in p2c' <==> q in p2c || q in newItems)
      && KidsIn(p2c', p) == KidsIn(p2c, p) + newItems
      && (forall q | q in p2c && q != p && q !in newItems :: KidsIn(p2c', q) == KidsIn(p2c, q))
      && (forall x | x in newItems :: KidsIn(p2c', x) == [])
    ensures var c2p' := Attach(c2p, newItems, p);
      && (forall q :: q in c2p' <==> q in c2p || q in newItems)
      && (forall c {:trigger c2p'[c]} | c in c2p && c !in newItems :: c2p'[c] == c2p[c])
      && (forall x | x in newItems :: c2p'[x] == p)
  {
  }

  // ----- AddItems -----

  /** The registration loop of AddItems: each new item keyed, given its initial children and parented under `p`. */
  function Registered(t: Tree, p: TreeItem, newItems: seq<TreeItem>, init: Option<seq<TreeItem>>): Tree {
    Tree(Attach(t.p2c, newItems, init), Attach(t.c2p, newItems, p), t.k2i + KeyIndex(newItems))
  }

  /** The end of AddItems: `p`'s children, an empty list if unfetched, extended by the new items. */
  function Extended(t: Tree, p: TreeItem, newItems: seq<TreeItem>): Tree {
    t.(p2c := t.p2c[p := Some(KidsIn(t.p2c, p) + newItems)])
  }

  /**
   * AddItems(items, parent): the dictionaries afterwards and the newly added
   * items, or the error raised.  Validation happens before any change; an
   * implicit root parent is not looked up until the very end.
   */
  function AddItemsOf(c: Config, t: Tree, items: seq<TreeItem>, parent: Option<TreeItem>)
    : (Tree, Result<seq<TreeItem>, TreeError>)
  {
    if items == [] then (t, Success([]))
    else if parent.Some? && parent.value !in t.p2c then (t, Failure(ItemLookupError))
    else match Incoming(items, t.c2p.Keys, t.k2i.Keys, {})
      case Failure(e) => (t, Failure(e))
      case Success(newItems) =>
        var p := if parent.Some? then parent.value else c.root;
        var t1 := Registered(t, p, newItems, Init(c.lazy));
        if p in t1.p2c then (Extended(t1, p, newItems), Success(newItems)) else (t1, Failure(KeyError))
  }

  /** Adding validated items under a tree item keeps the dictionaries consistent. */
  lemma AddWf(root: TreeItem, lazy: bool, t: Tree, rank: map<TreeItem, nat>, p: TreeItem, newItems: seq<TreeItem>)
    requires Wf(root, lazy, t, rank) && p in t.p2c
    requires forall x | x in newItems :: x.key !in t.k2i
    requires forall i, j | 0 <= i < j < |newItems| :: newItems[i].key != newItems[j].key
    ensures Wf(root, lazy, Extended(Registered(t, p, newItems, Init(lazy)), p, newItems),
               Attach<nat>(rank, newItems, rank[p] + 1))
  {
    var init := Init(lazy);
    assert forall x | x in newItems :: x !in t.p2c && x !in t.c2p by {
      forall x | x in newItems ensures x !in t.p2c && x !in t.c2p {
        assert x.key !in t.k2i;
      }
    }
    assert Distinct(newItems) by {
      forall i, j | 0 <= i < j < |newItems| ensures newItems[i] != newItems[j] {
        assert newItems[i].key != newItems[j].key;
      }
    }
    assert p !in newItems;
    var extended := Some(KidsIn(t.p2c, p) + newItems);
    AttachUpdate(t.p2c, newItems, p, extended, init);
    var p2c' := Attach(t.p2c[p := extended], newItems, init);
    assert Extended(Registered(t, p, newItems, init), p, newItems).p2c == p2c';
    AddShape(t.p2c, t.c2p, p, newItems, init);
    AddLinked(root, t.p2c, t.c2p, p, newItems, p2c', Attach(t.c2p, newItems, p));
    AddKeyed(t.p2c, t.k2i, p, newItems, init);
    AddRanked(lazy, t.p2c, t.c2p, rank, p, newItems, init);
  }

  /** AddItems keeps a sound tree sound, whatever it returns. */
  lemma AddItemsSound(c: Config, t: Tree, items: seq<TreeItem>, parent: Option<TreeItem>)
    requires Sound(c.root, c.lazy, t)
    ensures Sound(c.root, c.lazy, AddItemsOf(c, t, items, parent).0)
  {
    var rank :| Wf(c.root, c.lazy, t, rank);
    if items != [] && !(parent.Some? && parent.value !in t.p2c) {
      var r := Incoming(items, t.c2p.Keys, t.k2i.Keys, {});
      if r.Success? {
        var p := if parent.Some? then parent.value else c.root;
        IncomingFresh(items, t.c2p.Keys, t.k2i.Keys, {});
        AddWf(c.root, c.lazy, t, rank, p, r.value);
      }
    }
  }

  // ----- _GetItemChildren -----

  /**
   * _GetItemChildren(p): the stored children, or ItemLookupError for an item
   * not in the tree.  LazyItemTree's `None` placeholder reads as no children
   * while updates are blocked; otherwise it is replaced by an empty list,
   * the children are fetched, added under `p` when there are any, and the
   * fetched list is returned.
   */
  function ChildrenOf(c: Config, t: Tree, p: TreeItem): (Tree, Result<seq<TreeItem>, TreeError>) {
    if p !in t.p2c then (t, Failure(ItemLookupError))
    else match t.p2c[p]
      case Some(kids) => (t, Success(kids))
      case None =>
        if !c.lazy || c.blockUpdates then (t, Success([]))
        else
          var t1 := t.(p2c := t.p2c[p := Some([])]);
          var fetched := c.fetch(p);
          if fetched == [] then (t1, Success(fetched))
          else
            var (t2, r) := AddItemsOf(c, t1, fetched, Some(p));
            (t2, if r.Failure? then Failure(r.error) else Success(fetched))
  }

  /** Whether asking for `p`'s children runs the fetch. */
  predicate Fetches(c: Config, t: Tree, p: TreeItem) {
    c.lazy && !c.blockUpdates && p in t.p2c && t.p2c[p].None?
  }

  /**
   * A lookup that does not fetch changes nothing and returns the stored
   * children; one that fetches leaves `p` holding a list, so the next lookup
   * does not fetch again.
   */
  lemma ChildrenFetchOnce(c: Config, t: Tree, p: TreeItem)
    ensures !Fetches(c, t, p) ==> ChildrenOf(c, t, p).0 == t
    ensures !Fetches(c, t, p) && p in t.p2c ==> ChildrenOf(c, t, p).1 == Success(KidsIn(t.p2c, p))
    ensures p !in t.p2c ==> ChildrenOf(c, t, p).1 == Failure(ItemLookupError)
    ensures Fetches(c, t, p) ==>
      var t' := ChildrenOf(c, t, p).0;
      p in t'.p2c && t'.p2c[p].Some? && !Fetches(c, t', p)
  {
    if Fetches(c, t, p) {
      var t1 := t.(p2c := t.p2c[p := Some([])]);
      var fetched := c.fetch(p);
      if fetched != [] {
        var r := Incoming(fetched, t1.c2p.Keys, t1.k2i.Keys, {});
        if r.Success? {
          assert Registered(t1, p, r.value, Init(c.lazy)).p2c.Keys >= t1.p2c.Keys;
        }
      }
    }
  }

  /** With updates blocked, asking for unfetched children yields none and changes nothing. */
  lemma ChildrenBlocked(c: Config, t: Tree, p: TreeItem)
    requires c.blockUpdates && p in t.p2c && t.p2c[p].None?
    ensures ChildrenOf(c, t, p) == (t, Success([]))
  {
  }

  /** Looking children up, fetching included, keeps a sound tree sound. */
  lemma ChildrenSound(c: Config, t: Tree, p: TreeItem)
    requires Sound(c.root, c.lazy, t)
    ensures Sound(c.root, c.lazy, ChildrenOf(c, t, p).0)
  {
    if Fetches(c, t, p) {
      var rank :| Wf(c.root, c.lazy, t, rank);
      var t1 := t.(p2c := t.p2c[p := Some([])]);
      EmptyListWf(c.root, c.lazy, t, rank, p);
      if c.fetch(p) != [] {
        AddItemsSound(c, t1, c.fetch(p), Some(p));
      }
    }
  }

  /** Marking an unfetched item as having no children keeps the tree
      well formed. */
  lemma EmptyListWf(root: TreeItem, lazy: bool, t: Tree, rank: map<TreeItem, nat>, p: TreeItem)
    requires Wf(root, lazy, t, rank) && p in t.p2c && t.p2c[p].None?
    ensures Wf(root, lazy, t.(p2c := t.p2c[p := Some([])]), rank)
  {
    var t1 := t.(p2c := t.p2c[p := Some([])]);
    assert forall q :: KidsIn(t1.p2c, q) == KidsIn(t.p2c, q);
  }
}

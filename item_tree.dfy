// treemodel's ItemTree and LazyItemTree as a class over the three
// dictionaries.  Every method leaves the dictionaries, and returns, what the
// function of the same operation in ItemTreeModel, ItemTreeRemoval or
// ItemTreeQueries gives for the dictionaries it started from; the
// properties of those functions are proved there.

module ItemTrees {
  import opened Wrappers
  import opened ItemTreeModel
  import opened ItemTreeRemoval
  import opened ItemTreeQueries

  /** `r` with `xs` in front of the removed items it reports. */
  function Joined(xs: seq<TreeItem>, r: (Tree, Result<seq<TreeItem>, TreeError>)): (Tree, Result<seq<TreeItem>, TreeError>) {
    (r.0, Prefixed(xs, r.1))
  }

  /** RemoveItems with a known action and some item other than the root:
      the first pass, then, if it found every item, the second. */
  lemma RemoveSplit(c: Config, t: Tree, items: seq<TreeItem>, action: string, depth: nat)
    requires (action == Delete || action == Reparent) && Unique(items, {c.root}) != []
    ensures var xs := Unique(items, {c.root});
      var p := Prefetch(c, t, xs, map[]);
      RemoveOf(c, t, items, action, depth)
        == if p.2.Some? then (p.0, Failure(p.2.value)) else ProcessAll(c, p.0, xs, set x | x in xs :: x, p.1, action, depth)
  {
  }

  /** One item of the first pass of RemoveItems: a failed lookup ends it
      with that error, otherwise it goes on from the tree the lookup left,
      with the list recorded when the lookup fetched. */
  lemma PrefetchStep(c: Config, t: Tree, xs: seq<TreeItem>, i: nat, fetched: map<TreeItem, seq<TreeItem>>,
                     t': Tree, kids: Result<seq<TreeItem>, TreeError>)
    requires i < |xs| && (t', kids) == ChildrenOf(c, t, xs[i])
    ensures Prefetch(c, t, xs[i..], fetched)
      == if kids.Failure? then (t', fetched, Some(kids.error))
         else Prefetch(c, t', xs[i + 1..], if Fetches(c, t, xs[i]) then fetched[xs[i] := kids.value] else fetched)
  {
    assert xs[i..][1..] == xs[i + 1..];
  }

  /** One item of the second pass of RemoveItems, with `removed` reported
      before it: a failure ends the pass with that failure, a success adds
      what went to `removed`. */
  lemma ProcessStep(c: Config, t: Tree, xs: seq<TreeItem>, j: nat, items: set<TreeItem>,
                    fetched: map<TreeItem, seq<TreeItem>>, action: string, depth: nat,
                    removed: seq<TreeItem>, t': Tree, one: Result<seq<TreeItem>, TreeError>)
    requires j < |xs| && (t', one) == ProcessItem(c, t, xs[j], items, fetched, action, depth)
    ensures Joined(removed, ProcessAll(c, t, xs[j..], items, fetched, action, depth))
      == if one.Failure? then (t', one)
         else Joined(removed + one.value, ProcessAll(c, t', xs[j + 1..], items, fetched, action, depth))
  {
    assert xs[j..][1..] == xs[j + 1..] && xs[j..][0] == xs[j];
    var after := ProcessAll(c, t', xs[j + 1..], items, fetched, action, depth);
    if one.Success? && after.1.Success? {
      assert removed + (one.value + after.1.value) == (removed + one.value) + after.1.value;
    }
  }

  /** `w` with `ys` yielded before its items. */
  function Resumed(ys: seq<TreeItem>, w: Walked): Walked {
    w.(items := ys + w.items)
  }

  /** One draw of the walk: the head's children are looked up, then it is yielded and they are queued. */
  lemma WalkDraw(c: Config, t: Tree, queue: seq<TreeItem>, limit: nat, l: nat)
    requires queue != [] && l + 1 == limit
    ensures var p := ChildrenOf(c, t, queue[0]);
      Walk(c, t, queue, limit)
        == if p.1.Failure? then Walked(p.0, [], Some(p.1.error))
           else Resumed([queue[0]], Walk(c, p.0, queue[1..] + p.1.value, l))
  {
  }

  /** The walking loop keeps its invariant across one draw. */
  lemma WalkAdvance(c: Config, t: Tree, queue: seq<TreeItem>, l: nat, items: seq<TreeItem>, target: Walked)
    requires queue != [] && target == Resumed(items, Walk(c, t, queue, l + 1))
    ensures var p := ChildrenOf(c, t, queue[0]);
      if p.1.Failure? then target == Walked(p.0, items, Some(p.1.error))
      else target == Resumed(items + [queue[0]], Walk(c, p.0, queue[1..] + p.1.value, l))
  {
    WalkDraw(c, t, queue, l + 1, l);
    var p := ChildrenOf(c, t, queue[0]);
    if p.1.Success? {
      var w := Walk(c, p.0, queue[1..] + p.1.value, l);
      assert items + ([queue[0]] + w.items) == (items + [queue[0]]) + w.items;
    }
  }

  class ItemTree {
    const root: TreeItem
    /** Whether this is a LazyItemTree. */
    const lazy: bool
    /** A LazyItemTree subclass's _FetchItemChildren. */
    const fetch: TreeItem -> seq<TreeItem>
    /** How deep RemoveItems may recurse before Python's recursion limit. */
    const recursionLimit: nat
    var parentToChildren: Children
    var childToParent: map<TreeItem, TreeItem>
    var keyToItem: map<Key, TreeItem>
    /** LazyItemTree.blockUpdates: while set, unfetched children read as none. */
    var blockUpdates: bool

    /** The three dictionaries. */
    function State(): Tree
      reads this
    {
      Tree(parentToChildren, childToParent, keyToItem)
    }

    /** What the operations depend on besides the dictionaries. */
    function Cfg(): Config
      reads this
    {
      Config(root, lazy, fetch, blockUpdates)
    }

    /** A new tree holds only its root (a new `__ROOT__` item unless one is given), registered under its key. */
    constructor(rootItem: Option<TreeItem>, lazy: bool, fetch: TreeItem -> seq<TreeItem>, recursionLimit: nat)
      ensures root == (if rootItem.Some? then rootItem.value else TreeItem(0, RootKey))
      ensures Cfg() == Config(root, lazy, fetch, false) && this.recursionLimit == recursionLimit
      ensures State() == Fresh(root, lazy)
    {
      var r := if rootItem.Some? then rootItem.value else TreeItem(0, RootKey);
      root := r;
      this.lazy := lazy;
      this.fetch := fetch;
      this.recursionLimit := recursionLimit;
      parentToChildren := map[r := Init(lazy)];
      childToParent := map[];
      keyToItem := map[r.key := r];
      blockUpdates := false;
    }

    // ----- AddItems -----

    /**
     * The validation pass of AddItems: the incoming items not yet placed, in
     * order, or the ValueError raised for a key that shadows an existing one
     * or repeats an earlier incoming one.  Nothing is changed.
     */
    method NewItems(items: seq<TreeItem>) returns (r: Result<seq<TreeItem>, TreeError>)
      ensures r == Incoming(items, childToParent.Keys, keyToItem.Keys, {})
    {
      ghost var placed := childToParent.Keys;
      ghost var keys := keyToItem.Keys;
      assert items[0..] == items;
      PrefixedNil(Incoming(items, placed, keys, {}));
      var newItems: seq<TreeItem> := [];
      var newKeys: set<Key> := {};
      var i := 0;
      while i < |items|
        invariant 0 <= i <= |items|
        invariant Incoming(items, placed, keys, {}) == Prefixed(newItems, Incoming(items[i..], placed, keys, newKeys))
      {
        var item := items[i];
        assert items[i..][1..] == items[i + 1..];
        if item !in childToParent {
          var key := item.key;
          if key in keyToItem {
            return Failure(ValueError);
          }
          if key in newKeys {
            return Failure(ValueError);
          }
          ghost var rest := Incoming(items[i + 1..], placed, keys, newKeys + {key});
          assert rest.Success? ==> newItems + ([item] + rest.value) == (newItems + [item]) + rest.value;
          newKeys := newKeys + {key};
          newItems := newItems + [item];
        }
        i := i + 1;
      }
      assert items[|items|..] == [];
      assert newItems + [] == newItems;
      return Success(newItems);
    }

    /**
     * The registration pass of AddItems: each new item is keyed, given its
     * initial children value and parented under `p`.
     */
    method Register(p: TreeItem, newItems: seq<TreeItem>)
      modifies this
      ensures State() == Registered(old(State()), p, newItems, Init(lazy))
      ensures blockUpdates == old(blockUpdates)
    {
      var j := 0;
      while j < |newItems|
        invariant 0 <= j <= |newItems|
        invariant keyToItem == old(keyToItem) + KeyIndex(newItems[..j])
        invariant parentToChildren == Attach(old(parentToChildren), newItems[..j], Init(lazy))
        invariant childToParent == Attach(old(childToParent), newItems[..j], p)
        invariant blockUpdates == old(blockUpdates)
      {
        var item := newItems[j];
        assert newItems[..j + 1] == newItems[..j] + [item];
        KeyIndexSnoc(old(keyToItem), newItems[..j], item);
        AttachSnoc(old(parentToChildren), newItems, j, Init(lazy));
        AttachSnoc(old(childToParent), newItems, j, p);
        keyToItem := keyToItem[item.key := item];
        parentToChildren := parentToChildren[item := Init(lazy)];
        childToParent := childToParent[item := p];
        j := j + 1;
      }
      assert newItems[..j] == newItems;
    }

    /**
     * AddItems(items, parent): validates every incoming item before touching
     * anything, then registers the new ones under the parent (the root when
     * none is given), whose unfetched placeholder becomes a list they extend.
     */
    method AddItems(items: seq<TreeItem>, parent: Option<TreeItem>) returns (r: Result<seq<TreeItem>, TreeError>)
      modifies this
      ensures (State(), r) == old(AddItemsOf(Cfg(), State(), items, parent))
      ensures blockUpdates == old(blockUpdates)
    {
      if items == [] {
        return Success([]);
      }
      if parent.Some? && parent.value !in parentToChildren {
        return Failure(ItemLookupError);
      }
      var p := if parent.Some? then parent.value else root;
      r := NewItems(items);
      if r.Failure? {
        return;
      }
      Register(p, r.value);
      if p !in parentToChildren {
        return Failure(KeyError);
      }
      ghost var registered := parentToChildren;
      if parentToChildren[p].None? {
        parentToChildren := parentToChildren[p := Some([])];
      }
      parentToChildren := parentToChildren[p := Some(parentToChildren[p].value + r.value)];
      assert parentToChildren == registered[p := Some(KidsIn(registered, p) + r.value)];
    }

    // ----- Children lookups -----

    /**
     * _GetItemChildren(p): the stored children, or ItemLookupError.  In a
     * LazyItemTree an unfetched entry reads as none while updates are
     * blocked; otherwise it becomes an empty list and the fetched children
     * are added under `p`.
     */
    method GetItemChildren(p: TreeItem) returns (r: Result<seq<TreeItem>, TreeError>)
      modifies this
      ensures (State(), r) == old(ChildrenOf(Cfg(), State(), p))
      ensures blockUpdates == old(blockUpdates)
    {
      if p !in parentToChildren {
        return Failure(ItemLookupError);
      }
      var stored := parentToChildren[p];
      if stored.Some? {
        return Success(stored.value);
      }
      if !lazy || blockUpdates {
        return Success([]);
      }
      parentToChildren := parentToChildren[p := Some([])];
      var fetched := fetch(p);
      if fetched == [] {
        return Success(fetched);
      }
      var added := AddItems(fetched, Some(p));
      r := if added.Failure? then Failure(added.error) else Success(fetched);
    }

    /** Children(parent) (and IterChildren): the children of `parent`, the root by default. */
    method Children(parent: Option<TreeItem>) returns (r: Result<seq<TreeItem>, TreeError>)
      modifies this
      ensures (State(), r) == old(ChildrenUnder(Cfg(), State(), parent))
      ensures blockUpdates == old(blockUpdates)
    {
      r := GetItemChildren(if parent.Some? then parent.value else root);
    }

    /** ChildCount(parent): how many children `parent`, the root by default, has. */
    method ChildCount(parent: Option<TreeItem>) returns (r: Result<int, TreeError>)
      modifies this
      ensures (State(), r) == old(ChildCountOf(Cfg(), State(), parent))
      ensures blockUpdates == old(blockUpdates)
    {
      var kids := GetItemChildren(if parent.Some? then parent.value else root);
      r := if kids.Failure? then Failure(kids.error) else Success(|kids.value|);
    }

    /** ChildAtRow(parent, row): the child at `row`, counted from the end when negative. */
    method ChildAtRow(parent: TreeItem, row: int) returns (r: Result<TreeItem, TreeError>)
      modifies this
      ensures (State(), r) == old(ChildAtRowOf(Cfg(), State(), parent, row))
      ensures blockUpdates == old(blockUpdates)
    {
      var kids := GetItemChildren(parent);
      if kids.Failure? {
        return Failure(kids.error);
      }
      var s := kids.value;
      if 0 <= row < |s| {
        r := Success(s[row]);
      } else if -|s| <= row < 0 {
        r := Success(s[|s| + row]);
      } else {
        r := Failure(IndexError);
      }
    }

    /** RowIndex(item): the position of `item` among its parent's children. */
    method RowIndex(item: TreeItem) returns (r: Result<int, TreeError>)
      modifies this
      ensures (State(), r) == old(RowIndexOf(Cfg(), State(), item))
      ensures blockUpdates == old(blockUpdates)
    {
      if item !in childToParent {
        return Failure(ItemLookupError);
      }
      var kids := GetItemChildren(childToParent[item]);
      if kids.Failure? {
        return Failure(kids.error);
      }
      var s := kids.value;
      var i := 0;
      while i < |s| && s[i] != item
        invariant 0 <= i <= |s| && item !in s[..i]
      {
        assert s[..i + 1] == s[..i] + [s[i]];
        i := i + 1;
      }
      r := if i < |s| then Success(i) else Failure(ValueError);
      assert i == |s| ==> s[..i] == s;
    }

    // ----- RemoveItems -----

    /**
     * RemoveItems' `while newParent in items` climb from the parent of `x`
     * to its first ancestor outside `items`.  Nothing is changed.
     */
    method NewParent(x: TreeItem, items: set<TreeItem>) returns (r: Result<TreeItem, TreeError>)
      ensures r == if x in childToParent then Climb(childToParent, items, childToParent[x]) else Failure(KeyError)
    {
      if x !in childToParent {
        return Failure(KeyError);
      }
      var np := childToParent[x];
      var rest := items;
      while np in rest
        invariant Climb(childToParent, items, childToParent[x]) == Climb(childToParent, rest, np)
        decreases |rest|
      {
        if np !in childToParent {
          return Failure(KeyError);
        }
        rest, np := rest - {np}, childToParent[np];
      }
      return Success(np);
    }

    /** Appends `children` to the children of `np` and re-parents them under it. */
    method HandTo(children: seq<TreeItem>, np: TreeItem)
      modifies this
      ensures State() == Handed(old(State()), children, np)
      ensures blockUpdates == old(blockUpdates)
    {
      parentToChildren := parentToChildren[np := Some(KidsIn(parentToChildren, np) + children)];
      for j := 0 to |children|
        invariant childToParent == Attach(old(childToParent), children[..j], np)
        invariant parentToChildren == old(parentToChildren)[np := Some(KidsIn(old(parentToChildren), np) + children)]
        invariant keyToItem == old(keyToItem) && blockUpdates == old(blockUpdates)
      {
        assert children[..j + 1][..j] == children[..j];
        childToParent := childToParent[children[j] := np];
      }
      assert children[..|children|] == children;
    }

    /**
     * The end of a pass of RemoveItems' loop: `x` loses its parent, its
     * place in the parent's list, its key and its own entry; KeyError when
     * it has no parent.
     */
    method Detach(x: TreeItem) returns (r: Result<(), TreeError>)
      modifies this
      ensures r.Success? <==> Unlink(old(State()), x).Success?
      ensures r.Failure? ==> Unlink(old(State()), x) == Failure(r.error)
      ensures State() == if r.Success? then Unlink(old(State()), x).value else old(State())
      ensures blockUpdates == old(blockUpdates)
    {
      if x !in childToParent {
        return Failure(KeyError);
      }
      var itemParent := childToParent[x];
      childToParent := childToParent - {x};
      if itemParent in parentToChildren {
        parentToChildren := parentToChildren[itemParent := Some(Without(KidsIn(parentToChildren, itemParent), x))];
      }
      keyToItem := keyToItem - {x.key};
      parentToChildren := parentToChildren - {x};
      r := Success(());
    }

    /**
     * One pass of RemoveItems' loop for `x`: the children the first pass
     * looked up (the fetched list, or the list the tree holds now) are
     * deleted recursively or handed to its first ancestor outside `items`,
     * then `x` itself is unlinked and reported.
     */
    method RemoveOne(x: TreeItem, items: set<TreeItem>, fetched: map<TreeItem, seq<TreeItem>>, action: string, depth: nat)
      returns (r: Result<seq<TreeItem>, TreeError>)
      modifies this
      ensures (State(), r) == old(ProcessItem(Cfg(), State(), x, items, fetched, action, depth))
      ensures blockUpdates == old(blockUpdates)
      decreases depth, 0, 1
    {
      var cleared := ClearChildren(x, items, fetched, action, depth);
      if cleared.Failure? {
        return cleared;
      }
      var detached := Detach(x);
      if detached.Failure? {
        return Failure(detached.error);
      }
      r := Success(cleared.value + [x]);
    }

    /** The first half of one pass: `x`'s children are removed in delete
        mode, or handed to its nearest ancestor not being removed. */
    method ClearChildren(x: TreeItem, items: set<TreeItem>, fetched: map<TreeItem, seq<TreeItem>>, action: string, depth: nat)
      returns (r: Result<seq<TreeItem>, TreeError>)
      modifies this
      ensures (State(), r) == old(Cleared(Cfg(), State(), x, items, fetched, action, depth))
      ensures blockUpdates == old(blockUpdates)
      decreases depth, 0, 0
    {
      var children := LookedUp(State(), x, fetched);
      if children == [] {
        return Success([]);
      }
      if action == Delete {
        if depth == 0 {
          return Failure(RecursionError);
        }
        r := RemoveItemsTo(children, Delete, depth - 1);
      } else {
        var np := NewParent(x, items);
        if np.Failure? {
          return Failure(np.error);
        }
        HandTo(children, np.value);
        r := Success([]);
      }
    }

    /** The first pass of RemoveItems: each item's children are looked up
        in turn, stopping at the first error; the lists that lookups fetched
        are kept, keyed by their item. */
    method PrefetchItems(xs: seq<TreeItem>) returns (fetched: map<TreeItem, seq<TreeItem>>, e: Option<TreeError>)
      modifies this
      ensures (State(), fetched, e) == old(Prefetch(Cfg(), State(), xs, map[]))
      ensures blockUpdates == old(blockUpdates)
    {
      ghost var c := Cfg();
      ghost var t0 := State();
      fetched := map[];
      assert xs[0..] == xs;
      for i := 0 to |xs|
        invariant Prefetch(c, t0, xs, map[]) == Prefetch(c, State(), xs[i..], fetched)
        invariant blockUpdates == old(blockUpdates)
      {
        ghost var t := State();
        var fetches := Fetches(Cfg(), State(), xs[i]);
        var kids := GetItemChildren(xs[i]);
        PrefetchStep(c, t, xs, i, fetched, State(), kids);
        if kids.Failure? {
          return fetched, Some(kids.error);
        }
        if fetches {
          fetched := fetched[xs[i] := kids.value];
        }
      }
      assert xs[|xs|..] == [];
      return fetched, None;
    }

    /** The second pass of RemoveItems: each item is removed in turn,
        stopping at the first error; the removed items are reported in
        order. */
    method ProcessItems(xs: seq<TreeItem>, members: set<TreeItem>, fetched: map<TreeItem, seq<TreeItem>>,
                        action: string, depth: nat)
      returns (r: Result<seq<TreeItem>, TreeError>)
      modifies this
      ensures (State(), r) == old(ProcessAll(Cfg(), State(), xs, members, fetched, action, depth))
      ensures blockUpdates == old(blockUpdates)
      decreases depth, 1
    {
      ghost var c := Cfg();
      ghost var t0 := State();
      var removed: seq<TreeItem> := [];
      assert xs[0..] == xs;
      PrefixedNil(ProcessAll(c, t0, xs, members, fetched, action, depth).1);
      for j := 0 to |xs|
        invariant ProcessAll(c, t0, xs, members, fetched, action, depth)
          == Joined(removed, ProcessAll(c, State(), xs[j..], members, fetched, action, depth))
        invariant blockUpdates == old(blockUpdates)
      {
        ghost var t := State();
        var one := RemoveOne(xs[j], members, fetched, action, depth);
        ProcessStep(c, t, xs, j, members, fetched, action, depth, removed, State(), one);
        if one.Failure? {
          return one;
        }
        removed := removed + one.value;
      }
      assert xs[|xs|..] == [];
      assert removed + [] == removed;
      return Success(removed);
    }

    /**
     * RemoveItems(items, childAction) with `depth` levels of recursion left:
     * ValueError for an unknown action; otherwise every item but the root
     * has its children looked up, then is removed in turn.
     */
    method RemoveItemsTo(items: seq<TreeItem>, action: string, depth: nat)
      returns (r: Result<seq<TreeItem>, TreeError>)
      modifies this
      ensures (State(), r) == old(RemoveOf(Cfg(), State(), items, action, depth))
      ensures blockUpdates == old(blockUpdates)
      decreases depth, 2
    {
      if action != Delete && action != Reparent {
        return Failure(ValueError);
      }
      var xs := Unique(items, {root});
      if xs == [] {
        return Success([]);
      }
      RemoveSplit(Cfg(), State(), items, action, depth);
      var fetched, e := PrefetchItems(xs);
      if e.Some? {
        return Failure(e.value);
      }
      r := ProcessItems(xs, set x | x in xs :: x, fetched, action, depth);
    }

    /** RemoveItems(items, childAction), within the recursion limit. */
    method RemoveItems(items: seq<TreeItem>, action: string) returns (r: Result<seq<TreeItem>, TreeError>)
      modifies this
      ensures (State(), r) == old(RemoveOf(Cfg(), State(), items, action, recursionLimit))
      ensures blockUpdates == old(blockUpdates)
    {
      r := RemoveItemsTo(items, action, recursionLimit);
    }

    // ----- WalkItems and ForgetChildren -----

    /**
     * WalkItems(startParent), drawn from at most `limit` times: breadth
     * first, each item's children are looked up and queued before it is
     * yielded; an error ends the walk after the items yielded so far.
     */
    method WalkItems(start: Option<TreeItem>, limit: nat) returns (items: seq<TreeItem>, error: Option<TreeError>)
      modifies this
      ensures old(WalkItemsOf(Cfg(), State(), start, limit)) == Walked(State(), items, error)
      ensures blockUpdates == old(blockUpdates)
    {
      ghost var c, target := Cfg(), WalkItemsOf(Cfg(), State(), start, limit);
      items, error := [], None;
      if limit == 0 {
        return;
      }
      var first := GetItemChildren(if start.Some? then start.value else root);
      if first.Failure? {
        error := Some(first.error);
        return;
      }
      var queue := first.value;
      assert Resumed([], Walk(c, State(), queue, limit)) == Walk(c, State(), queue, limit);
      while |items| < limit && queue != []
        invariant |items| <= limit && Cfg() == c
        invariant target == Resumed(items, Walk(c, State(), queue, limit - |items|))
        decreases limit - |items|
      {
        var item := queue[0];
        ghost var l: nat := limit - |items| - 1;
        ghost var t := State();
        var kids := GetItemChildren(item);
        WalkAdvance(c, t, queue, l, items, target);
        if kids.Failure? {
          error := Some(kids.error);
          return;
        }
        queue := queue[1..] + kids.value;
        items := items + [item];
      }
      assert items + [] == items;
    }

    /**
     * LazyItemTree.ForgetChildren(parent): ValueError for no parent or the
     * root; otherwise, with updates blocked until it returns, the stored
     * children are deleted and the parent's entry is reset to the unfetched
     * placeholder.
     */
    method ForgetChildren(parent: Option<TreeItem>) returns (r: Result<seq<TreeItem>, TreeError>)
      requires lazy
      modifies this
      ensures (State(), r) == old(ForgetOf(Cfg(), State(), parent, recursionLimit))
      ensures blockUpdates == if parent.None? || parent.value == root then old(blockUpdates) else false
    {
      if parent.None? || parent.value == root {
        return Failure(ValueError);
      }
      var p := parent.value;
      blockUpdates := true;
      if p !in parentToChildren {
        blockUpdates := false;
        return Failure(ItemLookupError);
      }
      var children := KidsIn(parentToChildren, p);
      if children == [] {
        r := Success([]);
      } else {
        r := RemoveItemsTo(children, Delete, recursionLimit);
        if r.Failure? {
          blockUpdates := false;
          return;
        }
      }
      parentToChildren := parentToChildren[p := None];
      blockUpdates := false;
    }
  }
}

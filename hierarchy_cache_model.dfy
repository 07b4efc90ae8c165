// UsdQt_HierarchyCache as values: the path table, the proxies alive, and the
// number the next proxy gets. A proxy pointer is the number of the proxy it
// points to. The table's entries, `_root` and `_invalidPrim` hold their
// proxies strongly; a proxy no longer held by any of them is destroyed, and a
// weak pointer to it then reads as null. The table is an `SdfPathTable`:
// inserting a path also enters each missing ancestor with a null entry, and
// erasing a path erases everything below it.

module HierarchyCacheModel {
  import opened SdfPaths
  import opened UsdStages

  /** A proxy pointer: null, or the number of the proxy it points to. */
  datatype ProxyRef = NullRef | Ref(n: nat)

  /** A proxy: the path of the prim it wraps (the empty path for the invalid
      prim) and its children's paths as last refreshed. */
  datatype Proxy = Proxy(prim: SdfPath, children: seq<SdfPath>)

  /** `_pathToProxy`, the proxies alive, and the number the next proxy gets. */
  datatype Cache = Cache(pathToProxy: map<SdfPath, ProxyRef>, proxies: map<nat, Proxy>, nextProxy: nat)

  /** Fixed at construction: the predicate, `_root` and `_invalidPrim`. */
  datatype Config = Config(pred: Predicate, root: ProxyRef, invalid: ProxyRef)

  /** The pointer is not null and its proxy has not been destroyed. */
  predicate Live(s: Cache, r: ProxyRef)
  {
    r.Ref? && r.n in s.proxies
  }

  /** `q` is `p` or lies below it: what erasing `p` from a path table removes. */
  predicate Under(q: SdfPath, p: SdfPath)
  {
    q == p || HasPrefix(q, p)
  }

  /** `_root` and `_invalidPrim` are two proxies kept alive; every proxy was
      numbered below the counter; a non-null entry holds a live proxy made for
      the entry's own path, never the invalid-prim proxy; and a proxy lists
      only children of its prim. */
  ghost predicate Inv(c: Config, s: Cache)
  {
    Live(s, c.root) && Live(s, c.invalid) && c.root != c.invalid
    && (forall n :: n in s.proxies ==> n < s.nextProxy)
    && (forall q :: q in s.pathToProxy && s.pathToProxy[q].Ref? ==>
          s.pathToProxy[q].n in s.proxies && s.proxies[s.pathToProxy[q].n].prim == q)
    && (forall q :: q in s.pathToProxy ==> s.pathToProxy[q] != c.invalid)
    && (forall n, k :: n in s.proxies && k in s.proxies[n].children ==> IsChildOf(k, s.proxies[n].prim))
  }

  lemma ChildParentPath(k: SdfPath, p: SdfPath)
    requires IsChildOf(k, p)
    ensures ParentPath(k) == p && k != p && !Under(p, k)
  {
    assert k.names[..|k.names| - 1] == p.names;
  }

  // ---------------------------------------------------------------- the path table

  /** The proper ancestors of a path, up to and including "/". */
  function Ancestors(p: SdfPath): (r: set<SdfPath>)
    ensures forall a :: a in r <==> a != p && HasPrefix(p, a)
  {
    if p.EmptyPath? then {}
    else
      var r := set i | 0 <= i < |p.names| :: PrimPath(p.names[..i]);
      forall a | a != p && HasPrefix(p, a) ensures a in r {
        assert a == PrimPath(p.names[..|a.names|]);
      }
      r
  }

  /** Inserting a new path into an `SdfPathTable`: the path gets the value,
      and each ancestor not yet in the table gets a null entry. */
  function TableInsert(m: map<SdfPath, ProxyRef>, p: SdfPath, v: ProxyRef): (r: map<SdfPath, ProxyRef>)
    ensures p in r && r[p] == v
    ensures forall q :: q in r <==> q in m || q == p || q in Ancestors(p)
    ensures forall q :: q in m && q != p ==> r[q] == m[q]
    ensures forall q :: q in r && q !in m && q != p ==> r[q] == NullRef
  {
    (m + map a | a in Ancestors(p) && a !in m :: NullRef)[p := v]
  }

  // ---------------------------------------------------------------- registration

  /** `_RegisterPrim`: a path already in the table, even under a null entry,
      is left alone; otherwise a new proxy for the prim is entered and reads
      its filtered children, which an invalid prim does not have. */
  function Register(pred: Predicate, st: Stage, s: Cache, p: SdfPath): (r: Cache)
    ensures p in r.pathToProxy
  {
    if p in s.pathToProxy then s
    else
      var n := s.nextProxy;
      Cache(TableInsert(s.pathToProxy, p, Ref(n)), s.proxies[n := Proxy(p, FilteredChildren(pred, st, p))], n + 1)
  }

  /** Everything registered before stays as it was. */
  ghost predicate Grown(s: Cache, r: Cache)
  {
    s.pathToProxy.Keys <= r.pathToProxy.Keys
    && (forall q :: q in s.pathToProxy ==> r.pathToProxy[q] == s.pathToProxy[q])
    && s.proxies.Keys <= r.proxies.Keys
    && (forall n :: n in s.proxies ==> r.proxies[n] == s.proxies[n])
  }

  /** A path gets at most one proxy: registering a path already in the table
      changes nothing. A new path gets a new proxy for its own prim holding its
      filtered children; the only other new entries are its missing
      ancestors, entered null. */
  lemma RegisterKeeps(c: Config, st: Stage, s: Cache, p: SdfPath)
    requires StageWf(st) && Inv(c, s)
    ensures var r := Register(c.pred, st, s, p);
      Inv(c, r) && Grown(s, r)
      && (p in s.pathToProxy ==> r == s)
      && (p !in s.pathToProxy ==>
            Live(r, r.pathToProxy[p]) && !Live(s, r.pathToProxy[p])
            && r.proxies[r.pathToProxy[p].n] == Proxy(p, FilteredChildren(c.pred, st, p))
            && forall q :: q in r.pathToProxy && q !in s.pathToProxy && q != p ==>
                 q in Ancestors(p) && r.pathToProxy[q] == NullRef)
  {
  }

  /** The constructor: registers the root prim, keeps its proxy as `_root`,
      and makes the shared proxy of the invalid prim. */
  function Init(pred: Predicate, st: Stage, root: SdfPath): (r: (Config, Cache))
  {
    var s := Register(pred, st, Cache(map[], map[], 0), root);
    (Config(pred, s.pathToProxy[root], Ref(s.nextProxy)),
     s.(proxies := s.proxies[s.nextProxy := Proxy(EmptyPath, [])], nextProxy := s.nextProxy + 1))
  }

  /** After construction the table holds the root, with a proxy listing the
      root's filtered children, and null entries for the root's ancestors;
      the invalid-prim proxy wraps the empty path and has no children; and
      the root proxy is the root. */
  lemma InitSpec(pred: Predicate, st: Stage, root: SdfPath)
    requires StageWf(st)
    ensures var r := Init(pred, st, root); var c := r.0; var s := r.1;
      Inv(c, s) && c.pred == pred
      && root in s.pathToProxy && s.pathToProxy[root] == c.root
      && s.proxies[c.root.n] == Proxy(root, FilteredChildren(pred, st, root))
      && s.proxies[c.invalid.n] == Proxy(EmptyPath, [])
      && (forall q :: q in s.pathToProxy <==> q == root || q in Ancestors(root))
      && (forall q :: q in Ancestors(root) ==> s.pathToProxy[q] == NullRef)
      && IsRoot(c, s, c.root)
  {
  }

  // ---------------------------------------------------------------- queries

  /** `ContainsPath`. */
  predicate ContainsPath(s: Cache, p: SdfPath)
  {
    p in s.pathToProxy
  }

  /** `GetChildCount`: 0 for a null or destroyed proxy. */
  function GetChildCount(s: Cache, proxy: ProxyRef): (r: nat)
  {
    if Live(s, proxy) then |s.proxies[proxy.n].children| else 0
  }

  /** `GetChild`: the invalid-prim proxy for a null parent or an index past
      its children; the table's entry for a child already in it; otherwise
      the child prim, looked up on the parent's prim, is registered, and its
      entry is returned. An invalid child prim registers the empty path, so
      the child's path is still missing and the invalid-prim proxy is
      returned. */
  function GetChild(c: Config, st: Stage, s: Cache, parent: ProxyRef, index: nat): (r: (Cache, ProxyRef))
  {
    if !Live(s, parent) then (s, c.invalid)
    else
      var kids := s.proxies[parent.n].children;
      if index >= |kids| then (s, c.invalid)
      else
        var childPath := kids[index];
        if childPath in s.pathToProxy then (s, s.pathToProxy[childPath])
        else
          var valid := IsValidPrim(st, s.proxies[parent.n].prim) && IsValidPrim(st, childPath);
          var s1 := Register(c.pred, st, s, if valid then childPath else EmptyPath);
          if childPath in s1.pathToProxy then (s1, s1.pathToProxy[childPath]) else (s1, c.invalid)
  }

  /** `GetParent`: null for a null proxy; the invalid-prim proxy when the
      parent path is not in the table; otherwise the parent's entry. */
  function GetParent(c: Config, s: Cache, proxy: ProxyRef): (r: ProxyRef)
  {
    if !Live(s, proxy) then NullRef
    else
      var parentPath := ParentPath(s.proxies[proxy.n].prim);
      if parentPath in s.pathToProxy then s.pathToProxy[parentPath] else c.invalid
  }

  /** `IsRoot`: false for a null proxy; otherwise whether it wraps the root's
      prim. */
  predicate IsRoot(c: Config, s: Cache, proxy: ProxyRef)
  {
    Live(s, proxy) && Live(s, c.root) && s.proxies[c.root.n].prim == s.proxies[proxy.n].prim
  }

  /** `GetRow`: 0 for the root, a null proxy, a parent path not in the table,
      or a path the parent does not list; otherwise the path's position in
      the parent's children. */
  function GetRow(c: Config, s: Cache, proxy: ProxyRef): (r: nat)
  {
    if IsRoot(c, s, proxy) || !Live(s, proxy) then 0
    else
      var path := s.proxies[proxy.n].prim;
      var parentPath := ParentPath(path);
      if parentPath !in s.pathToProxy || !Live(s, s.pathToProxy[parentPath]) then 0
      else
        var siblings := s.proxies[s.pathToProxy[parentPath].n].children;
        var i := FindIndex(siblings, path);
        if i == |siblings| then 0 else i
  }

  /** `GetProxy`: the table's `operator[]`, which enters a missing path (and
      its missing ancestors) with a null entry. */
  function GetProxy(s: Cache, p: SdfPath): (r: (Cache, ProxyRef))
  {
    if p in s.pathToProxy then (s, s.pathToProxy[p])
    else (s.(pathToProxy := TableInsert(s.pathToProxy, p, NullRef)), NullRef)
  }

  /** The invalid-prim proxy is returned for a null parent or an index past
      the children, with nothing changed. Otherwise the result is the entry
      of the indexed child's path, which is then in the table whenever it was
      before or its prim is valid; an invalid child prim not yet registered
      gives the invalid-prim proxy. A live result wraps the child's prim.
      Nothing registered before changes. */
  lemma GetChildSpec(c: Config, st: Stage, s: Cache, parent: ProxyRef, index: nat)
    requires StageWf(st) && Inv(c, s)
    ensures var r := GetChild(c, st, s, parent, index);
      Inv(c, r.0) && Grown(s, r.0)
      && (index >= GetChildCount(s, parent) ==> r == (s, c.invalid))
      && (index < GetChildCount(s, parent) ==>
            var childPath := s.proxies[parent.n].children[index];
            (childPath in s.pathToProxy ==> r == (s, s.pathToProxy[childPath]))
            && (childPath !in s.pathToProxy && IsValidPrim(st, s.proxies[parent.n].prim) && IsValidPrim(st, childPath) ==>
                  childPath in r.0.pathToProxy && r.1 == r.0.pathToProxy[childPath] && Live(r.0, r.1))
            && (childPath !in s.pathToProxy && !IsValidPrim(st, childPath) ==> r.1 == c.invalid)
            && (Live(r.0, r.1) && r.1 != c.invalid ==> r.0.proxies[r.1.n].prim == childPath))
  {
    if Live(s, parent) && index < |s.proxies[parent.n].children| {
      var childPath := s.proxies[parent.n].children[index];
      if childPath !in s.pathToProxy {
        var valid := IsValidPrim(st, s.proxies[parent.n].prim) && IsValidPrim(st, childPath);
        RegisterKeeps(c, st, s, if valid then childPath else EmptyPath);
        if !valid {
          assert IsChildOf(childPath, s.proxies[parent.n].prim);
          assert childPath !in Ancestors(EmptyPath);
        }
      }
    }
  }

  /** Asking again for the same child returns the same proxy and changes
      nothing. */
  lemma GetChildAgain(c: Config, st: Stage, s: Cache, parent: ProxyRef, index: nat)
    requires StageWf(st) && Inv(c, s)
    ensures var r := GetChild(c, st, s, parent, index);
      GetChild(c, st, r.0, parent, index) == r
  {
    var r := GetChild(c, st, s, parent, index);
    GetChildSpec(c, st, s, parent, index);
    if Live(s, parent) && index < |s.proxies[parent.n].children| {
      var childPath := s.proxies[parent.n].children[index];
      if childPath !in s.pathToProxy && !(IsValidPrim(st, s.proxies[parent.n].prim) && IsValidPrim(st, childPath)) {
        RegisterKeeps(c, st, s, EmptyPath);
        assert IsChildOf(childPath, s.proxies[parent.n].prim);
        assert childPath !in r.0.pathToProxy;
        RegisterKeeps(c, st, r.0, EmptyPath);
      }
    }
  }

  /** The proxy `GetChild` returns for a registered parent has that parent as
      its `GetParent`, and, unless it is the root, its `GetRow` is a position
      of its path in the parent's children. */
  lemma GetChildParentRow(c: Config, st: Stage, s: Cache, parent: ProxyRef, index: nat)
    requires StageWf(st) && Inv(c, s) && Live(s, parent)
    requires var p := s.proxies[parent.n].prim; p in s.pathToProxy && s.pathToProxy[p] == parent
    requires index < GetChildCount(s, parent)
    ensures var r := GetChild(c, st, s, parent, index);
      Live(r.0, r.1) && r.1 != c.invalid ==>
        GetParent(c, r.0, r.1) == parent
        && (IsRoot(c, r.0, r.1) || s.proxies[parent.n].children[GetRow(c, r.0, r.1)] == s.proxies[parent.n].children[index])
  {
    var r := GetChild(c, st, s, parent, index);
    GetChildSpec(c, st, s, parent, index);
    var kids := s.proxies[parent.n].children;
    if Live(r.0, r.1) && r.1 != c.invalid {
      ChildParentPath(kids[index], s.proxies[parent.n].prim);
      assert r.0.proxies[parent.n] == s.proxies[parent.n];
    }
  }

  /** `GetRow` is 0 for the root or a null proxy; any other nonzero row is
      the first position of the proxy's path in its registered parent's
      children. */
  lemma GetRowSpec(c: Config, s: Cache, proxy: ProxyRef)
    ensures IsRoot(c, s, proxy) || !Live(s, proxy) ==> GetRow(c, s, proxy) == 0
    ensures var r := GetRow(c, s, proxy);
      r != 0 ==>
        var path := s.proxies[proxy.n].prim;
        var parent := s.pathToProxy[ParentPath(path)];
        Live(s, parent)
        && r < |s.proxies[parent.n].children|
        && s.proxies[parent.n].children[r] == path
        && path !in s.proxies[parent.n].children[..r]
  {
  }

  /** The root proxy is the root and a null pointer is not. */
  lemma IsRootSpec(c: Config, s: Cache)
    requires Inv(c, s)
    ensures IsRoot(c, s, c.root) && !IsRoot(c, s, NullRef)
    ensures forall n :: n !in s.proxies ==> !IsRoot(c, s, Ref(n))
  {
  }

  /** `GetProxy` leaves the path in the table, so `ContainsPath` holds after
      it. A path already there returns its entry and changes nothing; a
      missing path, and each missing ancestor, gets a null entry, whose proxy
      has no children, and nothing else changes. */
  lemma GetProxySpec(c: Config, s: Cache, p: SdfPath)
    requires Inv(c, s)
    ensures var r := GetProxy(s, p);
      ContainsPath(r.0, p) && Inv(c, r.0) && Grown(s, r.0) && r.0.proxies == s.proxies
      && (p in s.pathToProxy ==> r == (s, s.pathToProxy[p]))
      && (p !in s.pathToProxy ==> r.1 == NullRef && GetChildCount(r.0, r.1) == 0)
      && (forall a :: a in Ancestors(p) ==> ContainsPath(r.0, a) || p in s.pathToProxy)
  {
  }

  // ---------------------------------------------------------------- deletion

  /** Erasing a path from the table: every entry at or below it goes, and so
      does each proxy only those entries held. */
  function Erase(c: Config, s: Cache, p: SdfPath): (r: Cache)
  {
    var gone := set q | q in s.pathToProxy && Under(q, p) && s.pathToProxy[q].Ref? :: s.pathToProxy[q].n;
    Cache(map q | q in s.pathToProxy && !Under(q, p) :: s.pathToProxy[q],
          map n | n in s.proxies && (n !in gone || Ref(n) == c.root || Ref(n) == c.invalid) :: s.proxies[n],
          s.nextProxy)
  }

  /** `_DeleteSubtree`: a path not in the table is skipped; otherwise it is
      erased with everything below it. */
  function DeleteOf(c: Config, s: Cache, p: SdfPath): (r: Cache)
  {
    if p in s.pathToProxy then Erase(c, s, p) else s
  }

  /** Entries only leave the table, the ones that stay keep their pointer,
      and no proxy is made. */
  ghost predicate Shrunk(s: Cache, r: Cache)
  {
    r.pathToProxy.Keys <= s.pathToProxy.Keys
    && (forall q :: q in r.pathToProxy ==> r.pathToProxy[q] == s.pathToProxy[q])
    && r.nextProxy == s.nextProxy
  }

  /** Only entries at or below `p` leave the table. */
  ghost predicate KeepsOutside(s: Cache, r: Cache, p: SdfPath)
  {
    forall q :: q in s.pathToProxy && !Under(q, p) ==> q in r.pathToProxy
  }

  /** The proxy is the entry of its own path. */
  predicate Owns(s: Cache, n: nat)
  {
    n in s.proxies && s.proxies[n].prim in s.pathToProxy && s.pathToProxy[s.proxies[n].prim] == Ref(n)
  }

  /** Every proxy not the entry of a path at or below `p` is alive and
      unchanged. */
  ghost predicate UntouchedUnder(s: Cache, r: Cache, p: SdfPath)
  {
    forall n :: n in s.proxies && !(Owns(s, n) && Under(s.proxies[n].prim, p)) ==>
      n in r.proxies && r.proxies[n] == s.proxies[n]
  }

  /** Every proxy not the entry of a path strictly below `p` is alive and
      unchanged. */
  ghost predicate UntouchedBelow(s: Cache, r: Cache, p: SdfPath)
  {
    forall n :: n in s.proxies && !(Owns(s, n) && Under(s.proxies[n].prim, p) && s.proxies[n].prim != p) ==>
      n in r.proxies && r.proxies[n] == s.proxies[n]
  }

  /** A path that leaves the table takes everything below it along. */
  ghost predicate Closed(s: Cache, r: Cache)
  {
    forall q, x :: q in s.pathToProxy && q !in r.pathToProxy && x in r.pathToProxy ==> !Under(x, q)
  }

  /** Deleting a registered path removes every entry at or below it and keeps
      all others; the proxies those entries held are destroyed, except the
      root's; every other proxy is untouched. */
  lemma DeleteKeeps(c: Config, s: Cache, p: SdfPath)
    requires Inv(c, s)
    ensures var r := DeleteOf(c, s, p);
      Inv(c, r) && Shrunk(s, r) && KeepsOutside(s, r, p) && Closed(s, r) && UntouchedUnder(s, r, p)
      && r.proxies.Keys <= s.proxies.Keys && (forall n :: n in r.proxies ==> r.proxies[n] == s.proxies[n])
      && (p in s.pathToProxy ==>
            (forall q :: q in r.pathToProxy ==> !Under(q, p))
            && forall q :: q in s.pathToProxy && Under(q, p) && s.pathToProxy[q].Ref? && s.pathToProxy[q] != c.root ==>
                 !Live(r, s.pathToProxy[q]))
  {
    var r := DeleteOf(c, s, p);
    if p in s.pathToProxy {
      forall q, x | q in s.pathToProxy && q !in r.pathToProxy && x in r.pathToProxy
        ensures !Under(x, q)
      {
        if Under(x, q) && x != q {
          HasPrefixTransitive(x, q, p);
        }
      }
    }
  }

  // ---------------------------------------------------------------- invalidation

  /** The table entries at or below `p`. */
  ghost function Desc(s: Cache, p: SdfPath): set<SdfPath>
  {
    set q | q in s.pathToProxy && Under(q, p)
  }

  lemma DescShrinks(s: Cache, p: SdfPath, k: SdfPath)
    requires p in s.pathToProxy && IsChildOf(k, p)
    ensures |Desc(s, k)| < |Desc(s, p)|
  {
    ChildParentPath(k, p);
    forall q | q in Desc(s, k) ensures q in Desc(s, p) {
      if q != k {
        HasPrefixTransitive(q, k, p);
      }
    }
    assert p in Desc(s, p) - Desc(s, k);
    assert Desc(s, p) == Desc(s, k) + (Desc(s, p) - Desc(s, k));
  }

  lemma ShrunkDesc(s: Cache, r: Cache, p: SdfPath)
    requires Shrunk(s, r)
    ensures |Desc(r, p)| <= |Desc(s, p)|
  {
    SubsetCard(Desc(r, p), Desc(s, p));
  }

  /** `_RefreshChildren` on a live proxy: its children become its prim's
      filtered children. */
  function RefreshOf(c: Config, st: Stage, s: Cache, n: nat): (r: Cache)
    requires n in s.proxies
  {
    var prim := s.proxies[n].prim;
    s.(proxies := s.proxies[n := Proxy(prim, FilteredChildren(c.pred, st, prim))])
  }

  /** Refreshing changes only that proxy, which then lists its prim's
      filtered children. */
  lemma RefreshKeeps(c: Config, st: Stage, s: Cache, n: nat)
    requires StageWf(st) && Inv(c, s) && n in s.proxies
    ensures var r := RefreshOf(c, st, s, n);
      Inv(c, r) && Shrunk(s, r) && Closed(s, r) && Settled(c, st, s, r)
      && r.proxies.Keys == s.proxies.Keys
      && r.proxies[n].children == FilteredChildren(c.pred, st, s.proxies[n].prim)
      && (forall m :: m in s.proxies && m != n ==> r.proxies[m] == s.proxies[m])
      && (forall m :: Owns(r, m) == Owns(s, m))
  {
  }

  /** `_InvalidateSubtree`: a path not in the table is skipped. A registered
      path whose prim is still valid and accepted has its old children
      invalidated in order and then re-reads its filtered children; any other
      registered path is deleted with its subtree. */
  function InvalidateOf(c: Config, st: Stage, s: Cache, p: SdfPath): (r: Cache)
    requires StageWf(st) && Inv(c, s)
    ensures Inv(c, r) && Shrunk(s, r) && KeepsOutside(s, r, p)
    decreases |Desc(s, p)|, 1, 0
  {
    if p !in s.pathToProxy then s
    else
      var ref := s.pathToProxy[p];
      if Live(s, ref) && IsValidPrim(st, s.proxies[ref.n].prim) && Accepts(c.pred, st, s.proxies[ref.n].prim) then
        var s1 := InvalidateAll(c, st, s, p, s.proxies[ref.n].children);
        RefreshKeeps(c, st, s1, ref.n);
        RefreshOf(c, st, s1, ref.n)
      else
        DeleteKeeps(c, s, p);
        DeleteOf(c, s, p)
  }

  /** The loop over a kept proxy's old children. */
  function InvalidateAll(c: Config, st: Stage, s: Cache, p: SdfPath, kids: seq<SdfPath>): (r: Cache)
    requires StageWf(st) && Inv(c, s) && p in s.pathToProxy
    requires forall k :: k in kids ==> IsChildOf(k, p)
    ensures Inv(c, r) && Shrunk(s, r) && KeepsOutside(s, r, p) && p in r.pathToProxy
    decreases |Desc(s, p)|, 0, |kids|
  {
    if kids == [] then s
    else
      DescShrinks(s, p, kids[0]);
      ChildParentPath(kids[0], p);
      var s1 := InvalidateOf(c, st, s, kids[0]);
      ShrunkDesc(s, s1, p);
      forall q | q in s.pathToProxy && !Under(q, p) ensures q in s1.pathToProxy {
        if Under(q, kids[0]) && q != kids[0] {
          HasPrefixTransitive(q, kids[0], p);
        }
      }
      InvalidateAll(c, st, s1, p, kids[1..])
  }

  /** Proxies are only destroyed or refreshed: each one left wraps the same
      prim, and is unchanged or lists its prim's filtered children. */
  ghost predicate Settled(c: Config, st: Stage, s: Cache, r: Cache)
  {
    r.proxies.Keys <= s.proxies.Keys
    && forall n :: n in r.proxies ==>
         r.proxies[n].prim == s.proxies[n].prim
         && (r.proxies[n] == s.proxies[n] || r.proxies[n].children == FilteredChildren(c.pred, st, r.proxies[n].prim))
  }

  /** The entry of `x`, if live, lists the filtered children of its prim. */
  ghost predicate Fresh(c: Config, st: Stage, s: Cache, x: SdfPath)
  {
    x in s.pathToProxy && Live(s, s.pathToProxy[x]) ==>
      var proxy := s.proxies[s.pathToProxy[x].n];
      proxy.children == FilteredChildren(c.pred, st, proxy.prim)
  }

  /** `x` is gone from the table, or its entry is a live proxy whose prim is
      valid and accepted and which lists the prim's filtered children. */
  ghost predicate Refreshed(c: Config, st: Stage, s: Cache, x: SdfPath)
  {
    x in s.pathToProxy ==>
      Live(s, s.pathToProxy[x])
      && IsValidPrim(st, s.proxies[s.pathToProxy[x].n].prim)
      && Accepts(c.pred, st, s.proxies[s.pathToProxy[x].n].prim)
      && Fresh(c, st, s, x)
  }

  /** Every proxy that changed had each of its old children invalidated. */
  ghost predicate Recursed(c: Config, st: Stage, s: Cache, r: Cache)
  {
    forall n, x :: n in r.proxies && n in s.proxies && r.proxies[n] != s.proxies[n] && x in s.proxies[n].children ==>
      Refreshed(c, st, r, x)
  }

  lemma SettledChain(c: Config, st: Stage, s: Cache, m: Cache, r: Cache)
    requires Settled(c, st, s, m) && Settled(c, st, m, r)
    ensures Settled(c, st, s, r)
  {
  }

  lemma ClosedChain(s: Cache, m: Cache, r: Cache)
    requires Shrunk(s, m) && Shrunk(m, r) && Closed(s, m) && Closed(m, r)
    ensures Closed(s, r)
  {
    forall q, x | q in s.pathToProxy && q !in r.pathToProxy && x in r.pathToProxy
      ensures !Under(x, q)
    {
      if q !in m.pathToProxy {
        assert x in m.pathToProxy;
      }
    }
  }

  lemma FreshStays(c: Config, st: Stage, s: Cache, r: Cache, x: SdfPath)
    requires Inv(c, r) && Shrunk(s, r) && Settled(c, st, s, r) && Fresh(c, st, s, x)
    ensures Fresh(c, st, r, x)
  {
  }

  lemma RefreshedStays(c: Config, st: Stage, s: Cache, r: Cache, x: SdfPath)
    requires Inv(c, r) && Shrunk(s, r) && Settled(c, st, s, r) && Refreshed(c, st, s, x)
    ensures Refreshed(c, st, r, x)
  {
    FreshStays(c, st, s, r, x);
  }

  lemma RecursedChain(c: Config, st: Stage, s: Cache, m: Cache, r: Cache)
    requires Inv(c, r) && Shrunk(m, r) && Settled(c, st, s, m) && Settled(c, st, m, r)
    requires Recursed(c, st, s, m) && Recursed(c, st, m, r)
    ensures Recursed(c, st, s, r)
  {
    forall n, x | n in r.proxies && n in s.proxies && r.proxies[n] != s.proxies[n] && x in s.proxies[n].children
      ensures Refreshed(c, st, r, x)
    {
      if m.proxies[n] != s.proxies[n] {
        RefreshedStays(c, st, m, r, x);
      }
    }
  }

  /** Invalidating a path deletes or refreshes it, and everything it changes
      lies at or below it: proxies are only destroyed or refreshed, a path
      leaves the table only with its subtree, every proxy that changed had its
      old children invalidated, and proxies not entered at or below the path
      are untouched. */
  lemma {:induction false} InvalidateFacts(c: Config, st: Stage, s: Cache, p: SdfPath)
    requires StageWf(st) && Inv(c, s)
    ensures var r := InvalidateOf(c, st, s, p);
      Settled(c, st, s, r) && Closed(s, r) && Recursed(c, st, s, r)
      && Refreshed(c, st, r, p) && UntouchedUnder(s, r, p)
    decreases |Desc(s, p)|, 1, 0
  {
    if p in s.pathToProxy {
      var ref := s.pathToProxy[p];
      if Live(s, ref) && IsValidPrim(st, s.proxies[ref.n].prim) && Accepts(c.pred, st, s.proxies[ref.n].prim) {
        var proxy := s.proxies[ref.n];
        var s1 := InvalidateAll(c, st, s, p, proxy.children);
        InvalidateAllFacts(c, st, s, p, proxy.children);
        assert Owns(s, ref.n);
        var r := RefreshOf(c, st, s1, ref.n);
        RefreshKeeps(c, st, s1, ref.n);
        SettledChain(c, st, s, s1, r);
        ClosedChain(s, s1, r);
        forall x | x in proxy.children ensures Refreshed(c, st, r, x) {
          ChildParentPath(x, p);
          RefreshedStays(c, st, s1, r, x);
        }
        assert Recursed(c, st, s1, r);
        RecursedChain(c, st, s, s1, r);
      } else {
        DeleteKeeps(c, s, p);
      }
    }
  }

  lemma {:induction false} InvalidateAllFacts(c: Config, st: Stage, s: Cache, p: SdfPath, kids: seq<SdfPath>)
    requires StageWf(st) && Inv(c, s) && p in s.pathToProxy
    requires forall k :: k in kids ==> IsChildOf(k, p)
    ensures var r := InvalidateAll(c, st, s, p, kids);
      Settled(c, st, s, r) && Closed(s, r) && Recursed(c, st, s, r)
      && (forall k :: k in kids ==> Refreshed(c, st, r, k)) && UntouchedBelow(s, r, p)
    decreases |Desc(s, p)|, 0, |kids|
  {
    if kids != [] {
      DescShrinks(s, p, kids[0]);
      ChildParentPath(kids[0], p);
      var s1 := InvalidateOf(c, st, s, kids[0]);
      InvalidateFacts(c, st, s, kids[0]);
      ShrunkDesc(s, s1, p);
      var r := InvalidateAll(c, st, s1, p, kids[1..]);
      InvalidateAllFacts(c, st, s1, p, kids[1..]);
      SettledChain(c, st, s, s1, r);
      ClosedChain(s, s1, r);
      RecursedChain(c, st, s, s1, r);
      RefreshedStays(c, st, s1, r, kids[0]);
      forall n | n in s.proxies && !(Owns(s, n) && Under(s.proxies[n].prim, p) && s.proxies[n].prim != p)
        ensures n in r.proxies && r.proxies[n] == s.proxies[n]
      {
        if Owns(s, n) && Under(s.proxies[n].prim, kids[0]) && s.proxies[n].prim != kids[0] {
          HasPrefixTransitive(s.proxies[n].prim, kids[0], p);
        }
      }
    }
  }

  // ---------------------------------------------------------------- resync

  lemma UnderTransitive(a: SdfPath, b: SdfPath, p: SdfPath)
    requires Under(a, b) && Under(b, p)
    ensures Under(a, p)
  {
    if a != b && b != p {
      HasPrefixTransitive(a, b, p);
    }
  }

  /** The loop over one parent's children: each is invalidated in turn. */
  function InvalidateEach(c: Config, st: Stage, s: Cache, ps: seq<SdfPath>): (r: Cache)
    requires StageWf(st) && Inv(c, s)
    ensures Inv(c, r) && Shrunk(s, r)
    decreases |ps|
  {
    if ps == [] then s
    else InvalidateEach(c, st, InvalidateOf(c, st, s, ps[0]), ps[1..])
  }

  /** One parent of `ResyncSubtrees`: a parent not in the table, or under a
      null entry, is skipped. Otherwise its proxy re-reads its filtered
      children, and every path in the union of its old and new children is
      invalidated, in ascending order as the union set iterates. */
  function ResyncParent(c: Config, st: Stage, s: Cache, parent: SdfPath): (r: Cache)
    requires StageWf(st) && Inv(c, s)
    ensures Inv(c, r) && Shrunk(s, r)
  {
    if parent !in s.pathToProxy || !Live(s, s.pathToProxy[parent]) then s
    else
      var n := s.pathToProxy[parent].n;
      var original := s.proxies[n].children;
      RefreshKeeps(c, st, s, n);
      var s1 := RefreshOf(c, st, s, n);
      InvalidateEach(c, st, s1, Uniq(SortPaths(original + s1.proxies[n].children)))
  }

  /** The loop over the parents. */
  function ResyncAll(c: Config, st: Stage, s: Cache, parents: seq<SdfPath>): (r: Cache)
    requires StageWf(st) && Inv(c, s)
    ensures Inv(c, r) && Shrunk(s, r)
    decreases |parents|
  {
    if parents == [] then s
    else ResyncAll(c, st, ResyncParent(c, st, s, parents[0]), parents[1..])
  }

  /** `ResyncSubtrees`: each distinct parent of the paths, in ascending order. */
  function ResyncOf(c: Config, st: Stage, s: Cache, paths: seq<SdfPath>): (r: Cache)
    requires StageWf(st) && Inv(c, s)
  {
    ResyncAll(c, st, s, UniqueParents(paths))
  }

  lemma {:induction false} InvalidateEachFacts(c: Config, st: Stage, s: Cache, ps: seq<SdfPath>, P: SdfPath)
    requires StageWf(st) && Inv(c, s)
    requires forall x :: x in ps ==> Under(x, P)
    ensures var r := InvalidateEach(c, st, s, ps);
      Settled(c, st, s, r) && Closed(s, r) && Recursed(c, st, s, r)
      && (forall x :: x in ps ==> Refreshed(c, st, r, x)) && UntouchedUnder(s, r, P)
    decreases |ps|
  {
    if ps != [] {
      var s1 := InvalidateOf(c, st, s, ps[0]);
      InvalidateFacts(c, st, s, ps[0]);
      var r := InvalidateEach(c, st, s1, ps[1..]);
      InvalidateEachFacts(c, st, s1, ps[1..], P);
      SettledChain(c, st, s, s1, r);
      ClosedChain(s, s1, r);
      RecursedChain(c, st, s, s1, r);
      RefreshedStays(c, st, s1, r, ps[0]);
      forall n | n in s.proxies && !(Owns(s, n) && Under(s.proxies[n].prim, P))
        ensures n in r.proxies && r.proxies[n] == s.proxies[n]
      {
        if Owns(s, n) && Under(s.proxies[n].prim, ps[0]) {
          UnderTransitive(s.proxies[n].prim, ps[0], P);
        }
      }
    }
  }

  /** The union of two children lists, as a path set iterates it. */
  lemma UnionMembers(a: seq<SdfPath>, b: seq<SdfPath>)
    ensures forall x :: x in Uniq(SortPaths(a + b)) <==> x in a || x in b
  {
    forall x ensures x in SortPaths(a + b) <==> x in a + b {
      assert x in SortPaths(a + b) <==> x in multiset(SortPaths(a + b));
      assert x in a + b <==> x in multiset(a + b);
    }
  }

  /** One parent's resync changes nothing when the parent is not registered
      with a live proxy; otherwise proxies are only destroyed or refreshed, a
      path leaves the table only with its subtree, and only proxies entered
      at or below the parent change. */
  lemma ResyncParentFrame(c: Config, st: Stage, s: Cache, P: SdfPath)
    requires StageWf(st) && Inv(c, s)
    ensures var r := ResyncParent(c, st, s, P);
      Settled(c, st, s, r) && Closed(s, r) && UntouchedUnder(s, r, P)
      && (!(P in s.pathToProxy && Live(s, s.pathToProxy[P])) ==> r == s)
  {
    if P in s.pathToProxy && Live(s, s.pathToProxy[P]) {
      var n := s.pathToProxy[P].n;
      var original := s.proxies[n].children;
      RefreshKeeps(c, st, s, n);
      var s1 := RefreshOf(c, st, s, n);
      var u := Uniq(SortPaths(original + s1.proxies[n].children));
      UnionMembers(original, s1.proxies[n].children);
      forall x | x in u ensures Under(x, P) {
        assert IsChildOf(x, P);
      }
      var r := InvalidateEach(c, st, s1, u);
      InvalidateEachFacts(c, st, s1, u, P);
      SettledChain(c, st, s, s1, r);
      ClosedChain(s, s1, r);
      assert Owns(s, n);
    }
  }

  /** After one registered parent's resync, the parent lists its filtered
      children, each of its old and new children is refreshed or gone, and
      every proxy that changed had its old children invalidated. */
  lemma ResyncParentRefreshes(c: Config, st: Stage, s: Cache, P: SdfPath)
    requires StageWf(st) && Inv(c, s)
    ensures var r := ResyncParent(c, st, s, P);
      Recursed(c, st, s, r)
      && (P in s.pathToProxy && Live(s, s.pathToProxy[P]) ==>
            Fresh(c, st, r, P)
            && forall x :: x in s.proxies[s.pathToProxy[P].n].children + FilteredChildren(c.pred, st, P) ==>
                 Refreshed(c, st, r, x))
  {
    if P in s.pathToProxy && Live(s, s.pathToProxy[P]) {
      var n := s.pathToProxy[P].n;
      var original := s.proxies[n].children;
      RefreshKeeps(c, st, s, n);
      var s1 := RefreshOf(c, st, s, n);
      var u := Uniq(SortPaths(original + s1.proxies[n].children));
      UnionMembers(original, s1.proxies[n].children);
      forall x | x in u ensures Under(x, P) {
        assert IsChildOf(x, P);
      }
      var r := InvalidateEach(c, st, s1, u);
      InvalidateEachFacts(c, st, s1, u, P);
      FreshStays(c, st, s1, r, P);
    }
  }

  /** Every proxy not entered at or below one of the parents is alive and
      unchanged. */
  ghost predicate UntouchedOutside(s: Cache, r: Cache, parents: seq<SdfPath>)
  {
    forall n :: n in s.proxies && (Owns(s, n) ==> forall P :: P in parents ==> !Under(s.proxies[n].prim, P)) ==>
      n in r.proxies && r.proxies[n] == s.proxies[n]
  }

  /** Over all the parents: parents that are not registered with a live proxy
      are not touched, and when none is, nothing changes; proxies are only
      destroyed or refreshed; a path leaves the table only with its subtree;
      and every proxy that changed had its old children invalidated. */
  lemma {:induction false} ResyncAllFrame(c: Config, st: Stage, s: Cache, parents: seq<SdfPath>)
    requires StageWf(st) && Inv(c, s)
    ensures var r := ResyncAll(c, st, s, parents);
      Settled(c, st, s, r) && Closed(s, r) && Recursed(c, st, s, r) && UntouchedOutside(s, r, parents)
      && ((forall P :: P in parents ==> !(P in s.pathToProxy && Live(s, s.pathToProxy[P]))) ==> r == s)
    decreases |parents|
  {
    if parents != [] {
      var s1 := ResyncParent(c, st, s, parents[0]);
      ResyncParentFrame(c, st, s, parents[0]);
      ResyncParentRefreshes(c, st, s, parents[0]);
      var r := ResyncAll(c, st, s1, parents[1..]);
      ResyncAllFrame(c, st, s1, parents[1..]);
      SettledChain(c, st, s, s1, r);
      ClosedChain(s, s1, r);
      RecursedChain(c, st, s, s1, r);
      forall n | n in s.proxies && (Owns(s, n) ==> forall P :: P in parents ==> !Under(s.proxies[n].prim, P))
        ensures n in r.proxies && r.proxies[n] == s.proxies[n]
      {
        assert parents[0] in parents;
        assert Owns(s1, n) ==> Owns(s, n);
        forall P | P in parents[1..] ensures P in parents { }
      }
    }
  }

  /** Every registered parent with a live proxy ends up listing its filtered
      children, and each of its children before the resync and after it is
      refreshed or gone. */
  lemma {:induction false} ResyncAllRefreshes(c: Config, st: Stage, s: Cache, parents: seq<SdfPath>)
    requires StageWf(st) && Inv(c, s)
    ensures var r := ResyncAll(c, st, s, parents);
      forall P :: P in parents && P in s.pathToProxy && Live(s, s.pathToProxy[P]) ==>
        Fresh(c, st, r, P)
        && forall x :: x in s.proxies[s.pathToProxy[P].n].children + FilteredChildren(c.pred, st, P) ==>
             Refreshed(c, st, r, x)
    decreases |parents|
  {
    if parents != [] {
      var s1 := ResyncParent(c, st, s, parents[0]);
      ResyncParentFrame(c, st, s, parents[0]);
      ResyncParentRefreshes(c, st, s, parents[0]);
      var r := ResyncAll(c, st, s1, parents[1..]);
      ResyncAllFrame(c, st, s1, parents[1..]);
      ResyncAllRefreshes(c, st, s1, parents[1..]);
      forall P | P in parents && P in s.pathToProxy && Live(s, s.pathToProxy[P])
        ensures Fresh(c, st, r, P)
        ensures forall x :: x in s.proxies[s.pathToProxy[P].n].children + FilteredChildren(c.pred, st, P) ==>
                  Refreshed(c, st, r, x)
      {
        ParentStep(c, st, s, s1, r, P, parents[0], parents[1..]);
      }
    }
  }

  /** What one step established about a parent survives the later steps. */
  lemma StepStays(c: Config, st: Stage, s1: Cache, r: Cache, P: SdfPath, kids: seq<SdfPath>)
    requires Inv(c, r) && Shrunk(s1, r) && Settled(c, st, s1, r)
    requires Fresh(c, st, s1, P) && forall x :: x in kids ==> Refreshed(c, st, s1, x)
    ensures Fresh(c, st, r, P) && forall x :: x in kids ==> Refreshed(c, st, r, x)
  {
    FreshStays(c, st, s1, r, P);
    forall x | x in kids ensures Refreshed(c, st, r, x) {
      RefreshedStays(c, st, s1, r, x);
    }
  }

  /** A parent still registered after an earlier step: if the step changed its
      proxy, its children from before that step were invalidated. */
  lemma StepKept(c: Config, st: Stage, s: Cache, s1: Cache, r: Cache, n: nat)
    requires Inv(c, r) && Shrunk(s1, r) && Settled(c, st, s1, r) && Recursed(c, st, s, s1)
    requires n in s.proxies && n in s1.proxies
    requires forall x :: x in s1.proxies[n].children ==> Refreshed(c, st, r, x)
    ensures forall x :: x in s.proxies[n].children ==> Refreshed(c, st, r, x)
  {
    forall x | x in s.proxies[n].children ensures Refreshed(c, st, r, x) {
      if s1.proxies[n] != s.proxies[n] {
        RefreshedStays(c, st, s1, r, x);
      }
    }
  }

  /** A parent an earlier step removed took its children along. */
  lemma StepGone(s: Cache, s1: Cache, r: Cache, P: SdfPath, kids: seq<SdfPath>)
    requires Shrunk(s1, r) && Closed(s, s1) && P in s.pathToProxy && P !in s1.pathToProxy
    requires forall x :: x in kids ==> IsChildOf(x, P)
    ensures P !in r.pathToProxy && forall x :: x in kids ==> x !in r.pathToProxy
  {
    forall x | x in kids ensures x !in r.pathToProxy {
      assert Under(x, P);
    }
  }

  lemma ParentStep(c: Config, st: Stage, s: Cache, s1: Cache, r: Cache, P: SdfPath, first: SdfPath, rest: seq<SdfPath>)
    requires StageWf(st) && Inv(c, s) && Inv(c, s1) && Inv(c, r)
    requires P == first || P in rest
    requires P in s.pathToProxy && Live(s, s.pathToProxy[P])
    requires Shrunk(s, s1) && Shrunk(s1, r) && Settled(c, st, s, s1) && Settled(c, st, s1, r) && Closed(s, s1)
    requires Recursed(c, st, s, s1)
    requires first in s.pathToProxy && Live(s, s.pathToProxy[first]) ==>
      Fresh(c, st, s1, first)
      && forall x :: x in s.proxies[s.pathToProxy[first].n].children + FilteredChildren(c.pred, st, first) ==>
           Refreshed(c, st, s1, x)
    requires forall P :: P in rest && P in s1.pathToProxy && Live(s1, s1.pathToProxy[P]) ==>
      Fresh(c, st, r, P)
      && forall x :: x in s1.proxies[s1.pathToProxy[P].n].children + FilteredChildren(c.pred, st, P) ==>
           Refreshed(c, st, r, x)
    ensures Fresh(c, st, r, P)
    ensures forall x :: x in s.proxies[s.pathToProxy[P].n].children + FilteredChildren(c.pred, st, P) ==>
              Refreshed(c, st, r, x)
  {
    var n := s.pathToProxy[P].n;
    var kids := s.proxies[n].children + FilteredChildren(c.pred, st, P);
    if P == first {
      StepStays(c, st, s1, r, P, kids);
    } else if P in s1.pathToProxy {
      var kids1 := s1.proxies[n].children + FilteredChildren(c.pred, st, P);
      assert forall x :: x in s1.proxies[n].children ==> x in kids1;
      StepKept(c, st, s, s1, r, n);
    } else {
      StepGone(s, s1, r, P, kids);
    }
  }

  /** `ResyncSubtrees`: the cache stays consistent and only loses entries.
      Each parent of a resynced path that is registered with a live proxy
      ends up listing its filtered children, and each of its children before
      the resync and after it is refreshed or gone; a path leaves the table
      only with its subtree; proxies are only destroyed or refreshed, and
      those not entered at or below such a parent are untouched. When no
      parent is registered with a live proxy, nothing changes. */
  lemma ResyncSpec(c: Config, st: Stage, s: Cache, paths: seq<SdfPath>)
    requires StageWf(st) && Inv(c, s)
    ensures var r := ResyncOf(c, st, s, paths);
      Inv(c, r) && Shrunk(s, r) && Settled(c, st, s, r) && Closed(s, r) && Recursed(c, st, s, r)
      && (forall p :: p in paths && ParentPath(p) in s.pathToProxy && Live(s, s.pathToProxy[ParentPath(p)]) ==>
            var P := ParentPath(p);
            Fresh(c, st, r, P)
            && forall x :: x in s.proxies[s.pathToProxy[P].n].children + FilteredChildren(c.pred, st, P) ==>
                 Refreshed(c, st, r, x))
      && (forall n :: n in s.proxies && (Owns(s, n) ==> forall p :: p in paths ==> !Under(s.proxies[n].prim, ParentPath(p))) ==>
            n in r.proxies && r.proxies[n] == s.proxies[n])
      && ((forall p :: p in paths ==> !(ParentPath(p) in s.pathToProxy && Live(s, s.pathToProxy[ParentPath(p)]))) ==> r == s)
  {
    var parents := UniqueParents(paths);
    ResyncAllFrame(c, st, s, parents);
    ResyncAllRefreshes(c, st, s, parents);
    forall p | p in paths ensures ParentPath(p) in parents { }
    forall P | P in parents ensures exists p :: p in paths && ParentPath(p) == P { }
  }
}

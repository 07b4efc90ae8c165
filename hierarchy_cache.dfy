// UsdQt_HierarchyCache as a class over its path table, the proxies alive and
// the proxy counter. Every method leaves the cache, and returns, what the
// function of the same operation in HierarchyCacheModel gives for the cache
// it started from; the properties of those functions are proved there. The
// stage is read at the moment of each call, so each method that consults it
// takes the current snapshot as a parameter.

module HierarchyCaches {
  import opened SdfPaths
  import opened UsdStages
  import opened HierarchyCacheModel

  class HierarchyCache {
    const pred: Predicate
    var rootProxy: ProxyRef
    var invalidPrim: ProxyRef
    var pathToProxy: map<SdfPath, ProxyRef>
    var proxies: map<nat, Proxy>
    var nextProxy: nat

    /** The table, the proxies and the counter. */
    function State(): Cache
      reads this
    {
      Cache(pathToProxy, proxies, nextProxy)
    }

    /** The predicate, `_root` and `_invalidPrim`. */
    function Cfg(): Config
      reads this
    {
      Config(pred, rootProxy, invalidPrim)
    }

    ghost predicate Valid()
      reads this
    {
      Inv(Cfg(), State())
    }

    /** The constructor registers the root prim, keeps its proxy as `_root`
        and makes the shared proxy of the invalid prim. */
    constructor(st: Stage, root: SdfPath, pred: Predicate)
      requires StageWf(st)
      ensures (Cfg(), State()) == Init(pred, st, root) && Valid()
    {
      this.pred := pred;
      rootProxy, invalidPrim := NullRef, NullRef;
      pathToProxy, proxies, nextProxy := map[], map[], 0;
      new;
      RegisterPrim(st, root);
      rootProxy := pathToProxy[root];
      invalidPrim := NewProxy(EmptyPath);
      InitSpec(pred, st, root);
    }

    /** `Proxy::New`: a proxy for the prim, with no children yet. */
    method NewProxy(prim: SdfPath) returns (r: ProxyRef)
      modifies this
      ensures r == Ref(old(nextProxy)) && nextProxy == old(nextProxy) + 1
      ensures proxies == old(proxies)[r.n := Proxy(prim, [])]
      ensures pathToProxy == old(pathToProxy) && Cfg() == old(Cfg())
    {
      r := Ref(nextProxy);
      proxies := proxies[nextProxy := Proxy(prim, [])];
      nextProxy := nextProxy + 1;
    }

    /** `_RefreshChildren`: the children are cleared, and a valid prim's
        filtered children are pushed back one by one. */
    method RefreshChildren(st: Stage, n: nat)
      requires n in proxies
      modifies this
      ensures State() == RefreshOf(Cfg(), st, old(State()), n) && Cfg() == old(Cfg())
    {
      var prim := proxies[n].prim;
      var children: seq<SdfPath> := [];
      if IsValidPrim(st, prim) {
        var kids := FilteredChildren(pred, st, prim);
        for i := 0 to |kids|
          invariant children == kids[..i]
        {
          children := children + [kids[i]];
        }
        assert kids[..|kids|] == kids;
      }
      proxies := proxies[n := Proxy(prim, children)];
    }

    /** `_RegisterPrim`. */
    method RegisterPrim(st: Stage, p: SdfPath)
      modifies this
      ensures State() == Register(pred, st, old(State()), p) && Cfg() == old(Cfg())
    {
      if p !in pathToProxy {
        var proxy := NewProxy(p);
        pathToProxy := TableInsert(pathToProxy, p, proxy);
        RefreshChildren(st, proxy.n);
      }
    }

    /** `ContainsPath`. */
    method ContainsPath(p: SdfPath) returns (found: bool)
      ensures found == HierarchyCacheModel.ContainsPath(State(), p)
    {
      found := p in pathToProxy;
    }

    /** `GetChildCount`. */
    method GetChildCount(proxy: ProxyRef) returns (count: nat)
      ensures count == HierarchyCacheModel.GetChildCount(State(), proxy)
    {
      if !(proxy.Ref? && proxy.n in proxies) {
        return 0;
      }
      count := |proxies[proxy.n].children|;
    }

    /** `GetChild`. */
    method GetChild(st: Stage, parent: ProxyRef, index: nat) returns (child: ProxyRef)
      modifies this
      ensures (State(), child) == HierarchyCacheModel.GetChild(Cfg(), st, old(State()), parent, index)
      ensures Cfg() == old(Cfg())
    {
      if !(parent.Ref? && parent.n in proxies) {
        return invalidPrim;
      }
      var kids := proxies[parent.n].children;
      if index >= |kids| {
        return invalidPrim;
      }
      var childPath := kids[index];
      if childPath in pathToProxy {
        return pathToProxy[childPath];
      }
      var valid := IsValidPrim(st, proxies[parent.n].prim) && IsValidPrim(st, childPath);
      RegisterPrim(st, if valid then childPath else EmptyPath);
      if childPath !in pathToProxy {
        return invalidPrim;
      }
      child := pathToProxy[childPath];
    }

    /** `GetParent`. */
    method GetParent(proxy: ProxyRef) returns (parent: ProxyRef)
      ensures parent == HierarchyCacheModel.GetParent(Cfg(), State(), proxy)
    {
      if !(proxy.Ref? && proxy.n in proxies) {
        return NullRef;
      }
      var parentPath := ParentPath(proxies[proxy.n].prim);
      if parentPath !in pathToProxy {
        return invalidPrim;
      }
      parent := pathToProxy[parentPath];
    }

    /** `IsRoot`. */
    method IsRoot(proxy: ProxyRef) returns (isRoot: bool)
      ensures isRoot == HierarchyCacheModel.IsRoot(Cfg(), State(), proxy)
    {
      if !(proxy.Ref? && proxy.n in proxies) {
        return false;
      }
      isRoot := rootProxy.Ref? && rootProxy.n in proxies && proxies[rootProxy.n].prim == proxies[proxy.n].prim;
    }

    /** `GetRow`: the search among the parent's children is the loop of
        `std::find`. */
    method GetRow(proxy: ProxyRef) returns (row: nat)
      ensures row == HierarchyCacheModel.GetRow(Cfg(), State(), proxy)
    {
      var isRoot := IsRoot(proxy);
      if isRoot || !(proxy.Ref? && proxy.n in proxies) {
        return 0;
      }
      var path := proxies[proxy.n].prim;
      var parentPath := ParentPath(path);
      if parentPath !in pathToProxy || !(pathToProxy[parentPath].Ref? && pathToProxy[parentPath].n in proxies) {
        return 0;
      }
      var siblings := proxies[pathToProxy[parentPath].n].children;
      row := 0;
      while row < |siblings| && siblings[row] != path
        invariant row <= |siblings|
        invariant FindIndex(siblings, path) == row + FindIndex(siblings[row..], path)
      {
        assert siblings[row..][1..] == siblings[row + 1..];
        row := row + 1;
      }
      if row == |siblings| {
        row := 0;
      }
    }

    /** `GetProxy`: the table's `operator[]`. */
    method GetProxy(p: SdfPath) returns (proxy: ProxyRef)
      modifies this
      ensures (State(), proxy) == HierarchyCacheModel.GetProxy(old(State()), p) && Cfg() == old(Cfg())
    {
      if p !in pathToProxy {
        pathToProxy := TableInsert(pathToProxy, p, NullRef);
      }
      proxy := pathToProxy[p];
    }

    /** `_DeleteSubtree`: the path is erased from the table with everything
        below it, and the proxies only those entries held are released. */
    method DeleteSubtree(p: SdfPath)
      modifies this
      ensures State() == DeleteOf(Cfg(), old(State()), p) && Cfg() == old(Cfg())
    {
      if p in pathToProxy {
        var gone := set q | q in pathToProxy && Under(q, p) && pathToProxy[q].Ref? :: pathToProxy[q].n;
        pathToProxy := map q | q in pathToProxy && !Under(q, p) :: pathToProxy[q];
        proxies := map n | n in proxies && (n !in gone || Ref(n) == rootProxy || Ref(n) == invalidPrim) :: proxies[n];
      }
    }

    /** `_InvalidateSubtree`: a kept proxy's old children are invalidated in
        order, then it re-reads its children; any other registered path is
        deleted with its subtree. */
    method InvalidateSubtree(st: Stage, p: SdfPath)
      requires StageWf(st) && Valid()
      modifies this
      ensures Cfg() == old(Cfg())
      ensures State() == InvalidateOf(Cfg(), st, old(State()), p) && Valid()
      decreases |Desc(State(), p)|
    {
      if p !in pathToProxy {
        return;
      }
      var ref := pathToProxy[p];
      if !(ref.Ref? && ref.n in proxies && IsValidPrim(st, proxies[ref.n].prim) && Accepts(pred, st, proxies[ref.n].prim)) {
        DeleteKeeps(Cfg(), State(), p);
        DeleteSubtree(p);
        return;
      }
      ghost var s := State();
      var kids := proxies[ref.n].children;
      ghost var target := InvalidateAll(Cfg(), st, s, p, kids);
      for i := 0 to |kids|
        invariant Valid() && Cfg() == old(Cfg()) && p in pathToProxy && pathToProxy[p] == ref
        invariant |Desc(State(), p)| <= |Desc(s, p)|
        invariant InvalidateAll(Cfg(), st, State(), p, kids[i..]) == target
      {
        assert kids[i..][1..] == kids[i + 1..];
        DescShrinks(State(), p, kids[i]);
        ChildParentPath(kids[i], p);
        ghost var before := State();
        InvalidateSubtree(st, kids[i]);
        ShrunkDesc(before, State(), p);
      }
      RefreshChildren(st, ref.n);
    }

    /** One parent of `ResyncSubtrees`. */
    method ResyncParent(st: Stage, parent: SdfPath)
      requires StageWf(st) && Valid()
      modifies this
      ensures Cfg() == old(Cfg())
      ensures State() == HierarchyCacheModel.ResyncParent(Cfg(), st, old(State()), parent) && Valid()
    {
      if parent !in pathToProxy || !(pathToProxy[parent].Ref? && pathToProxy[parent].n in proxies) {
        return;
      }
      var n := pathToProxy[parent].n;
      var original := proxies[n].children;
      RefreshKeeps(Cfg(), st, State(), n);
      RefreshChildren(st, n);
      var allChildren := Uniq(SortPaths(original + proxies[n].children));
      ghost var target := InvalidateEach(Cfg(), st, State(), allChildren);
      for i := 0 to |allChildren|
        invariant Valid() && Cfg() == old(Cfg())
        invariant InvalidateEach(Cfg(), st, State(), allChildren[i..]) == target
      {
        assert allChildren[i..][1..] == allChildren[i + 1..];
        InvalidateSubtree(st, allChildren[i]);
      }
    }

    /** `ResyncSubtrees`: the distinct parents of the paths, in ascending
        order. */
    method ResyncSubtrees(st: Stage, paths: seq<SdfPath>)
      requires StageWf(st) && Valid()
      modifies this
      ensures Cfg() == old(Cfg())
      ensures State() == ResyncOf(Cfg(), st, old(State()), paths) && Valid()
    {
      var parents := UniqueParents(paths);
      ghost var target := ResyncAll(Cfg(), st, State(), parents);
      for i := 0 to |parents|
        invariant Valid() && Cfg() == old(Cfg())
        invariant ResyncAll(Cfg(), st, State(), parents[i..]) == target
      {
        assert parents[i..][1..] == parents[i + 1..];
        ResyncParent(st, parents[i]);
      }
    }
  }
}

// The variant helpers of usdlib: hierarchical cache keys built from the
// selections of a prim, re-selection of some sets, the search of a layer's
// prim spec for a combination of selections, and the listing of a prim's
// selections from its prim index.

module Variants {
  import opened Wrappers
  import opened Selections

  // ------------------------------------------------------------ cache keys

  /** `{set=variant}`. */
  function Token(v: PrimVariant): (r: string)
    ensures |r| == |v.setName| + |v.variantName| + 3 && r[0] == '{' && r[|r| - 1] == '}'
  {
    "{" + v.setName + "=" + v.variantName + "}"
  }

  /** `variantSelectionKey`: the tokens of all selections, in order. */
  function SelectionKey(vs: seq<PrimVariant>): (r: string)
    ensures r == "" <==> vs == []
  {
    if vs == [] then "" else SelectionKey(vs[..|vs| - 1]) + Token(vs[|vs| - 1])
  }

  /** The key of a concatenation is the concatenation of the keys. */
  lemma {:induction false} SelectionKeyAppend(a: seq<PrimVariant>, b: seq<PrimVariant>)
    ensures SelectionKey(a + b) == SelectionKey(a) + SelectionKey(b)
    decreases |b|
  {
    if b == [] {
      assert a + b == a;
    } else {
      var n := |b| - 1;
      var front, t := b[..n], Token(b[n]);
      assert (a + b)[..|a + b| - 1] == a + front && (a + b)[|a + b| - 1] == b[n];
      assert SelectionKey(a + b) == SelectionKey(a + front) + t;
      assert SelectionKey(b) == SelectionKey(front) + t;
      SelectionKeyAppend(a, front);
      assert SelectionKey(a) + SelectionKey(front) + t == SelectionKey(a) + (SelectionKey(front) + t);
    }
  }

  /** `variantSelectionKey`'s loop, appending one token per selection. */
  method VariantSelectionKey(vs: seq<PrimVariant>) returns (key: string)
    ensures key == SelectionKey(vs)
  {
    key := "";
    for i := 0 to |vs|
      invariant key == SelectionKey(vs[..i])
    {
      assert vs[..i + 1][..i] == vs[..i];
      key := key + Token(vs[i]);
    }
    assert vs[..|vs|] == vs;
  }

  /** The keys `iterVariantSetKeys` yields after the running key `prefix`. */
  function SetKeysFrom(prefix: string, vs: seq<PrimVariant>): (r: seq<string>)
    ensures |r| == |vs|
    decreases |vs|
  {
    if vs == [] then [] else [prefix + vs[0].setName] + SetKeysFrom(prefix + Token(vs[0]), vs[1..])
  }

  /** `iterVariantSetKeys`: one key per selection. */
  function SetKeys(vs: seq<PrimVariant>): (r: seq<string>)
    ensures |r| == |vs|
  {
    SetKeysFrom("", vs)
  }

  /** The key of a single selection is its token. */
  lemma SelectionKeyOne(v: PrimVariant)
    ensures SelectionKey([v]) == Token(v)
  {
    assert [v][..0] == [];
  }

  lemma {:induction false} SetKeysFromAt(prefix: string, vs: seq<PrimVariant>, k: nat)
    requires k < |vs|
    ensures SetKeysFrom(prefix, vs)[k] == prefix + SelectionKey(vs[..k]) + vs[k].setName
    decreases k
  {
    if k == 0 {
      assert vs[..0] == [];
    } else {
      var t := Token(vs[0]);
      var j: nat := k - 1;
      SetKeysFromTail(prefix, vs, k);
      SetKeysFromAt(prefix + t, vs[1..], j);
      SelectionKeyCons(vs, k);
      JoinKey(prefix, t, SelectionKey(vs[1..][..j]), vs[k].setName);
    }
  }

  lemma SetKeysFromTail(prefix: string, vs: seq<PrimVariant>, k: nat)
    requires 0 < k < |vs|
    ensures SetKeysFrom(prefix, vs)[k] == SetKeysFrom(prefix + Token(vs[0]), vs[1..])[k - 1]
    ensures vs[1..][k - 1] == vs[k]
  {
  }

  /** The key of the first k selections is the first token followed by the
      key of the next k - 1. */
  lemma SelectionKeyCons(vs: seq<PrimVariant>, k: nat)
    requires 0 < k <= |vs|
    ensures SelectionKey(vs[..k]) == Token(vs[0]) + SelectionKey(vs[1..][..k - 1])
  {
    assert vs[..k] == [vs[0]] + vs[1..][..k - 1];
    SelectionKeyAppend([vs[0]], vs[1..][..k - 1]);
    SelectionKeyOne(vs[0]);
  }

  lemma JoinKey(prefix: string, t: string, key: string, name: string)
    ensures prefix + t + key + name == prefix + (t + key) + name
  {
  }

  /** The k-th key is the selection key of the first k selections followed by
      the k-th set name. */
  lemma SetKeysSpec(vs: seq<PrimVariant>)
    ensures |SetKeys(vs)| == |vs|
    ensures forall k :: 0 <= k < |vs| ==> SetKeys(vs)[k] == SelectionKey(vs[..k]) + vs[k].setName
  {
    forall k | 0 <= k < |vs|
      ensures SetKeys(vs)[k] == SelectionKey(vs[..k]) + vs[k].setName
    {
      SetKeysFromAt("", vs, k);
      assert "" + SelectionKey(vs[..k]) == SelectionKey(vs[..k]);
    }
  }

  /** `iterVariantSetKeys`'s loop: yield the running key and the set name,
      then extend the running key with the selection's token. */
  method IterVariantSetKeys(vs: seq<PrimVariant>) returns (keys: seq<string>)
    ensures keys == SetKeys(vs)
  {
    keys := [];
    var key := "";
    for i := 0 to |vs|
      invariant keys + SetKeysFrom(key, vs[i..]) == SetKeys(vs)
    {
      assert vs[i..][1..] == vs[i + 1..];
      keys := keys + [key + vs[i].setName];
      key := key + Token(vs[i]);
    }
  }

  /** The smaller of two lengths, as `zip` stops at the shorter input. */
  function Min(a: nat, b: nat): (r: nat)
    ensures r <= a && r <= b && (r == a || r == b)
  {
    if a <= b then a else b
  }

  /** `variantsByKey`: each variant name paired with its set's key. Given
      keys are used unless they are missing or empty. */
  function VariantsByKey(vs: seq<PrimVariant>, cacheKeys: Option<seq<string>>): (r: seq<(string, string)>)
    ensures cacheKeys.None? || cacheKeys.value == [] ==> |r| == |vs|
    ensures cacheKeys.Some? && cacheKeys.value != [] ==> |r| == Min(|cacheKeys.value|, |vs|)
    ensures forall i :: 0 <= i < |r| ==> r[i].1 == vs[i].variantName
    ensures forall i :: 0 <= i < |r| ==>
      (r[i].0 == if cacheKeys.Some? && cacheKeys.value != [] then cacheKeys.value[i]
                 else SelectionKey(vs[..i]) + vs[i].setName)
  {
    SetKeysSpec(vs);
    var keys := if cacheKeys.Some? && cacheKeys.value != [] then cacheKeys.value else SetKeys(vs);
    seq(Min(|keys|, |vs|), i requires 0 <= i < Min(|keys|, |vs|) => (keys[i], vs[i].variantName))
  }

  // --------------------------------------------------------- re-selection

  /** `applySelection`'s result: the selections in the same order, with the
      variant of every set the selection names replaced. */
  function Applied(vs: seq<PrimVariant>, selection: map<string, string>): (r: seq<PrimVariant>)
    ensures |r| == |vs| && SetNames(r) == SetNames(vs)
    ensures forall i :: 0 <= i < |vs| && vs[i].setName in selection ==> r[i].variantName == selection[vs[i].setName]
    ensures forall i :: 0 <= i < |vs| && vs[i].setName !in selection ==> r[i] == vs[i]
  {
    var r := seq(|vs|, i requires 0 <= i < |vs| =>
      if vs[i].setName in selection then PrimVariant(vs[i].setName, selection[vs[i].setName]) else vs[i]);
    assert SetNames(r) == SetNames(vs);
    r
  }

  /** `applySelection`'s loop. */
  method ApplySelection(vs: seq<PrimVariant>, selection: map<string, string>) returns (result: seq<PrimVariant>)
    ensures result == Applied(vs, selection)
  {
    result := [];
    for i := 0 to |vs|
      invariant result == Applied(vs[..i], selection)
    {
      var v := vs[i];
      if v.setName in selection {
        v := PrimVariant(v.setName, selection[v.setName]);
      }
      result := result + [v];
    }
    assert vs[..|vs|] == vs;
  }

  /** Applying two selections one after the other is applying their union,
      the later one winning; applying one twice is applying it once. */
  lemma AppliedTwice(vs: seq<PrimVariant>, s1: map<string, string>, s2: map<string, string>)
    ensures Applied(Applied(vs, s1), s2) == Applied(vs, s1 + s2)
    ensures Applied(Applied(vs, s1), s1) == Applied(vs, s1)
  {
  }

  // ------------------------------------------------- searching a layer spec

  /** A prim spec with its variant sets, each variant holding the prim spec
      its opinions go into, in the order of the layer's dictionaries. */
  datatype PrimSpec = PrimSpec(variantSets: seq<VariantSetSpec>)
  datatype VariantSetSpec = VariantSetSpec(name: string, variants: seq<VariantSpec>)
  datatype VariantSpec = VariantSpec(name: string, primSpec: PrimSpec)

  /** The index of the first variant called `name`, or `|vars|`. */
  function VariantIndex(vars: seq<VariantSpec>, name: string): (r: nat)
    ensures r <= |vars| && (r < |vars| ==> vars[r].name == name)
    ensures forall j :: 0 <= j < r ==> vars[j].name != name
  {
    if vars == [] then 0 else if vars[0].name == name then 0 else 1 + VariantIndex(vars[1..], name)
  }

  /** The search of `layerPrimHasVariantSelection` once unset entries are
      dropped. An empty selection is found. A spec without variant sets finds
      nothing more. If some of its sets are selected, the first of them whose
      selected variant exists decides, searching that variant without the
      set; if none has its variant, the answer is no. Otherwise every variant
      of the first set is searched with the whole selection. */
  function HasSelection(spec: PrimSpec, selection: map<string, string>): (r: bool)
    ensures selection == map[] ==> r
    ensures selection != map[] && spec.variantSets == [] ==> !r
    decreases spec, 2, 0
  {
    if selection == map[] then true
    else if spec.variantSets == [] then false
    else if exists i :: 0 <= i < |spec.variantSets| && spec.variantSets[i].name in selection then
      TryIntersected(spec, selection, 0)
    else
      TryVariants(spec, selection, 0)
  }

  /** The loop over the selected sets, from the `i`-th. */
  function TryIntersected(spec: PrimSpec, selection: map<string, string>, i: nat): (r: bool)
    requires i <= |spec.variantSets|
    decreases spec, 1, |spec.variantSets| - i
  {
    if i == |spec.variantSets| then false
    else
      var vset := spec.variantSets[i];
      if vset.name in selection && VariantIndex(vset.variants, selection[vset.name]) < |vset.variants| then
        var v := vset.variants[VariantIndex(vset.variants, selection[vset.name])];
        assert v in vset.variants && vset in spec.variantSets;
        HasSelection(v.primSpec, selection - {vset.name})
      else TryIntersected(spec, selection, i + 1)
  }

  /** The loop over the variants of the first set, from the `j`-th. */
  function TryVariants(spec: PrimSpec, selection: map<string, string>, j: nat): (r: bool)
    requires spec.variantSets != [] && j <= |spec.variantSets[0].variants|
    decreases spec, 1, |spec.variantSets[0].variants| - j
  {
    var vars := spec.variantSets[0].variants;
    if j == |vars| then false
    else
      assert vars[j] in vars && spec.variantSets[0] in spec.variantSets;
      HasSelection(vars[j].primSpec, selection) || TryVariants(spec, selection, j + 1)
  }

  /** The selection can be met: choosing a variant of some set of the spec,
      the selected one if the set is selected, leaves a selection without
      that set that the chosen variant's spec can meet. */
  ghost predicate Realizable(spec: PrimSpec, selection: map<string, string>)
    decreases spec
  {
    selection == map[]
    || exists i, j :: 0 <= i < |spec.variantSets| && 0 <= j < |spec.variantSets[i].variants|
         && (spec.variantSets[i].name in selection ==> spec.variantSets[i].variants[j].name == selection[spec.variantSets[i].name])
         && Realizable(spec.variantSets[i].variants[j].primSpec, selection - {spec.variantSets[i].name})
  }

  /** What the search finds can be met. */
  lemma {:induction false} HasSelectionSound(spec: PrimSpec, selection: map<string, string>)
    requires HasSelection(spec, selection)
    ensures Realizable(spec, selection)
    decreases spec, 2, 0
  {
    if selection != map[] {
      if exists i :: 0 <= i < |spec.variantSets| && spec.variantSets[i].name in selection {
        TryIntersectedSound(spec, selection, 0);
      } else {
        TryVariantsSound(spec, selection, 0);
      }
    }
  }

  lemma {:induction false} TryIntersectedSound(spec: PrimSpec, selection: map<string, string>, i: nat)
    requires i <= |spec.variantSets| && selection != map[] && TryIntersected(spec, selection, i)
    ensures Realizable(spec, selection)
    decreases spec, 1, |spec.variantSets| - i
  {
    var vset := spec.variantSets[i];
    if vset.name in selection && VariantIndex(vset.variants, selection[vset.name]) < |vset.variants| {
      var j := VariantIndex(vset.variants, selection[vset.name]);
      assert vset.variants[j] in vset.variants && vset in spec.variantSets;
      HasSelectionSound(vset.variants[j].primSpec, selection - {vset.name});
    } else {
      TryIntersectedSound(spec, selection, i + 1);
    }
  }

  lemma {:induction false} TryVariantsSound(spec: PrimSpec, selection: map<string, string>, j: nat)
    requires spec.variantSets != [] && j <= |spec.variantSets[0].variants| && selection != map[]
    requires forall i :: 0 <= i < |spec.variantSets| ==> spec.variantSets[i].name !in selection
    requires TryVariants(spec, selection, j)
    ensures Realizable(spec, selection)
    decreases spec, 1, |spec.variantSets[0].variants| - j
  {
    var vars := spec.variantSets[0].variants;
    assert vars[j] in vars && spec.variantSets[0] in spec.variantSets;
    if HasSelection(vars[j].primSpec, selection) {
      HasSelectionSound(vars[j].primSpec, selection);
      assert selection - {spec.variantSets[0].name} == selection;
    } else {
      TryVariantsSound(spec, selection, j + 1);
    }
  }

  /** The set entries of a selection that hold a value. */
  function SetEntries(selection: map<string, Option<string>>): (r: map<string, string>)
    ensures forall k :: k in r <==> k in selection && selection[k].Some?
    ensures forall k :: k in r ==> r[k] == selection[k].value
  {
    map k | k in selection && selection[k].Some? :: selection[k].value
  }

  /** `layerPrimHasVariantSelection`: unset entries are ignored, so a
      selection with no value set is found; a selection with a value on a
      spec with no variant sets is not; whatever is found can be met. */
  function LayerPrimHasVariantSelection(spec: PrimSpec, selection: map<string, Option<string>>): (r: bool)
    ensures (forall k :: k in selection ==> selection[k].None?) ==> r
    ensures (exists k :: k in selection && selection[k].Some?) && spec.variantSets == [] ==> !r
    ensures r ==> Realizable(spec, SetEntries(selection))
  {
    var entries := SetEntries(selection);
    if HasSelection(spec, entries) then
      HasSelectionSound(spec, entries);
      true
    else false
  }

  // ------------------------------------------------- selections of a prim

  /** A node of a prim index: whether it was introduced by a variant arc and
      not only because of an ancestor, the variant selection of its path, and
      its child nodes. */
  datatype PcpNode = PcpNode(isVariant: bool, dueToAncestor: bool, selection: PrimVariant, children: seq<PcpNode>)

  /** The variant selection a node contributes, if any. */
  function Contributed(n: PcpNode): (r: seq<PrimVariant>)
    ensures |r| <= 1 && (r != [] <==> n.isVariant && !n.dueToAncestor)
  {
    if n.isVariant && !n.dueToAncestor then [n.selection] else []
  }

  /** The number of nodes in a node's subtree. */
  function Size(n: PcpNode): (r: nat)
    ensures r >= 1
    decreases n, 1
  {
    1 + SizeAll(n.children)
  }

  function SizeAll(ns: seq<PcpNode>): (r: nat)
    ensures ns != [] ==> r > SizeAll(ns[1..])
    decreases ns, 0
  {
    if ns == [] then 0 else Size(ns[0]) + SizeAll(ns[1..])
  }

  lemma {:induction false} SizeAllAppend(a: seq<PcpNode>, b: seq<PcpNode>)
    ensures SizeAll(a + b) == SizeAll(a) + SizeAll(b)
    decreases |a|
  {
    if a == [] {
      assert a + b == b;
    } else {
      assert (a + b)[1..] == a[1..] + b;
      SizeAllAppend(a[1..], b);
    }
  }

  /** The walk of `iterPrimIndexVariantNodes`: the queue is served from the
      front and each node's children join at the back. */
  function Bfs(queue: seq<PcpNode>): (r: seq<PrimVariant>)
    decreases SizeAll(queue)
  {
    if queue == [] then []
    else
      SizeAllAppend(queue[1..], queue[0].children);
      assert SizeAll(queue) == 1 + SizeAll(queue[0].children) + SizeAll(queue[1..]);
      Contributed(queue[0]) + Bfs(queue[1..] + queue[0].children)
  }

  /** The depth-first pre-order walk of a node's subtree. */
  function Walk(n: PcpNode): (r: seq<PrimVariant>)
    decreases n, 1
  {
    Contributed(n) + WalkAll(n.children)
  }

  function WalkAll(ns: seq<PcpNode>): (r: seq<PrimVariant>)
    decreases ns, 0
  {
    if ns == [] then [] else Walk(ns[0]) + WalkAll(ns[1..])
  }

  lemma {:induction false} WalkAllAppend(a: seq<PcpNode>, b: seq<PcpNode>)
    ensures WalkAll(a + b) == WalkAll(a) + WalkAll(b)
    decreases |a|
  {
    if a == [] {
      assert a + b == b;
    } else {
      assert (a + b)[1..] == a[1..] + b;
      WalkAllAppend(a[1..], b);
    }
  }

  /** The breadth-first walk meets the same selections as the depth-first
      one, as often, in another order. */
  lemma {:induction false} BfsPermutesWalk(queue: seq<PcpNode>)
    ensures multiset(Bfs(queue)) == multiset(WalkAll(queue))
    decreases SizeAll(queue)
  {
    if queue != [] {
      var next := queue[1..] + queue[0].children;
      SizeAllAppend(queue[1..], queue[0].children);
      assert SizeAll(queue) == 1 + SizeAll(queue[0].children) + SizeAll(queue[1..]);
      BfsPermutesWalk(next);
      WalkAllAppend(queue[1..], queue[0].children);
    }
  }

  /** `iterPrimIndexVariantNodes` as a loop over a queue that starts with the
      root's children. */
  method IterPrimIndexVariantNodes(root: PcpNode) returns (found: seq<PrimVariant>)
    ensures found == Bfs(root.children)
  {
    found := [];
    var queue := root.children;
    while queue != []
      invariant found + Bfs(queue) == Bfs(root.children)
      decreases SizeAll(queue)
    {
      var node := queue[0];
      SizeAllAppend(queue[1..], node.children);
      assert SizeAll(queue) == 1 + SizeAll(node.children) + SizeAll(queue[1..]);
      BfsServe(found, queue);
      found := found + Contributed(node);
      queue := queue[1..] + node.children;
    }
  }

  /** Serving the front of the queue keeps what has been found plus what the
      queue will yield. */
  lemma BfsServe(found: seq<PrimVariant>, queue: seq<PcpNode>)
    requires queue != []
    ensures (found + Contributed(queue[0])) + Bfs(queue[1..] + queue[0].children) == found + Bfs(queue)
  {
    var rest := Bfs(queue[1..] + queue[0].children);
    assert Bfs(queue) == Contributed(queue[0]) + rest;
    AppendAssoc(found, Contributed(queue[0]), rest);
  }

  /** The sets the prim declares that the walk never met, each with its
      current selection. */
  function Unmet(setNames: seq<string>, seen: set<string>, selectionOf: string -> string): (r: seq<PrimVariant>)
    ensures forall x :: x in r <==> x.setName in setNames && x.setName !in seen && x.variantName == selectionOf(x.setName)
  {
    if setNames == [] then []
    else if setNames[0] in seen then Unmet(setNames[1..], seen, selectionOf)
    else [PrimVariant(setNames[0], selectionOf(setNames[0]))] + Unmet(setNames[1..], seen, selectionOf)
  }

  /** The set names met in the prim index. */
  function MetSets(root: PcpNode): (r: set<string>)
    ensures forall n :: n in r <==> n in SetNames(Bfs(root.children))
  {
    NameSet(Bfs(root.children))
  }

  /** `getPrimVariants`: the first selection of each set met in the prim
      index, then the prim's other sets with their current selection. */
  function PrimVariants(root: PcpNode, setNames: seq<string>, selectionOf: string -> string): (r: seq<PrimVariant>)
  {
    var met := Bfs(root.children);
    FirstWithin(met, MetSets(root)) + Unmet(setNames, MetSets(root), selectionOf)
  }

  /** No set is listed twice when the prim's set names are distinct. */
  lemma PrimVariantsDistinct(root: PcpNode, setNames: seq<string>, selectionOf: string -> string)
    requires forall i, j :: 0 <= i < j < |setNames| ==> setNames[i] != setNames[j]
    ensures DistinctSets(PrimVariants(root, setNames, selectionOf))
  {
    var met := Bfs(root.children);
    var seen := MetSets(root);
    var first := FirstWithin(met, seen);
    var rest := Unmet(setNames, seen, selectionOf);
    var r := first + rest;
    assert r == PrimVariants(root, setNames, selectionOf);
    FirstWithinSpec(met, seen);
    UnmetDistinct(setNames, seen, selectionOf);
    forall i, j | 0 <= i < j < |r|
      ensures r[i].setName != r[j].setName
    {
      if j < |first| {
        assert r[i] == first[i] && r[j] == first[j];
      } else if i >= |first| {
        assert r[i] == rest[i - |first|] && r[j] == rest[j - |first|];
      } else {
        assert r[i] == first[i] && r[i] in first;
        assert r[j] == rest[j - |first|] && r[j] in rest;
      }
    }
  }

  /** Each set met in the index comes with its first selection there; a set
      never met comes with its current selection. */
  lemma PrimVariantsChosen(root: PcpNode, setNames: seq<string>, selectionOf: string -> string, x: PrimVariant)
    requires x in PrimVariants(root, setNames, selectionOf)
    ensures var met := Bfs(root.children);
      if x.setName in SetNames(met) then x == met[FirstIn(met, x.setName)]
      else x.setName in setNames && x.variantName == selectionOf(x.setName)
  {
    var met := Bfs(root.children);
    var seen := MetSets(root);
    FirstWithinSpec(met, seen);
    assert x in FirstWithin(met, seen) || x in Unmet(setNames, seen, selectionOf);
  }

  /** The sets listed are those met in the index and those the prim
      declares. */
  lemma PrimVariantsSets(root: PcpNode, setNames: seq<string>, selectionOf: string -> string, n: string)
    ensures n in SetNames(PrimVariants(root, setNames, selectionOf)) <==>
      n in SetNames(Bfs(root.children)) || n in setNames
  {
    var met := Bfs(root.children);
    var seen := MetSets(root);
    var first := FirstWithin(met, seen);
    var rest := Unmet(setNames, seen, selectionOf);
    var r := first + rest;
    assert r == PrimVariants(root, setNames, selectionOf);
    FirstWithinSets(met, seen);
    SetNamesIn(r, n);
    SetNamesIn(first, n);
    if n in setNames && n !in seen {
      assert PrimVariant(n, selectionOf(n)) in rest;
      assert PrimVariant(n, selectionOf(n)) in r;
    }
    if exists x :: x in r && x.setName == n {
      var x :| x in r && x.setName == n;
      assert x in first || x in rest;
    }
    if exists x :: x in first && x.setName == n {
      var x :| x in first && x.setName == n;
      assert x in r;
    }
  }

  lemma {:induction false} UnmetDistinct(setNames: seq<string>, seen: set<string>, selectionOf: string -> string)
    requires forall i, j :: 0 <= i < j < |setNames| ==> setNames[i] != setNames[j]
    ensures DistinctSets(Unmet(setNames, seen, selectionOf))
    decreases |setNames|
  {
    if setNames != [] {
      UnmetDistinct(setNames[1..], seen, selectionOf);
      var rest := Unmet(setNames[1..], seen, selectionOf);
      forall j | 0 <= j < |rest|
        ensures rest[j].setName != setNames[0]
      {
        assert rest[j] in rest;
      }
    }
  }

  /** The first loop of `getPrimVariants`: keep the first selection of
      each set, noting the sets seen. */
  method FirstOfEachSet(met: seq<PrimVariant>) returns (results: seq<PrimVariant>, seen: set<string>)
    ensures results == FirstWithin(met, NameSet(met)) && seen == NameSet(met)
  {
    results := [];
    seen := {};
    ghost var all := NameSet(met);
    assert met[0..] == met && met[..0] == [] && all - seen == all;
    for i := 0 to |met|
      invariant seen == NameSet(met[..i])
      invariant results + FirstWithin(met[i..], all - seen) == FirstWithin(met, all)
    {
      FirstOfEachStep(met, i, results, seen, all);
      if met[i].setName !in seen {
        results := results + [met[i]];
        seen := seen + {met[i].setName};
      }
    }
    assert met[..|met|] == met && met[|met|..] == [];
  }

  /** `getPrimVariants`: the walk of the prim index, the first loop, then
      the loop over the prim's own sets. */
  method GetPrimVariants(root: PcpNode, setNames: seq<string>, selectionOf: string -> string) returns (results: seq<PrimVariant>)
    ensures results == PrimVariants(root, setNames, selectionOf)
  {
    var met := IterPrimIndexVariantNodes(root);
    var seen;
    results, seen := FirstOfEachSet(met);
    ghost var first := results;
    for i := 0 to |setNames|
      invariant results == first + Unmet(setNames[..i], seen, selectionOf)
    {
      UnmetPrefixStep(setNames, i, seen, selectionOf);
      if setNames[i] !in seen {
        results := results + [PrimVariant(setNames[i], selectionOf(setNames[i]))];
      }
    }
    assert setNames[..|setNames|] == setNames;
  }

  lemma UnmetPrefixStep(setNames: seq<string>, i: nat, seen: set<string>, selectionOf: string -> string)
    requires i < |setNames|
    ensures Unmet(setNames[..i + 1], seen, selectionOf) == Unmet(setNames[..i], seen, selectionOf)
      + (if setNames[i] in seen then [] else [PrimVariant(setNames[i], selectionOf(setNames[i]))])
  {
    UnmetSnoc(setNames[..i], setNames[i], seen, selectionOf);
    assert setNames[..i + 1] == setNames[..i] + [setNames[i]];
  }

  /** One round of the first loop of `getPrimVariants` keeps its invariant. */
  lemma FirstOfEachStep(met: seq<PrimVariant>, i: nat, results: seq<PrimVariant>, seen: set<string>, all: set<string>)
    requires i < |met| && all == NameSet(met) && seen == NameSet(met[..i])
    requires results + FirstWithin(met[i..], all - seen) == FirstWithin(met, all)
    ensures met[i].setName in seen ==>
      NameSet(met[..i + 1]) == seen
      && results + FirstWithin(met[i + 1..], all - seen) == FirstWithin(met, all)
    ensures met[i].setName !in seen ==>
      NameSet(met[..i + 1]) == seen + {met[i].setName}
      && (results + [met[i]]) + FirstWithin(met[i + 1..], all - (seen + {met[i].setName})) == FirstWithin(met, all)
  {
    var n := met[i].setName;
    var open := all - seen;
    PrefixNamesStep(met, i);
    assert n in all by {
      assert SetNames(met)[i] == n;
    }
    assert all - (seen + {n}) == open - {n};
    FirstWithinStep(met, i, open);
    if n !in seen {
      AppendAssoc(results, [met[i]], FirstWithin(met[i + 1..], open - {n}));
    }
  }

  lemma PrefixNamesStep(met: seq<PrimVariant>, i: nat)
    requires i < |met|
    ensures NameSet(met[..i + 1]) == NameSet(met[..i]) + {met[i].setName}
  {
    assert met[..i + 1] == met[..i] + [met[i]];
    NameSetSnoc(met[..i], met[i]);
  }

  lemma AppendAssoc(a: seq<PrimVariant>, b: seq<PrimVariant>, c: seq<PrimVariant>)
    ensures a + (b + c) == (a + b) + c
  {
  }

  lemma FirstWithinStep(vs: seq<PrimVariant>, i: nat, open: set<string>)
    requires i < |vs|
    ensures FirstWithin(vs[i..], open) ==
      if vs[i].setName in open then [vs[i]] + FirstWithin(vs[i + 1..], open - {vs[i].setName})
      else FirstWithin(vs[i + 1..], open)
  {
    assert vs[i..][1..] == vs[i + 1..];
  }

  lemma {:induction false} UnmetSnoc(a: seq<string>, x: string, seen: set<string>, selectionOf: string -> string)
    ensures Unmet(a + [x], seen, selectionOf) ==
      Unmet(a, seen, selectionOf) + (if x in seen then [] else [PrimVariant(x, selectionOf(x))])
    decreases |a|
  {
    if a == [] {
      assert a + [x] == [x];
    } else {
      assert (a + [x])[1..] == a[1..] + [x];
      UnmetSnoc(a[1..], x, seen, selectionOf);
    }
  }

  // ------------------------------------------------------------- examples

  /** The selections of the library's own tests and doctests. */
  const ElemColorVersion := [PrimVariant("elem", "anim"), PrimVariant("color", "blue"), PrimVariant("version", "A02")]

  lemma ExampleTokens()
    ensures Token(ElemColorVersion[0]) == "{elem=anim}"
    ensures Token(ElemColorVersion[1]) == "{color=blue}"
  {
  }

  lemma ExampleJoins()
    ensures "{elem=anim}" + "color" == "{elem=anim}color"
    ensures "{elem=anim}" + "{color=blue}" + "version" == "{elem=anim}{color=blue}version"
  {
  }

  /** The keys the doctest of `iterVariantSetKeys` shows. */
  lemma KeysExample()
    ensures SetKeys(ElemColorVersion) == ["elem", "{elem=anim}color", "{elem=anim}{color=blue}version"]
  {
    var vs := ElemColorVersion;
    var e, c, v := vs[0], vs[1], vs[2];
    assert vs[1..] == [c, v] && [c, v][1..] == [v] && [v][1..] == [];
    var t1, t2 := Token(e), Token(c);
    assert SetKeysFrom(t1 + t2, [v]) == [t1 + t2 + "version"];
    assert SetKeysFrom(t1, [c, v]) == [t1 + "color", t1 + t2 + "version"];
    assert "" + t1 == t1 && "" + "elem" == "elem";
    assert SetKeysFrom("", vs) == ["elem", t1 + "color", t1 + t2 + "version"];
    ExampleTokens();
    ExampleJoins();
  }

  /** The pairs the doctest of `variantsByKey` shows. */
  lemma ByKeyExample()
    ensures VariantsByKey(ElemColorVersion, None)
      == [("elem", "anim"), ("{elem=anim}color", "blue"), ("{elem=anim}{color=blue}version", "A02")]
  {
    KeysExample();
    SetKeysSpec(ElemColorVersion);
  }

  /** The re-selection of the tests: only the colour changes. */
  lemma AppliedExample()
    ensures Applied(ElemColorVersion, map["color" := "red"])
      == [PrimVariant("elem", "anim"), PrimVariant("color", "red"), PrimVariant("version", "A02")]
  {
  }
}

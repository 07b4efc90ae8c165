// The Python port of the prim id table. It keeps the same two maps and
// counter, and its registration, deletion and invalidation do what the C++
// table does; its lookups raise where the C++ returns a fallback value, its
// constructor asserts that ids are available, and its resync raises on an
// unregistered parent or on an out-of-sync child it notices. Three of its
// lines differ from the C++ they were ported from: `binarySearch` answers "not
// above the maximum" rather than membership, so the resync keeps some
// children the C++ reports out of sync; `IsRoot` compares an item record with
// a path; and `GetRow` searches the record rather than its children list.

module PrimIdTablePort {
  import opened Wrappers
  import opened SdfPaths
  import opened UsdStages
  import opened PrimIdTableModel

  /** `sys.maxint` on a 64-bit build: the port's default `maxId`. */
  const PyMaxInt: nat := 0x7FFF_FFFF_FFFF_FFFF

  /** `Tf.ErrorException`, and the `ValueError`, `IndexError` and
      `AssertionError` that Python raises on its own. */
  datatype PortError = ErrorException | ValueError | IndexError | AssertionError

  // ---------------------------------------------------------------- bisect

  lemma SortedBelow(a: seq<SdfPath>, k: nat, j: nat, x: SdfPath)
    requires Sorted(a) && k <= j < |a| && PathLess(a[j], x)
    ensures PathLess(a[k], x)
  {
    if k < j {
      PathLessTotal(a[k], a[j]);
      if a[k] != a[j] {
        PathLessTransitive(a[k], a[j], x);
      }
    }
  }

  lemma SortedAbove(a: seq<SdfPath>, j: nat, k: nat, x: SdfPath)
    requires Sorted(a) && j <= k < |a| && !PathLess(a[j], x)
    ensures !PathLess(a[k], x)
  {
    if j < k && PathLess(a[k], x) {
      PathLessTotal(a[j], a[k]);
      if a[j] != a[k] {
        PathLessTransitive(a[j], a[k], x);
      }
    }
  }

  /** `bisect.bisect_left` on a sorted list: the first position whose element
      is not below `x`; everything before it is below `x`. */
  method BisectLeft(a: seq<SdfPath>, x: SdfPath) returns (i: nat)
    requires Sorted(a)
    ensures i <= |a|
    ensures forall k :: 0 <= k < i ==> PathLess(a[k], x)
    ensures forall k :: i <= k < |a| ==> !PathLess(a[k], x)
  {
    var lo, hi := 0, |a|;
    while lo < hi
      invariant 0 <= lo <= hi <= |a|
      invariant forall k :: 0 <= k < lo ==> PathLess(a[k], x)
      invariant forall k :: hi <= k < |a| ==> !PathLess(a[k], x)
    {
      var mid := (lo + hi) / 2;
      if PathLess(a[mid], x) {
        forall k | 0 <= k <= mid ensures PathLess(a[k], x) {
          SortedBelow(a, k, mid, x);
        }
        lo := mid + 1;
      } else {
        forall k | mid <= k < |a| ensures !PathLess(a[k], x) {
          SortedAbove(a, mid, k, x);
        }
        hi := mid;
      }
    }
    i := lo;
  }

  /** Some element of `a` is not below `x`: `x` is at most the maximum. */
  predicate NotAboveMax(a: seq<SdfPath>, x: SdfPath)
  {
    exists k :: 0 <= k < |a| && !PathLess(a[k], x)
  }

  /** `binarySearch` as written: `bisect_left(a, x) < len(a)`. */
  method BinarySearchAsWritten(a: seq<SdfPath>, x: SdfPath) returns (found: bool)
    requires Sorted(a)
    ensures found <==> NotAboveMax(a, x)
  {
    var i := BisectLeft(a, x);
    found := i < |a|;
    if found {
      assert !PathLess(a[i], x);
    }
  }

  /** Finding: "/World/a" is not in ["/World/b"], yet it is not above its
      maximum, so the search as written reports it present. */
  lemma BinarySearchOverApproximates()
    ensures var a := [PrimPath(["World", "b"])];
      var x := PrimPath(["World", "a"]);
      Sorted(a) && NotAboveMax(a, x) && x !in a
  {
    var a := [PrimPath(["World", "b"])];
    var x := PrimPath(["World", "a"]);
    StrLessIrreflexive("World");
    assert !StrLess("b", "a");
    assert !PathLess(a[0], x);
  }

  /** `binarySearch` as intended, the `std::binary_search` it replaces:
      membership in a sorted list. */
  method BinarySearch(a: seq<SdfPath>, x: SdfPath) returns (found: bool)
    requires Sorted(a)
    ensures found <==> x in a
  {
    var i := BisectLeft(a, x);
    found := i < |a| && a[i] == x;
    if x in a && !found {
      var k :| 0 <= k < |a| && a[k] == x;
      PathLessIrreflexive(x);
      PathLessTotal(a[i], x);
    }
  }

  // ---------------------------------------------------------------- construction

  /** The constructor asserts `maxId > 1` before registering the root. */
  function PortFresh(c: Config, st: Stage): (r: Result<Table, PortError>)
  {
    if c.maxId <= 1 then Failure(AssertionError) else Success(Fresh(c, st))
  }

  lemma PortFreshSpec(c: Config, st: Stage)
    requires StageWf(st) && IsValidPrim(st, c.root)
    ensures PortFresh(c, st).Failure? <==> c.maxId <= 1
    ensures PortFresh(c, st).Success? ==>
      var t := PortFresh(c, st).value;
      Wf(t) && GetLastId(t) == 1 && t.pathToId == map[c.root := 1]
  {
    FreshTable(c, st);
  }

  // ---------------------------------------------------------------- lookups

  /** A value as Python compares it: `dict.get` yields `None` or an item
      record, and a path is a path; values of different kinds are unequal. */
  datatype PyValue = PyNone | PyItem(item: ItemInfo) | PyPath(path: SdfPath)

  /** `self._idToItem.get(id)`. */
  function GetItem(t: Table, id: nat): (r: PyValue)
    ensures r.PyNone? <==> id !in t.idToItem
  {
    if id in t.idToItem then PyItem(t.idToItem[id]) else PyNone
  }

  /** `IsRoot` as written: the looked-up record, or `None`, compared with the
      root path. */
  predicate IsRootAsWritten(c: Config, t: Table, id: nat)
  {
    GetItem(t, id) == PyPath(c.root)
  }

  /** Finding: the root of a new table is the root, yet the port's `IsRoot`
      says it is not; the comparison is false for every id. */
  lemma IsRootNeverHolds(c: Config, st: Stage)
    requires StageWf(st) && IsValidPrim(st, c.root)
    ensures var t := Fresh(c, st);
      IsRoot(c, t, 1) && !IsRootAsWritten(c, t, 1)
      && forall id :: !IsRootAsWritten(c, t, id)
  {
    FreshTable(c, st);
  }

  function PortGetIdFromPath(t: Table, p: SdfPath): (r: Result<nat, PortError>)
  {
    if p in t.pathToId then Success(t.pathToId[p]) else Failure(ErrorException)
  }

  function PortGetPathFromId(t: Table, id: nat): (r: Result<SdfPath, PortError>)
  {
    if id in t.idToItem then Success(t.idToItem[id].path) else Failure(ErrorException)
  }

  function PortGetChildCount(t: Table, id: nat): (r: Result<nat, PortError>)
  {
    if id in t.idToItem then Success(|t.idToItem[id].children|) else Failure(ErrorException)
  }

  /** `children[index]` after the `index >= len` check: a negative index
      counts from the end, and one below `-len` raises `IndexError`. */
  function ChildAt(children: seq<SdfPath>, index: int): (r: Result<SdfPath, PortError>)
    ensures r.Success? <==> -|children| <= index < |children|
    ensures 0 <= index < |children| ==> r == Success(children[index])
  {
    if index >= |children| then Failure(ErrorException)
    else if index < -|children| then Failure(IndexError)
    else Success(children[if index < 0 then index + |children| else index])
  }

  function PortGetChildPath(t: Table, id: nat, index: int): (r: Result<SdfPath, PortError>)
  {
    if id !in t.idToItem then Failure(ErrorException)
    else ChildAt(t.idToItem[id].children, index)
  }

  function PortGetParentId(c: Config, t: Table, id: nat): (r: Result<nat, PortError>)
  {
    if id !in t.idToItem then Failure(ErrorException)
    else if t.idToItem[id].path == c.root then Success(0)
    else PortGetIdFromPath(t, ParentPath(t.idToItem[id].path))
  }

  /** On a well-formed table each port lookup succeeds exactly where the C++
      one finds what it looks for, and then returns the same value; it raises
      where the C++ reports a coding error and returns a fallback. */
  lemma PortLookupsAgree(c: Config, t: Table, p: SdfPath, id: nat, index: int)
    requires Wf(t)
    ensures PortGetIdFromPath(t, p)
      == if p in t.pathToId then Success(GetIdFromPath(t, p)) else Failure(ErrorException)
    ensures PortGetPathFromId(t, id)
      == if id in t.idToItem then Success(GetPathFromId(t, id)) else Failure(ErrorException)
    ensures PortGetChildCount(t, id)
      == if id in t.idToItem then Success(GetChildCount(t, id)) else Failure(ErrorException)
    ensures 0 <= index ==>
      PortGetChildPath(t, id, index)
      == if id in t.idToItem && index < GetChildCount(t, id) then Success(GetChildPath(t, id, index))
         else Failure(ErrorException)
    ensures PortGetParentId(c, t, id).Success? <==>
      id in t.idToItem && (IsRoot(c, t, id) || ParentPath(GetPathFromId(t, id)) in t.pathToId)
    ensures PortGetParentId(c, t, id).Success? ==> PortGetParentId(c, t, id).value == GetParentId(c, t, id)
  {
  }

  /** `tuple.index` on an item record `(path, children)`: position 0 when the
      path field equals `x`; the children list never equals a path. */
  function RecordIndex(info: ItemInfo, x: SdfPath): (r: Result<nat, PortError>)
  {
    if info.path == x then Success(0) else Failure(ValueError)
  }

  /** `list.index`: the first position of `x`, or `ValueError`. */
  function ListIndex(s: seq<SdfPath>, x: SdfPath): (r: Result<nat, PortError>)
    ensures r.Success? <==> x in s
    ensures r.Success? ==> r.value == FindIndex(s, x)
    ensures r.Failure? ==> r.error == ValueError
  {
    var i := FindIndex(s, x);
    assert s[..|s|] == s;
    if i < |s| then Success(i) else Failure(ValueError)
  }

  /** The steps of the port's `GetRow` before its final search: the item, the
      parent id, the path, the root case and the parent record. */
  function PortRowLookup(c: Config, t: Table, id: nat): (r: Result<Option<(ItemInfo, SdfPath)>, PortError>)
  {
    if id !in t.idToItem then Failure(ErrorException)
    else
      var parentId := PortGetParentId(c, t, id);
      if parentId.Failure? then Failure(parentId.error)
      else
        var path := t.idToItem[id].path;
        if path == c.root then Success(None)
        else if parentId.value !in t.idToItem then Failure(ErrorException)
        else Success(Some((t.idToItem[parentId.value], path)))
  }

  /** `GetRow` as written: the parent's record is searched as a tuple. */
  function PortGetRowAsWritten(c: Config, t: Table, id: nat): (r: Result<nat, PortError>)
  {
    var l := PortRowLookup(c, t, id);
    if l.Failure? then Failure(l.error)
    else if l.value.None? then Success(0)
    else RecordIndex(l.value.value.0, l.value.value.1)
  }

  /** `GetRow` as intended: the parent's children list is searched. */
  function PortGetRow(c: Config, t: Table, id: nat): (r: Result<nat, PortError>)
  {
    var l := PortRowLookup(c, t, id);
    if l.Failure? then Failure(l.error)
    else if l.value.None? then Success(0)
    else ListIndex(l.value.value.0.children, l.value.value.1)
  }

  /** Finding: on a well-formed table the port's `GetRow` raises `ValueError`
      for every registered id other than the root whose parent is registered. */
  lemma GetRowAsWrittenFails(c: Config, t: Table, id: nat)
    requires Wf(t) && id in t.idToItem && id != 0 && !IsRoot(c, t, id)
    requires ParentPath(GetPathFromId(t, id)) in t.pathToId
    ensures PortGetRowAsWritten(c, t, id) == Failure(ValueError)
  {
    var path := t.idToItem[id].path;
    var parent := ParentPath(path);
    assert IsChildOf(path, parent);
  }

  /** The corrected `GetRow` succeeds for the root, with 0, and for an id whose
      parent is registered and lists it, with the C++ row; it raises
      otherwise. */
  lemma PortGetRowSpec(c: Config, t: Table, id: nat)
    requires Wf(t) && id in t.idToItem && id != 0
    ensures IsRoot(c, t, id) ==> PortGetRow(c, t, id) == Success(0) == Success(GetRow(c, t, id))
    ensures !IsRoot(c, t, id) ==>
      (PortGetRow(c, t, id).Success? <==>
         ParentPath(GetPathFromId(t, id)) in t.pathToId
         && GetPathFromId(t, id) in ItemAt(t, GetParentId(c, t, id)).children)
    ensures PortGetRow(c, t, id).Success? ==> PortGetRow(c, t, id).value == GetRow(c, t, id)
  {
  }

  // ---------------------------------------------------------------- RegisterChild

  /** The port's `RegisterChild`: raises for an unknown id, an index past the
      end or an expired child, and returns false only when ids are exhausted. */
  function PortRegisterChild(c: Config, st: Stage, t: Table, id: nat, index: int): (r: (Table, Result<bool, PortError>))
  {
    if id !in t.idToItem then (t, Failure(ErrorException))
    else
      var child := ChildAt(t.idToItem[id].children, index);
      if child.Failure? then (t, Failure(child.error))
      else if child.value in t.pathToId then (t, Success(true))
      else if !IsValidPrim(st, child.value) then (t, Failure(ErrorException))
      else if t.nextId >= c.maxId then (t, Success(false))
      else (RegisterOf(c, st, t, child.value), Success(true))
  }

  /** For a non-negative index the port changes the table as the C++ does; it
      returns what the C++ returns except that it raises where the C++ returns
      false for any reason other than exhausted ids. */
  lemma PortRegisterChildAgrees(c: Config, st: Stage, t: Table, id: nat, index: nat)
    requires StageWf(st) && Inv(t)
    ensures var r := PortRegisterChild(c, st, t, id, index);
      var cpp := RegisterChildOf(c, st, t, id, index);
      r.0 == cpp.0
      && (r.1.Success? ==> r.1.value == cpp.1)
      && (r.1.Failure? ==> !cpp.1 && r.1.error == ErrorException)
      && (r.1 == Success(false) <==>
            (!cpp.1 && index < GetChildCount(t, id) && IsValidPrim(st, GetChildPath(t, id, index))
             && GetChildPath(t, id, index) !in t.pathToId))
  {
  }

  // ---------------------------------------------------------------- resync

  /** Every element of a list is not above its maximum, so `binarySearch` as
      written finds every member. */
  lemma NotAboveMaxMember(a: seq<SdfPath>, x: SdfPath)
    requires x in a
    ensures NotAboveMax(a, x)
  {
    var k :| 0 <= k < |a| && a[k] == x;
    PathLessIrreflexive(x);
  }

  /** The members of a list are not above the maximum of its sorted copy. */
  lemma NotAboveMaxSortedMember(a: seq<SdfPath>, x: SdfPath)
    requires x in a
    ensures NotAboveMax(SortPaths(a), x)
  {
    assert x in multiset(SortPaths(a));
    NotAboveMaxMember(SortPaths(a), x);
  }

  /** The port's test of each new child of a parent,
      `binarySearch(sortedOriginalChildren, child) or binarySearch(sortedPaths, child)`,
      with each search answering `NotAboveMax`: the children passing it are
      kept in stage order, the others are reported out of sync. */
  function PortKeptChildren(filtered: seq<SdfPath>, sortedOriginals: seq<SdfPath>, sortedResync: seq<SdfPath>)
    : (r: (seq<SdfPath>, set<SdfPath>))
    ensures forall x :: x in r.0 <==>
      x in filtered && (NotAboveMax(sortedOriginals, x) || NotAboveMax(sortedResync, x))
    ensures forall x :: x in r.1 <==>
      x in filtered && !NotAboveMax(sortedOriginals, x) && !NotAboveMax(sortedResync, x)
    ensures |r.0| <= |filtered|
  {
    if filtered == [] then ([], {})
    else
      var rest := PortKeptChildren(filtered[1..], sortedOriginals, sortedResync);
      if NotAboveMax(sortedOriginals, filtered[0]) || NotAboveMax(sortedResync, filtered[0]) then
        ([filtered[0]] + rest.0, rest.1)
      else (rest.0, {filtered[0]} + rest.1)
  }

  /** Every child the exact test keeps, the port's test keeps too. */
  lemma KeptWithin(filtered: seq<SdfPath>, originals: seq<SdfPath>, sortedResync: seq<SdfPath>)
    ensures forall x :: x in KeptChildren(filtered, originals, sortedResync).0 ==>
      x in PortKeptChildren(filtered, SortPaths(originals), sortedResync).0
  {
    forall x | x in KeptChildren(filtered, originals, sortedResync).0
      ensures x in PortKeptChildren(filtered, SortPaths(originals), sortedResync).0
    {
      if x in originals {
        NotAboveMaxSortedMember(originals, x);
      } else {
        NotAboveMaxMember(sortedResync, x);
      }
    }
  }

  /** Finding: the stage lists "/W/a" and "/W/b" under "/W", the table lists
      only "/W/b", and "/W/b" is resynced. The port keeps the unregistered
      "/W/a", as no path sorts below it, and reports nothing; the exact test
      of the C++ loop reports "/W/a" out of sync. */
  lemma PortKeepsUnsynced()
    ensures var a := PrimPath(["W", "a"]);
      var b := PrimPath(["W", "b"]);
      var port := PortKeptChildren([a, b], SortPaths([b]), [b]);
      var exact := KeptChildren([a, b], [b], [b]);
      port.0 == [a, b] && port.1 == {} && exact.0 == [b] && exact.1 == {a}
  {
    var a := PrimPath(["W", "a"]);
    var b := PrimPath(["W", "b"]);
    assert SortPaths([b]) == [b];
    StrLessIrreflexive("W");
    assert !StrLess("b", "a");
    assert !PathLess(b, a);
    assert NotAboveMax([b], a);
    NotAboveMaxMember([b], b);
    assert a != b by { assert a.names[1] != b.names[1]; }
    PairKeptAsWritten(a, b, [b], [b]);
    PairKeptExactly(a, b, [b], [b]);
  }

  lemma PairKeptAsWritten(x: SdfPath, y: SdfPath, sortedOriginals: seq<SdfPath>, sortedResync: seq<SdfPath>)
    requires NotAboveMax(sortedOriginals, x) && NotAboveMax(sortedOriginals, y)
    ensures PortKeptChildren([x, y], sortedOriginals, sortedResync).0 == [x, y]
    ensures PortKeptChildren([x, y], sortedOriginals, sortedResync).1 == {}
  {
    assert [x, y][1..] == [y] && [y][1..] == [];
  }

  lemma PairKeptExactly(x: SdfPath, y: SdfPath, originals: seq<SdfPath>, resync: seq<SdfPath>)
    requires x !in originals && x !in resync && y in originals
    ensures KeptChildren([x, y], originals, resync).0 == [y]
    ensures KeptChildren([x, y], originals, resync).1 == {x}
  {
    assert [x, y][1..] == [y] && [y][1..] == [];
  }

  /** The body of the port's parent loop for a registered parent. The stored
      children are sorted for the searches and then overwritten by the kept
      children in stage order; an original child is reported when the search
      as written finds it neither among the sorted kept children nor among the
      sorted resynced paths. */
  function PortUpdateParent(c: Config, st: Stage, t: Table, parent: SdfPath, sortedResync: seq<SdfPath>)
    : (r: (Table, set<SdfPath>))
    requires parent in t.pathToId
    ensures r.0.pathToId == t.pathToId && r.0.nextId == t.nextId
  {
    var pid := t.pathToId[parent];
    var info := ItemAt(t, pid);
    var originals := SortPaths(info.children);
    var kept := PortKeptChildren(FilteredChildren(c.pred, st, parent), originals, sortedResync);
    var sortedNew := SortPaths(kept.0);
    var lost := set x | x in originals && !NotAboveMax(sortedNew, x) && !NotAboveMax(sortedResync, x);
    (t.(idToItem := t.idToItem[pid := ItemInfo(info.path, kept.0)]), kept.1 + lost)
  }

  /** For one registered parent, the port keeps every child the C++ loop keeps
      and only filtered children, and it reports only paths the C++ loop
      reports. */
  lemma PortUpdateParentWithin(c: Config, st: Stage, t: Table, parent: SdfPath, sortedResync: seq<SdfPath>)
    requires parent in t.pathToId
    ensures var port := PortUpdateParent(c, st, t, parent, sortedResync);
      var cpp := UpdateParent(c, st, t, parent, sortedResync);
      (forall x :: x in ItemAt(cpp.0, t.pathToId[parent]).children ==> x in ItemAt(port.0, t.pathToId[parent]).children)
      && (forall x :: x in ItemAt(port.0, t.pathToId[parent]).children ==> x in FilteredChildren(c.pred, st, parent))
      && port.1 <= cpp.1
  {
    var pid := t.pathToId[parent];
    var info := ItemAt(t, pid);
    var filtered := FilteredChildren(c.pred, st, parent);
    var kept := PortKeptChildren(filtered, SortPaths(info.children), sortedResync);
    KeptWithin(filtered, info.children, sortedResync);
    forall x | x in PortUpdateParent(c, st, t, parent, sortedResync).1
      ensures x in UpdateParent(c, st, t, parent, sortedResync).1
    {
      if x !in kept.1 {
        assert x in multiset(SortPaths(info.children));
        if x in filtered {
          NotAboveMaxSortedMember(info.children, x);
          NotAboveMaxSortedMember(kept.0, x);
        }
        if x in sortedResync {
          NotAboveMaxMember(sortedResync, x);
        }
      } else {
        if x in info.children {
          NotAboveMaxSortedMember(info.children, x);
        }
        if x in sortedResync {
          NotAboveMaxMember(sortedResync, x);
        }
      }
    }
  }

  /** Exact and as-written tests keep every filtered child when each one is
      an original child or a resynced path. */
  lemma {:induction false} AllKept(filtered: seq<SdfPath>, originals: seq<SdfPath>, sortedResync: seq<SdfPath>)
    requires forall x :: x in filtered ==> x in originals || x in sortedResync
    ensures KeptChildren(filtered, originals, sortedResync).0 == filtered
    ensures PortKeptChildren(filtered, SortPaths(originals), sortedResync).0 == filtered
    decreases |filtered|
  {
    if filtered != [] {
      AllKept(filtered[1..], originals, sortedResync);
      if filtered[0] in originals {
        NotAboveMaxSortedMember(originals, filtered[0]);
      } else {
        NotAboveMaxMember(sortedResync, filtered[0]);
      }
    }
  }

  /** Where the C++ loop finds a parent in sync, the port updates it the same
      way. */
  lemma PortUpdateParentSynced(c: Config, st: Stage, t: Table, parent: SdfPath, sortedResync: seq<SdfPath>)
    requires parent in t.pathToId && UpdateParent(c, st, t, parent, sortedResync).1 == {}
    ensures PortUpdateParent(c, st, t, parent, sortedResync) == UpdateParent(c, st, t, parent, sortedResync)
  {
    var info := ItemAt(t, t.pathToId[parent]);
    var filtered := FilteredChildren(c.pred, st, parent);
    AllKept(filtered, info.children, sortedResync);
    PortUpdateParentWithin(c, st, t, parent, sortedResync);
    assert PortUpdateParent(c, st, t, parent, sortedResync).0 == UpdateParent(c, st, t, parent, sortedResync).0;
    assert PortUpdateParent(c, st, t, parent, sortedResync).1 == {};
  }

  /** One parent of the port's loop keeps the table invariants, changes only
      the parent's item, and stores the children its test keeps. */
  lemma PortUpdateParentKeeps(c: Config, st: Stage, t: Table, parent: SdfPath, sortedResync: seq<SdfPath>)
    requires StageWf(st) && Inv(t) && parent in t.pathToId
    ensures var r := PortUpdateParent(c, st, t, parent, sortedResync).0;
      Inv(r) && (Wf(t) ==> Wf(r))
      && (forall id :: id != t.pathToId[parent] ==> ItemAt(r, id) == ItemAt(t, id))
      && ItemAt(r, t.pathToId[parent]).children
         == PortKeptChildren(FilteredChildren(c.pred, st, parent), SortPaths(ItemAt(t, t.pathToId[parent]).children), sortedResync).0
  {
    var pid := t.pathToId[parent];
    var r := PortUpdateParent(c, st, t, parent, sortedResync).0;
    forall q, k | q in r.pathToId && k in ItemAt(r, r.pathToId[q]).children
      ensures IsChildOf(k, q)
    {
      if r.pathToId[q] != pid {
        assert ItemAt(r, r.pathToId[q]) == ItemAt(t, t.pathToId[q]);
      } else {
        assert q == parent;
      }
    }
  }

  /** The parent loop of the port's `ResyncSubtrees`, taking the parent set in
      ascending order: `GetIdFromPath` raises on an unregistered parent, after
      the parents before it have been updated. */
  function PortUpdateParents(c: Config, st: Stage, t: Table, parents: seq<SdfPath>, sortedResync: seq<SdfPath>)
    : (r: (Table, Result<set<SdfPath>, PortError>))
    ensures r.0.pathToId == t.pathToId && r.0.nextId == t.nextId
    decreases |parents|
  {
    if parents == [] then (t, Success({}))
    else if parents[0] !in t.pathToId then (t, Failure(ErrorException))
    else
      var u := PortUpdateParent(c, st, t, parents[0], sortedResync);
      var rest := PortUpdateParents(c, st, u.0, parents[1..], sortedResync);
      (rest.0, if rest.1.Failure? then rest.1 else Success(u.1 + rest.1.value))
  }

  /** The port's loop keeps the table invariants. */
  lemma {:induction false} PortUpdateParentsKeeps(c: Config, st: Stage, t: Table, parents: seq<SdfPath>, sortedResync: seq<SdfPath>)
    requires StageWf(st) && Inv(t)
    ensures var r := PortUpdateParents(c, st, t, parents, sortedResync);
      Inv(r.0) && (Wf(t) ==> Wf(r.0))
    decreases |parents|
  {
    if parents != [] && parents[0] in t.pathToId {
      var u := PortUpdateParent(c, st, t, parents[0], sortedResync);
      PortUpdateParentKeeps(c, st, t, parents[0], sortedResync);
      PortUpdateParentsKeeps(c, st, u.0, parents[1..], sortedResync);
    }
  }

  /** The port's loop raises `ErrorException` exactly when some parent is
      unregistered. */
  lemma {:induction false} PortUpdateParentsRaises(c: Config, st: Stage, t: Table, parents: seq<SdfPath>, sortedResync: seq<SdfPath>)
    ensures var r := PortUpdateParents(c, st, t, parents, sortedResync);
      (r.1.Failure? <==> exists P :: P in parents && P !in t.pathToId)
      && (r.1.Failure? ==> r.1 == Failure(ErrorException))
    decreases |parents|
  {
    if parents != [] && parents[0] in t.pathToId {
      var u := PortUpdateParent(c, st, t, parents[0], sortedResync);
      PortUpdateParentsRaises(c, st, u.0, parents[1..], sortedResync);
      if exists P :: P in parents && P !in t.pathToId {
        var P :| P in parents && P !in t.pathToId;
        assert P in parents[1..];
      }
      forall P | P in parents[1..] ensures P in parents {
      }
    }
  }

  /** With every parent registered and nothing out of sync for the C++ loop,
      the port's loop ends as the C++ loop does. */
  lemma {:induction false} PortUpdateParentsSynced(c: Config, st: Stage, t: Table, parents: seq<SdfPath>, sortedResync: seq<SdfPath>)
    requires forall P :: P in parents ==> P in t.pathToId
    requires UpdateParents(c, st, t, parents, sortedResync).1 == {}
    ensures PortUpdateParents(c, st, t, parents, sortedResync) == (UpdateParents(c, st, t, parents, sortedResync).0, Success({}))
    decreases |parents|
  {
    if parents != [] {
      var u := UpdateParent(c, st, t, parents[0], sortedResync);
      PortUpdateParentSynced(c, st, t, parents[0], sortedResync);
      PortUpdateParentsSynced(c, st, u.0, parents[1..], sortedResync);
    }
  }

  /** The item of a nonzero id that belongs to none of the parents is left as
      it was by the port's loop. */
  lemma {:induction false} PortUpdateParentsOthers(c: Config, st: Stage, t: Table, parents: seq<SdfPath>, sortedResync: seq<SdfPath>, id: nat)
    requires StageWf(st) && Inv(t) && id != 0
    requires forall P :: P in parents && P in t.pathToId ==> t.pathToId[P] != id
    ensures ItemAt(PortUpdateParents(c, st, t, parents, sortedResync).0, id) == ItemAt(t, id)
    decreases |parents|
  {
    if parents != [] && parents[0] in t.pathToId {
      var u := PortUpdateParent(c, st, t, parents[0], sortedResync);
      PortUpdateParentKeeps(c, st, t, parents[0], sortedResync);
      PortUpdateParentsOthers(c, st, u.0, parents[1..], sortedResync, id);
    }
  }

  /** With distinct registered parents, each parent ends listing the
      children the port's test keeps from its original children. */
  lemma {:induction false} PortUpdateParentsChildren(c: Config, st: Stage, t: Table, parents: seq<SdfPath>, sortedResync: seq<SdfPath>)
    requires StageWf(st) && Inv(t) && Distinct(parents)
    requires forall P :: P in parents ==> P in t.pathToId
    ensures var r := PortUpdateParents(c, st, t, parents, sortedResync);
      r.1.Success?
      && (forall P :: P in parents ==>
            ItemAt(r.0, t.pathToId[P]).children
            == PortKeptChildren(FilteredChildren(c.pred, st, P), SortPaths(ItemAt(t, t.pathToId[P]).children), sortedResync).0)
      && (forall x :: x in r.1.value ==>
            (exists P :: P in parents
               && x in Disagreeing(FilteredChildren(c.pred, st, P), ItemAt(t, t.pathToId[P]).children, sortedResync)))
    decreases |parents|
  {
    if parents != [] {
      var P0 := parents[0];
      var u := PortUpdateParent(c, st, t, P0, sortedResync);
      PortUpdateParentKeeps(c, st, t, P0, sortedResync);
      PortUpdateParentWithin(c, st, t, P0, sortedResync);
      DistinctTail(parents);
      PortUpdateParentsChildren(c, st, u.0, parents[1..], sortedResync);
      PortUpdateParentsOthers(c, st, u.0, parents[1..], sortedResync, t.pathToId[P0]);
      forall P | P in parents[1..]
        ensures ItemAt(u.0, t.pathToId[P]) == ItemAt(t, t.pathToId[P])
      {
        assert P != P0;
      }
    }
  }

  /** With distinct registered parents, the port's loop succeeds, each
      parent keeps every child the C++ loop keeps, and every path the port
      reports the C++ loop reports. */
  lemma PortUpdateParentsWithin(c: Config, st: Stage, t: Table, parents: seq<SdfPath>, sortedResync: seq<SdfPath>)
    requires StageWf(st) && Inv(t) && Distinct(parents)
    requires forall P :: P in parents ==> P in t.pathToId
    ensures var r := PortUpdateParents(c, st, t, parents, sortedResync);
      var cpp := UpdateParents(c, st, t, parents, sortedResync);
      r.1.Success? && r.1.value <= cpp.1
      && forall P, x :: P in parents && x in ItemAt(cpp.0, t.pathToId[P]).children ==>
           x in ItemAt(r.0, t.pathToId[P]).children
  {
    PortUpdateParentsChildren(c, st, t, parents, sortedResync);
    UpdateParentsChildren(c, st, t, parents, sortedResync);
    forall P | P in parents {
      KeptWithin(FilteredChildren(c.pred, st, P), ItemAt(t, t.pathToId[P]).children, sortedResync);
    }
  }

  /** The port's `ResyncSubtrees`: the C++ algorithm with the port's parent
      loop, raising on an unregistered parent, and raising before any
      invalidation when the loop reports a path out of sync. */
  function PortResync(c: Config, st: Stage, t: Table, paths: seq<SdfPath>): (r: (Table, Result<(), PortError>))
    requires StageWf(st) && Inv(t)
    ensures Inv(r.0) && (Wf(t) ==> Wf(r.0))
  {
    var sorted := SortPaths(paths);
    var parents := UniqueParents(sorted);
    var u := PortUpdateParents(c, st, t, parents, sorted);
    PortUpdateParentsKeeps(c, st, t, parents, sorted);
    if u.1.Failure? then (u.0, Failure(u.1.error))
    else if u.1.value != {} then (u.0, Failure(ErrorException))
    else (InvalidateEach(c, st, u.0, sorted), Success(()))
  }

  /** The port's resync keeps the table invariants and raises on an
      unregistered parent. With every parent registered it ends as the C++
      resync does when the C++ finds nothing out of sync, and it raises only
      when the C++ finds something out of sync. */
  lemma PortResyncSpec(c: Config, st: Stage, t: Table, paths: seq<SdfPath>)
    requires StageWf(st) && Inv(t)
    ensures var r := PortResync(c, st, t, paths);
      var cpp := ResyncOf(c, st, t, paths);
      Inv(r.0) && (Wf(t) ==> Wf(r.0))
      && ((forall p :: p in paths ==> ParentPath(p) in t.pathToId) ==>
            (cpp.1 == {} ==> r == (cpp.0, Success(())))
            && (r.1.Failure? ==> r.1 == Failure(ErrorException) && cpp.1 != {}))
      && ((exists p :: p in paths && ParentPath(p) !in t.pathToId) ==> r.1 == Failure(ErrorException))
  {
    if forall p :: p in paths ==> ParentPath(p) in t.pathToId {
      PortResyncRegistered(c, st, t, paths);
    } else {
      PortResyncUnregistered(c, st, t, paths);
    }
  }

  /** With every parent registered, the port's resync ends as the C++ one when
      the C++ loop finds nothing out of sync, and raises only otherwise. */
  lemma PortResyncRegistered(c: Config, st: Stage, t: Table, paths: seq<SdfPath>)
    requires StageWf(st) && Inv(t)
    requires forall p :: p in paths ==> ParentPath(p) in t.pathToId
    ensures var r := PortResync(c, st, t, paths);
      var cpp := ResyncOf(c, st, t, paths);
      (cpp.1 == {} ==> r == (cpp.0, Success(())))
      && (r.1.Failure? ==> r.1 == Failure(ErrorException) && cpp.1 != {})
  {
    var sorted := SortPaths(paths);
    var parents := UniqueParents(sorted);
    SortedParents(paths, t.pathToId.Keys);
    PortUpdateParentsRaises(c, st, t, parents, sorted);
    if UpdateParents(c, st, t, parents, sorted).1 == {} {
      PortUpdateParentsSynced(c, st, t, parents, sorted);
    }
  }

  /** With some parent unregistered, the port's resync raises. */
  lemma PortResyncUnregistered(c: Config, st: Stage, t: Table, paths: seq<SdfPath>)
    requires StageWf(st) && Inv(t)
    requires exists p :: p in paths && ParentPath(p) !in t.pathToId
    ensures PortResync(c, st, t, paths).1 == Failure(ErrorException)
  {
    var sorted := SortPaths(paths);
    SortedParents(paths, t.pathToId.Keys);
    PortUpdateParentsRaises(c, st, t, UniqueParents(sorted), sorted);
  }

  /** The parents the resync visits are registered exactly when every
      resynced path's parent is. */
  lemma SortedParents(paths: seq<SdfPath>, known: set<SdfPath>)
    ensures (forall P :: P in UniqueParents(SortPaths(paths)) ==> P in known)
      <==> (forall p :: p in paths ==> ParentPath(p) in known)
  {
    var sorted := SortPaths(paths);
    var parents := UniqueParents(sorted);
    forall x ensures x in sorted <==> x in paths {
      assert x in sorted <==> x in multiset(sorted);
      assert x in paths <==> x in multiset(paths);
    }
    if exists p :: p in paths && ParentPath(p) !in known {
      var p :| p in paths && ParentPath(p) !in known;
      assert ParentPath(p) in parents;
    }
  }
}

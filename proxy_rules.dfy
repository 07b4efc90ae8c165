// The three rules every opinion proxy applies across the objects it stands
// for: a value is shown only when all objects share it, a list shows only
// the entries every object has (in the first object's order, narrowed one
// object at a time by an in-place remove_if), and a write is made on every
// object, reporting success only if it succeeded on all of them.

module ProxyRules {
  import opened Wrappers

  // ------------------------------------------------------ all_of, any_of

  /** `std::all_of`: true on no objects. */
  function AllOf<T>(s: seq<T>, p: T -> bool): (r: bool)
    ensures r <==> forall i :: 0 <= i < |s| ==> p(s[i])
  {
    if s == [] then true
    else
      assert forall i :: 1 <= i < |s| ==> s[i] == s[1..][i - 1];
      p(s[0]) && AllOf(s[1..], p)
  }

  /** `std::any_of`: false on no objects. */
  function AnyOf<T>(s: seq<T>, p: T -> bool): (r: bool)
    ensures r <==> exists i :: 0 <= i < |s| && p(s[i])
  {
    if s == [] then false
    else
      assert forall i :: 1 <= i < |s| ==> s[i] == s[1..][i - 1];
      p(s[0]) || AnyOf(s[1..], p)
  }

  // --------------------------------------------------------- shared value

  /** The value all of `vals` share, or `empty` when they differ or there
      are none. */
  function Shared<T(==,!new)>(vals: seq<T>, empty: T): (r: T)
  {
    if vals != [] && forall i :: 0 <= i < |vals| ==> vals[i] == vals[0] then vals[0] else empty
  }

  lemma SharedSpec<T(!new)>(vals: seq<T>, empty: T)
    ensures vals == [] ==> Shared(vals, empty) == empty
    ensures Shared(vals, empty) != empty ==> forall i :: 0 <= i < |vals| ==> vals[i] == Shared(vals, empty)
    ensures (exists i, j :: 0 <= i < |vals| && 0 <= j < |vals| && vals[i] != vals[j]) ==> Shared(vals, empty) == empty
    ensures (forall i :: 0 <= i < |vals| ==> vals[i] == vals[0]) && vals != [] ==> Shared(vals, empty) == vals[0]
  {
  }

  /** The comparison loop: the first value, unless a later one differs. */
  method SharedOf<T(==,!new)>(vals: seq<T>, empty: T) returns (r: T)
    ensures r == Shared(vals, empty)
  {
    if |vals| < 1 {
      return empty;
    }
    r := vals[0];
    for i := 1 to |vals|
      invariant forall j :: 0 <= j < i ==> vals[j] == vals[0]
    {
      if vals[i] != r {
        return empty;
      }
    }
  }

  /** The value-and-success rule of the getters: no objects give the empty
      value and success; otherwise the first object's value (the empty one if
      it has none) is kept only if every later object has a value equal to
      it. */
  function SharedFetched<T(==,!new)>(vals: seq<Option<T>>, empty: T): (r: (T, bool))
  {
    if vals == [] then (empty, true)
    else
      var first := if vals[0].Some? then vals[0].value else empty;
      if forall i :: 1 <= i < |vals| ==> vals[i] == Some(first) then (first, true) else (empty, false)
  }

  lemma SharedFetchedSpec<T(!new)>(vals: seq<Option<T>>, empty: T)
    ensures vals == [] ==> SharedFetched(vals, empty) == (empty, true)
    ensures !SharedFetched(vals, empty).1 ==> SharedFetched(vals, empty).0 == empty
    ensures SharedFetched(vals, empty).1 ==> forall i :: 1 <= i < |vals| ==> vals[i] == Some(SharedFetched(vals, empty).0)
    ensures (exists i :: 1 <= i < |vals| && vals[i].None?) ==> !SharedFetched(vals, empty).1
    ensures (exists t :: forall i :: 0 <= i < |vals| ==> vals[i] == Some(t)) ==> SharedFetched(vals, empty).1
  {
  }

  /** Two objects holding different values make the shared-value rule fail. */
  lemma SharedFetchedDisagree<T(!new)>(vals: seq<Option<T>>, empty: T, i: nat, j: nat)
    requires i < |vals| && j < |vals| && vals[i].Some? && vals[j].Some? && vals[i] != vals[j]
    ensures !SharedFetched(vals, empty).1
  {
    var first := if vals[0].Some? then vals[0].value else empty;
    assert vals[i] != Some(first) || vals[j] != Some(first);
  }

  /** The getter loop: clear the result and fail at the first later object
      without a value or with a different one. */
  method SharedFetchedOf<T(==,!new)>(vals: seq<Option<T>>, empty: T) returns (result: T, ok: bool)
    ensures (result, ok) == SharedFetched(vals, empty)
  {
    if |vals| < 1 {
      return empty, true;
    }
    var shared := if vals[0].Some? then vals[0].value else empty;
    for i := 1 to |vals|
      invariant forall j :: 1 <= j < i ==> vals[j] == Some(shared)
    {
      if vals[i].None? || vals[i].value != shared {
        return empty, false;
      }
    }
    return shared, true;
  }

  // ------------------------------------------------------ shared entries

  /** `x` is listed by every one of `others`. */
  predicate InAll<T(==,!new)>(x: T, others: seq<seq<T>>)
  {
    forall k :: 0 <= k < |others| ==> x in others[k]
  }

  /** The entries of `first` every one of `others` lists, in `first`'s order
      and with `first`'s repetitions. */
  function Common<T(==,!new)>(first: seq<T>, others: seq<seq<T>>): (r: seq<T>)
    ensures |r| <= |first|
    ensures forall x :: x in r <==> x in first && InAll(x, others)
  {
    if first == [] then []
    else (if InAll(first[0], others) then [first[0]] else []) + Common(first[1..], others)
  }

  /** Narrowing the first of several lists by all the others keeps exactly
      the entries every list holds, in the first list's order. */
  lemma CommonOfAll<T(!new)>(lists: seq<seq<T>>, x: T)
    requires lists != []
    ensures x in Common(lists[0], lists[1..]) <==> forall k :: 0 <= k < |lists| ==> x in lists[k]
    ensures IsSubsequence(Common(lists[0], lists[1..]), lists[0])
  {
    CommonOrder(lists[0], lists[1..]);
    if InAll(x, lists[1..]) {
      forall k | 1 <= k < |lists|
        ensures x in lists[k]
      {
        assert lists[1..][k - 1] == lists[k];
      }
    }
  }

  /** `r` is `s` with some entries left out, the rest in order. */
  predicate IsSubsequence<T(==,!new)>(r: seq<T>, s: seq<T>)
    decreases |s|
  {
    r == [] || (s != [] && ((r[0] == s[0] && IsSubsequence(r[1..], s[1..])) || IsSubsequence(r, s[1..])))
  }

  /** The shared entries keep the first list's order. */
  lemma {:induction false} CommonOrder<T(!new)>(first: seq<T>, others: seq<seq<T>>)
    ensures IsSubsequence(Common(first, others), first)
    decreases |first|
  {
    if first != [] {
      CommonOrder(first[1..], others);
      var rest := Common(first[1..], others);
      if InAll(first[0], others) {
        assert Common(first, others) == [first[0]] + rest;
        assert ([first[0]] + rest)[1..] == rest;
      } else {
        assert Common(first, others) == rest;
        SkipFirst(rest, first);
      }
    }
  }

  lemma SkipFirst<T(!new)>(r: seq<T>, s: seq<T>)
    requires s != [] && IsSubsequence(r, s[1..])
    ensures IsSubsequence(r, s)
  {
  }

  /** Each entry kept is kept with all its repetitions in the first list. */
  lemma {:induction false} CommonCounts<T(!new)>(first: seq<T>, others: seq<seq<T>>, x: T)
    ensures multiset(Common(first, others))[x] == if InAll(x, others) then multiset(first)[x] else 0
    decreases |first|
  {
    if first != [] {
      CommonCounts(first[1..], others, x);
      assert first == [first[0]] + first[1..];
      var head := if InAll(first[0], others) then [first[0]] else [];
      assert Common(first, others) == head + Common(first[1..], others);
      assert multiset(first) == multiset([first[0]]) + multiset(first[1..]);
      assert multiset(Common(first, others)) == multiset(head) + multiset(Common(first[1..], others));
    }
  }

  /** With no other objects every entry is kept. */
  lemma {:induction false} CommonAlone<T(!new)>(first: seq<T>)
    ensures Common(first, []) == first
    decreases |first|
  {
    if first != [] {
      CommonAlone(first[1..]);
      assert InAll(first[0], []);
      assert first == [first[0]] + first[1..];
    }
  }

  /** The entries of `s` that `keep` accepts, in order: what `remove_if`
      followed by `erase` leaves. */
  function Filter<T>(s: seq<T>, keep: T -> bool): (r: seq<T>)
    ensures |r| <= |s|
  {
    if s == [] then [] else (if keep(s[0]) then [s[0]] else []) + Filter(s[1..], keep)
  }

  /** Membership in `o`, as a predicate to filter by. */
  function Listed<T(==,!new)>(o: seq<T>): (keep: T -> bool)
    ensures forall x :: keep(x) <==> x in o
  {
    x => x in o
  }

  /** Entries pass the filter exactly when they are in the input and
      accepted. */
  lemma {:induction false} FilterMembers<T(!new)>(s: seq<T>, keep: T -> bool, x: T)
    ensures x in Filter(s, keep) <==> x in s && keep(x)
    decreases |s|
  {
    if s != [] {
      FilterMembers(s[1..], keep, x);
      var head := if keep(s[0]) then [s[0]] else [];
      assert s == [s[0]] + s[1..];
      assert Filter(s, keep) == head + Filter(s[1..], keep);
    }
  }

  /** An accepted entry is kept with all its repetitions. */
  lemma {:induction false} FilterCounts<T(!new)>(s: seq<T>, keep: T -> bool, x: T)
    ensures multiset(Filter(s, keep))[x] == if keep(x) then multiset(s)[x] else 0
    decreases |s|
  {
    if s != [] {
      FilterCounts(s[1..], keep, x);
      var head := if keep(s[0]) then [s[0]] else [];
      assert s == [s[0]] + s[1..];
      assert multiset(s) == multiset([s[0]]) + multiset(s[1..]);
      assert multiset(Filter(s, keep)) == multiset(head) + multiset(Filter(s[1..], keep));
    }
  }

  /** The kept entries keep their order. */
  lemma {:induction false} FilterOrder<T(!new)>(s: seq<T>, keep: T -> bool)
    ensures IsSubsequence(Filter(s, keep), s)
    decreases |s|
  {
    if s != [] {
      FilterOrder(s[1..], keep);
      var rest := Filter(s[1..], keep);
      if keep(s[0]) {
        assert Filter(s, keep) == [s[0]] + rest;
        assert ([s[0]] + rest)[1..] == rest;
      } else {
        assert Filter(s, keep) == rest;
        SkipFirst(rest, s);
      }
    }
  }

  /** Filtering one more element of `s`. */
  lemma FilterSnoc<T>(s: seq<T>, r: nat, keep: T -> bool)
    requires r < |s|
    ensures Filter(s[..r + 1], keep) == Filter(s[..r], keep) + (if keep(s[r]) then [s[r]] else [])
  {
    assert s[..r + 1] == s[..r] + [s[r]];
    FilterAppend(s[..r], [s[r]], keep);
    assert [s[r]][1..] == [];
  }

  lemma {:induction false} FilterAppend<T>(a: seq<T>, b: seq<T>, keep: T -> bool)
    ensures Filter(a + b, keep) == Filter(a, keep) + Filter(b, keep)
    decreases |a|
  {
    if a == [] {
      assert a + b == b;
    } else {
      var head := if keep(a[0]) then [a[0]] else [];
      assert (a + b)[0] == a[0];
      assert (a + b)[1..] == a[1..] + b;
      assert Filter(a + b, keep) == head + Filter(a[1..] + b, keep);
      FilterAppend(a[1..], b, keep);
      assert Filter(a, keep) == head + Filter(a[1..], keep);
      assert head + (Filter(a[1..], keep) + Filter(b, keep)) == (head + Filter(a[1..], keep)) + Filter(b, keep);
    }
  }

  /** Narrowing the shared entries by one more object gives the entries
      shared with it too. */
  lemma {:induction false} CommonNarrow<T(!new)>(first: seq<T>, others: seq<seq<T>>, o: seq<T>)
    ensures Filter(Common(first, others), Listed(o)) == Common(first, others + [o])
    decreases |first|
  {
    if first != [] {
      var head := if InAll(first[0], others) then [first[0]] else [];
      FilterAppend(head, Common(first[1..], others), Listed(o));
      CommonNarrow(first[1..], others, o);
      assert InAll(first[0], others + [o]) <==> InAll(first[0], others) && first[0] in o by {
        if InAll(first[0], others) && first[0] in o {
          forall k | 0 <= k < |others + [o]|
            ensures first[0] in (others + [o])[k]
          {
            if k < |others| {
              assert (others + [o])[k] == others[k];
            }
          }
        }
        if InAll(first[0], others + [o]) {
          assert (others + [o])[|others|] == o;
          forall k | 0 <= k < |others|
            ensures first[0] in others[k]
          {
            assert (others + [o])[k] == others[k];
          }
        }
      }
      if head != [] {
        assert head[1..] == [];
      }
    }
  }

  /** `std::remove_if` over the first `end` entries, dropping those `keep`
      rejects: the kept ones move to the front, in order, and the new end is
      returned. */
  method RemoveIf<T>(a: array<T>, end: nat, keep: T -> bool) returns (newEnd: nat)
    requires end <= a.Length
    modifies a
    ensures newEnd <= end && a[..newEnd] == Filter(old(a[..end]), keep)
  {
    ghost var orig := a[..end];
    newEnd := 0;
    assert orig[..0] == [];
    for r := 0 to end
      invariant newEnd <= r
      invariant a[..newEnd] == Filter(orig[..r], keep)
      invariant forall k :: r <= k < end ==> a[k] == orig[k]
    {
      var x := a[r];
      FilterSnoc(orig, r, keep);
      if keep(x) {
        ghost var kept := a[..newEnd];
        a[newEnd] := x;
        assert a[..newEnd + 1] == kept + [x];
        newEnd := newEnd + 1;
      }
    }
    assert orig[..end] == orig;
  }

  /** The values of a list of fetches that all succeeded. */
  function Fetched<T>(others: seq<Option<seq<T>>>): (r: seq<seq<T>>)
    requires forall k :: 0 <= k < |others| ==> others[k].Some?
    ensures |r| == |others| && forall k :: 0 <= k < |others| ==> r[k] == others[k].value
  {
    seq(|others|, k requires 0 <= k < |others| => others[k].value)
  }

  /** One more fetched list narrows the shared entries by its own. */
  lemma FetchedNarrow<T(!new)>(first: seq<T>, others: seq<Option<seq<T>>>, k: nat)
    requires k < |others| && forall j :: 0 <= j <= k ==> others[j].Some?
    ensures Filter(Common(first, Fetched(others[..k])), Listed(others[k].value)) == Common(first, Fetched(others[..k + 1]))
  {
    CommonNarrow(first, Fetched(others[..k]), others[k].value);
    assert Fetched(others[..k]) + [others[k].value] == Fetched(others[..k + 1]);
  }

  /** The narrowing loop: the first list is copied, then each later object's
      list, if it could be fetched, removes the entries it lacks; a failed
      fetch ends the loop with failure. */
  method IntersectFetched<T(==,!new)>(first: seq<T>, others: seq<Option<seq<T>>>) returns (ok: bool, shared: seq<T>)
    ensures ok <==> forall k :: 0 <= k < |others| ==> others[k].Some?
    ensures ok ==> shared == Common(first, Fetched(others))
  {
    var a := new T[|first|](i requires 0 <= i < |first| => first[i]);
    var end: nat := |first|;
    assert a[..end] == first;
    CommonAlone(first);
    assert Fetched(others[..0]) == [];
    for k := 0 to |others|
      invariant end <= a.Length
      invariant forall j :: 0 <= j < k ==> others[j].Some?
      invariant a[..end] == Common(first, Fetched(others[..k]))
    {
      if others[k].None? {
        return false, [];
      }
      ghost var narrowed := Filter(a[..end], Listed(others[k].value));
      FetchedNarrow(first, others, k);
      end := RemoveIf(a, end, Listed(others[k].value));
      assert a[..end] == narrowed;
    }
    assert others[..|others|] == others;
    return true, a[..end];
  }

  /** The narrowing loop when every list can be fetched. */
  method Intersect<T(==,!new)>(first: seq<T>, others: seq<seq<T>>) returns (shared: seq<T>)
    ensures shared == Common(first, others)
  {
    var fetched := seq(|others|, k requires 0 <= k < |others| => Some(others[k]));
    var ok;
    ok, shared := IntersectFetched(first, fetched);
    assert Fetched(fetched) == others;
  }

  /** The entries every fetched list holds, in the first list's order; no
      lists give the empty list and a failed fetch gives `None`. */
  function SharedList<T(==,!new)>(lists: seq<Option<seq<T>>>): (r: Option<seq<T>>)
    ensures r.None? <==> exists k :: 0 <= k < |lists| && lists[k].None?
    ensures lists == [] ==> r == Some([])
  {
    if lists == [] then Some([])
    else if forall k :: 0 <= k < |lists| ==> lists[k].Some? then Some(Common(lists[0].value, Fetched(lists[1..])))
    else None
  }

  /** A shared list holds exactly the entries of the first list that every
      list holds, in the first list's order. */
  lemma SharedListSpec<T(!new)>(lists: seq<Option<seq<T>>>, x: T)
    requires SharedList(lists).Some? && lists != []
    ensures x in SharedList(lists).value <==> forall k :: 0 <= k < |lists| ==> x in lists[k].value
    ensures IsSubsequence(SharedList(lists).value, lists[0].value)
  {
    CommonOrder(lists[0].value, Fetched(lists[1..]));
    if forall k :: 1 <= k < |lists| ==> x in lists[k].value {
      assert InAll(x, Fetched(lists[1..])) by {
        forall j | 0 <= j < |lists| - 1
          ensures x in Fetched(lists[1..])[j]
        {
          assert lists[1..][j] == lists[j + 1];
        }
      }
    }
    if InAll(x, Fetched(lists[1..])) {
      forall k | 1 <= k < |lists|
        ensures x in lists[k].value
      {
        assert Fetched(lists[1..])[k - 1] == lists[k].value;
      }
    }
  }

  /** The copy-then-narrow loop every list getter runs: fetch the first list,
      then narrow it by each later one, giving up at a failed fetch. */
  method SharedListOf<T(==,!new)>(lists: seq<Option<seq<T>>>) returns (r: Option<seq<T>>)
    ensures r == SharedList(lists)
  {
    if |lists| < 1 {
      return Some([]);
    }
    if lists[0].None? {
      return None;
    }
    var ok, shared := IntersectFetched(lists[0].value, lists[1..]);
    if !ok {
      assert exists k :: 0 <= k < |lists| && lists[k].None? by {
        var j :| 0 <= j < |lists[1..]| && lists[1..][j].None?;
        assert lists[j + 1].None?;
      }
      return None;
    }
    assert forall k :: 0 <= k < |lists| ==> lists[k].Some? by {
      forall k | 1 <= k < |lists|
        ensures lists[k].Some?
      {
        assert lists[1..][k - 1] == lists[k];
      }
    }
    return Some(shared);
  }

  // --------------------------------------------------------------- writes

  /** The `success &=` loop: the write is made on every object, in order,
      whatever the earlier ones returned. */
  method ApplyAll<T>(objs: seq<T>, write: T -> (T, bool)) returns (written: seq<T>, success: bool)
    ensures |written| == |objs|
    ensures forall i :: 0 <= i < |objs| ==> written[i] == write(objs[i]).0
    ensures success <==> forall i :: 0 <= i < |objs| ==> write(objs[i]).1
  {
    written := [];
    success := true;
    for i := 0 to |objs|
      invariant |written| == i
      invariant forall j :: 0 <= j < i ==> written[j] == write(objs[j]).0
      invariant success <==> forall j :: 0 <= j < i ==> write(objs[j]).1
    {
      var (obj, ok) := write(objs[i]);
      written := written + [obj];
      success := success && ok;
    }
  }
}

// UsdQtPrimFilterCache: a filter gives every prim it visits a state; an
// Intermediate prim is resolved from its children's final states, and a
// rejected prim's children are never visited. The states are kept in a map
// from path to state. The children of one prim are filtered in parallel in
// the source; each child writes only the states of its own subtree, so the
// model runs them one after the other, in order. The class that keeps the
// map is in PrimFilterCaches.

module PrimFilterCacheModel {
  import opened SdfPaths
  import opened UsdStages

  datatype FilterState = Accept | Intermediate | Reject | Untraversed

  /** A filter reads the stage at the prim it is given. */
  type Filter = SdfPath -> FilterState

  // ---------------------------------------------------------------- measure

  /** The prims of the stage at or below `p`. */
  ghost function Subtree(st: Stage, p: SdfPath): set<SdfPath>
  {
    set q | q in st.prims && (q == p || HasPrefix(q, p))
  }

  lemma SubtreeShrinks(st: Stage, p: SdfPath, k: SdfPath)
    requires p in st.prims && IsChildOf(k, p)
    ensures |Subtree(st, k)| < |Subtree(st, p)|
  {
    forall q | q in Subtree(st, k)
      ensures q in Subtree(st, p)
    {
      if q != k {
        HasPrefixTransitive(q, k, p);
      }
    }
    assert p !in Subtree(st, k);
    assert p in Subtree(st, p) - Subtree(st, k);
    assert Subtree(st, p) == Subtree(st, k) + (Subtree(st, p) - Subtree(st, k));
  }

  // ------------------------------------------------------- reference meaning

  /** The state a prim ends with: what the filter says, except that an
      Intermediate prim is Accept exactly when some filtered child ends
      Accept, and Reject otherwise. */
  ghost function Final(filter: Filter, pred: Predicate, st: Stage, p: SdfPath): (r: FilterState)
    requires StageWf(st)
    ensures r != Intermediate
    decreases |Subtree(st, p)|, 1
  {
    var state := filter(p);
    if state != Intermediate then state
    else if AnyAccepted(filter, pred, st, p, FilteredChildren(pred, st, p)) then Accept
    else Reject
  }

  /** Some prim of `kids`, children of `p`, ends Accept. */
  ghost predicate AnyAccepted(filter: Filter, pred: Predicate, st: Stage, p: SdfPath, kids: seq<SdfPath>)
    requires StageWf(st) && forall k :: k in kids ==> p in st.prims && IsChildOf(k, p)
    decreases |Subtree(st, p)|, 0, |kids|
  {
    if kids == [] then false
    else
      assert kids[0] in kids;
      SubtreeShrinks(st, p, kids[0]);
      Final(filter, pred, st, kids[0]) == Accept || AnyAccepted(filter, pred, st, p, kids[1..])
  }

  lemma {:induction false} AnyAcceptedSpec(filter: Filter, pred: Predicate, st: Stage, p: SdfPath, kids: seq<SdfPath>)
    requires StageWf(st) && forall k :: k in kids ==> p in st.prims && IsChildOf(k, p)
    ensures AnyAccepted(filter, pred, st, p, kids) <==> exists k :: k in kids && Final(filter, pred, st, k) == Accept
    decreases |kids|
  {
    if kids != [] {
      assert forall k :: k in kids[1..] ==> k in kids;
      AnyAcceptedSpec(filter, pred, st, p, kids[1..]);
      assert AnyAccepted(filter, pred, st, p, kids)
        == (Final(filter, pred, st, kids[0]) == Accept || AnyAccepted(filter, pred, st, p, kids[1..]));
      assert forall k :: k in kids <==> k == kids[0] || k in kids[1..];
    }
  }

  /** `q` is visited when the filter starts at `p`: `p` itself, and the
      prims visited from the filtered children of a prim not rejected. */
  ghost predicate Reached(filter: Filter, pred: Predicate, st: Stage, p: SdfPath, q: SdfPath)
    requires StageWf(st)
    decreases |Subtree(st, p)|, 1
  {
    q == p || (filter(p) != Reject && ReachedAny(filter, pred, st, p, FilteredChildren(pred, st, p), q))
  }

  ghost predicate ReachedAny(filter: Filter, pred: Predicate, st: Stage, p: SdfPath, kids: seq<SdfPath>, q: SdfPath)
    requires StageWf(st) && forall k :: k in kids ==> p in st.prims && IsChildOf(k, p)
    decreases |Subtree(st, p)|, 0, |kids|
  {
    if kids == [] then false
    else
      assert kids[0] in kids;
      SubtreeShrinks(st, p, kids[0]);
      Reached(filter, pred, st, kids[0], q) || ReachedAny(filter, pred, st, p, kids[1..], q)
  }

  lemma {:induction false} ReachedAnySpec(filter: Filter, pred: Predicate, st: Stage, p: SdfPath, kids: seq<SdfPath>, q: SdfPath)
    requires StageWf(st) && forall k :: k in kids ==> p in st.prims && IsChildOf(k, p)
    ensures ReachedAny(filter, pred, st, p, kids, q) <==> exists k :: k in kids && Reached(filter, pred, st, k, q)
    decreases |kids|
  {
    if kids != [] {
      assert forall k :: k in kids[1..] ==> k in kids;
      ReachedAnySpec(filter, pred, st, p, kids[1..], q);
      assert ReachedAny(filter, pred, st, p, kids, q)
        == (Reached(filter, pred, st, kids[0], q) || ReachedAny(filter, pred, st, p, kids[1..], q));
      assert forall k :: k in kids <==> k == kids[0] || k in kids[1..];
    }
  }

  /** Every visited prim is `p` or a path below it. */
  lemma {:induction false} ReachedUnder(filter: Filter, pred: Predicate, st: Stage, p: SdfPath, q: SdfPath)
    requires StageWf(st) && Reached(filter, pred, st, p, q)
    ensures q == p || HasPrefix(q, p)
    decreases |Subtree(st, p)|
  {
    if q != p {
      var kids := FilteredChildren(pred, st, p);
      ReachedAnySpec(filter, pred, st, p, kids, q);
      var k :| k in kids && Reached(filter, pred, st, k, q);
      SubtreeShrinks(st, p, k);
      ReachedUnder(filter, pred, st, k, q);
      if q != k {
        HasPrefixTransitive(q, k, p);
      }
    }
  }

  /** A visited prim other than the start was listed among the filtered
      children of its parent, which was visited and not rejected: the
      children of a rejected prim are never visited. */
  lemma {:induction false} ReachedParent(filter: Filter, pred: Predicate, st: Stage, p: SdfPath, q: SdfPath)
    requires StageWf(st) && Reached(filter, pred, st, p, q) && q != p
    ensures Reached(filter, pred, st, p, ParentPath(q))
    ensures filter(ParentPath(q)) != Reject
    ensures q in FilteredChildren(pred, st, ParentPath(q))
    decreases |Subtree(st, p)|
  {
    var kids := FilteredChildren(pred, st, p);
    ReachedAnySpec(filter, pred, st, p, kids, q);
    var k :| k in kids && Reached(filter, pred, st, k, q);
    SubtreeShrinks(st, p, k);
    if q == k {
      assert ParentPath(q) == p;
    } else {
      ReachedParent(filter, pred, st, k, q);
      ReachedAnySpec(filter, pred, st, p, kids, ParentPath(q));
    }
  }

  /** The filtered children of a visited prim that is not rejected are
      visited. */
  lemma {:induction false} ReachedChild(filter: Filter, pred: Predicate, st: Stage, p: SdfPath, q: SdfPath, k: SdfPath)
    requires StageWf(st) && Reached(filter, pred, st, p, q)
    requires filter(q) != Reject && k in FilteredChildren(pred, st, q)
    ensures Reached(filter, pred, st, p, k)
    decreases |Subtree(st, p)|
  {
    var kids := FilteredChildren(pred, st, p);
    if q == p {
      SubtreeShrinks(st, p, k);
      ReachedAnySpec(filter, pred, st, p, kids, k);
    } else {
      ReachedAnySpec(filter, pred, st, p, kids, q);
      var c :| c in kids && Reached(filter, pred, st, c, q);
      SubtreeShrinks(st, p, c);
      ReachedChild(filter, pred, st, c, q, k);
      ReachedAnySpec(filter, pred, st, p, kids, k);
    }
  }

  // ------------------------------------------------------------- the filter

  /** `_RunFilter`: the prim's state is stored last, after its children's. */
  function RunFilter(filter: Filter, pred: Predicate, st: Stage, m: map<SdfPath, FilterState>, p: SdfPath)
    : (r: (map<SdfPath, FilterState>, FilterState))
    requires StageWf(st)
    ensures p in r.0 && r.0[p] == r.1
    decreases |Subtree(st, p)|, 1
  {
    var state := filter(p);
    if state == Reject then (m[p := Reject], Reject)
    else
      var kids := FilteredChildren(pred, st, p);
      var m1 := RunAll(filter, pred, st, m, p, kids);
      var resolved :=
        if state != Intermediate then state
        else if exists k :: k in kids && k in m1 && m1[k] == Accept then Accept
        else Reject;
      (m1[p := resolved], resolved)
  }

  /** The children loop of `_RunFilter`, in order. */
  function RunAll(filter: Filter, pred: Predicate, st: Stage, m: map<SdfPath, FilterState>, p: SdfPath, kids: seq<SdfPath>)
    : (r: map<SdfPath, FilterState>)
    requires StageWf(st) && forall k :: k in kids ==> p in st.prims && IsChildOf(k, p)
    decreases |Subtree(st, p)|, 0, |kids|
  {
    if kids == [] then m
    else
      assert kids[0] in kids;
      SubtreeShrinks(st, p, kids[0]);
      RunAll(filter, pred, st, RunFilter(filter, pred, st, m, kids[0]).0, p, kids[1..])
  }

  predicate AllChildren(st: Stage, p: SdfPath, kids: seq<SdfPath>) {
    forall k :: k in kids ==> p in st.prims && IsChildOf(k, p)
  }

  /** The children loop, from position `i`: the run from `kids[i]` and then
      the rest. */
  lemma RunAllStep(filter: Filter, pred: Predicate, st: Stage, m: map<SdfPath, FilterState>, p: SdfPath, kids: seq<SdfPath>, i: nat)
    requires StageWf(st) && forall k :: k in kids ==> p in st.prims && IsChildOf(k, p)
    requires i < |kids|
    ensures |Subtree(st, kids[i])| < |Subtree(st, p)|
    ensures AllChildren(st, p, kids[i..]) && AllChildren(st, p, kids[i + 1..])
    ensures RunAll(filter, pred, st, m, p, kids[i..])
      == RunAll(filter, pred, st, RunFilter(filter, pred, st, m, kids[i]).0, p, kids[i + 1..])
  {
    assert kids[i..][1..] == kids[i + 1..];
    assert kids[i] in kids;
    SubtreeShrinks(st, p, kids[i]);
  }

  /** What a run from `p` leaves in the map: every visited prim holds its
      final state, every other entry is kept. */
  ghost predicate Ran(filter: Filter, pred: Predicate, st: Stage, m: map<SdfPath, FilterState>, p: SdfPath, r: map<SdfPath, FilterState>)
    requires StageWf(st)
  {
    && (forall q :: q in r <==> q in m || Reached(filter, pred, st, p, q))
    && (forall q :: Reached(filter, pred, st, p, q) ==> r[q] == Final(filter, pred, st, q))
    && (forall q :: q in m && !Reached(filter, pred, st, p, q) ==> r[q] == m[q])
  }

  /** The same for the children loop over `kids`. */
  ghost predicate RanAll(filter: Filter, pred: Predicate, st: Stage, m: map<SdfPath, FilterState>, p: SdfPath, kids: seq<SdfPath>, r: map<SdfPath, FilterState>)
    requires StageWf(st) && forall k :: k in kids ==> p in st.prims && IsChildOf(k, p)
  {
    && (forall q :: q in r <==> q in m || ReachedAny(filter, pred, st, p, kids, q))
    && (forall q :: ReachedAny(filter, pred, st, p, kids, q) ==> r[q] == Final(filter, pred, st, q))
    && (forall q :: q in m && !ReachedAny(filter, pred, st, p, kids, q) ==> r[q] == m[q])
  }

  /** The state `_RunFilter` returns and stores is the prim's final state,
      and the map holds the final state of every prim it visited. */
  lemma {:induction false} RunFilterSpec(filter: Filter, pred: Predicate, st: Stage, m: map<SdfPath, FilterState>, p: SdfPath)
    requires StageWf(st)
    ensures RunFilter(filter, pred, st, m, p).1 == Final(filter, pred, st, p)
    ensures Ran(filter, pred, st, m, p, RunFilter(filter, pred, st, m, p).0)
    decreases |Subtree(st, p)|, 1
  {
    var state := filter(p);
    var kids := FilteredChildren(pred, st, p);
    if state != Reject {
      var m1 := RunAll(filter, pred, st, m, p, kids);
      RunAllSpec(filter, pred, st, m, p, kids);
      ReachedAnySpec(filter, pred, st, p, kids, p);
      forall k | k in kids && Reached(filter, pred, st, k, p)
        ensures false
      {
        SubtreeShrinks(st, p, k);
        ReachedUnder(filter, pred, st, k, p);
      }
      if state == Intermediate {
        AnyAcceptedSpec(filter, pred, st, p, kids);
        forall k | k in kids
          ensures k in m1 && m1[k] == Final(filter, pred, st, k)
        {
          SubtreeShrinks(st, p, k);
          ReachedAnySpec(filter, pred, st, p, kids, k);
        }
      }
    }
  }

  lemma {:induction false} RunAllSpec(filter: Filter, pred: Predicate, st: Stage, m: map<SdfPath, FilterState>, p: SdfPath, kids: seq<SdfPath>)
    requires StageWf(st) && forall k :: k in kids ==> p in st.prims && IsChildOf(k, p)
    ensures RanAll(filter, pred, st, m, p, kids, RunAll(filter, pred, st, m, p, kids))
    decreases |Subtree(st, p)|, 0, |kids|
  {
    if kids != [] {
      assert kids[0] in kids;
      SubtreeShrinks(st, p, kids[0]);
      var m0 := RunFilter(filter, pred, st, m, kids[0]).0;
      RunFilterSpec(filter, pred, st, m, kids[0]);
      RunAllSpec(filter, pred, st, m0, p, kids[1..]);
      var r := RunAll(filter, pred, st, m0, p, kids[1..]);
      forall q | Reached(filter, pred, st, kids[0], q) && !ReachedAny(filter, pred, st, p, kids[1..], q)
        ensures r[q] == Final(filter, pred, st, q)
      {
      }
    }
  }

  /** `ApplyFilter`: earlier states are dropped, then the filter runs from
      the root. */
  function ApplyFilter(filter: Filter, pred: Predicate, st: Stage, root: SdfPath): (r: map<SdfPath, FilterState>)
    requires StageWf(st)
    ensures root in r
  {
    RunFilter(filter, pred, st, map[], root).0
  }

  /** `GetState`: a path with no stored state is Untraversed. */
  function GetState(m: map<SdfPath, FilterState>, p: SdfPath): (r: FilterState)
    ensures p !in m ==> r == Untraversed
    ensures p in m ==> r == m[p]
  {
    if p in m then m[p] else Untraversed
  }

  /** After `ApplyFilter`, a path has a state exactly when it was visited,
      and that state is its final state; nothing else is traversed. */
  lemma ApplyFilterSpec(filter: Filter, pred: Predicate, st: Stage, root: SdfPath, q: SdfPath)
    requires StageWf(st)
    ensures q in ApplyFilter(filter, pred, st, root) <==> Reached(filter, pred, st, root, q)
    ensures Reached(filter, pred, st, root, q) ==> GetState(ApplyFilter(filter, pred, st, root), q) == Final(filter, pred, st, q)
    ensures !Reached(filter, pred, st, root, q) ==> GetState(ApplyFilter(filter, pred, st, root), q) == Untraversed
  {
    RunFilterSpec(filter, pred, st, map[], root);
  }

  /** No state that `GetState` reports after `ApplyFilter` is Intermediate. */
  lemma NeverIntermediate(filter: Filter, pred: Predicate, st: Stage, root: SdfPath, q: SdfPath)
    requires StageWf(st)
    ensures GetState(ApplyFilter(filter, pred, st, root), q) != Intermediate
  {
    ApplyFilterSpec(filter, pred, st, root, q);
  }

  /** A child of a prim the filter rejects stays Untraversed. */
  lemma RejectedChildUntraversed(filter: Filter, pred: Predicate, st: Stage, root: SdfPath, p: SdfPath, k: SdfPath)
    requires StageWf(st) && filter(p) == Reject && k != root && IsChildOf(k, p)
    ensures GetState(ApplyFilter(filter, pred, st, root), k) == Untraversed
  {
    ApplyFilterSpec(filter, pred, st, root, k);
    if Reached(filter, pred, st, root, k) {
      assert k.names[..|k.names| - 1] == p.names;
      ReachedParent(filter, pred, st, root, k);
      assert false;
    }
  }

  /** A visited prim that the filter does not reject has each of its
      filtered children visited. */
  lemma ChildrenTraversed(filter: Filter, pred: Predicate, st: Stage, root: SdfPath, p: SdfPath, k: SdfPath)
    requires StageWf(st) && p in ApplyFilter(filter, pred, st, root)
    requires filter(p) != Reject && k in FilteredChildren(pred, st, p)
    ensures k in ApplyFilter(filter, pred, st, root)
  {
    ApplyFilterSpec(filter, pred, st, root, p);
    ApplyFilterSpec(filter, pred, st, root, k);
    ReachedChild(filter, pred, st, root, p, k);
  }

  /** A visited prim the filter calls Intermediate ends Accept exactly when
      one of its filtered children ends Accept, and Reject otherwise. */
  lemma IntermediateResolved(filter: Filter, pred: Predicate, st: Stage, root: SdfPath, p: SdfPath)
    requires StageWf(st) && p in ApplyFilter(filter, pred, st, root) && filter(p) == Intermediate
    ensures var m := ApplyFilter(filter, pred, st, root);
      GetState(m, p) == Accept <==> exists k :: k in FilteredChildren(pred, st, p) && GetState(m, k) == Accept
    ensures var m := ApplyFilter(filter, pred, st, root);
      GetState(m, p) == Accept || GetState(m, p) == Reject
  {
    var m := ApplyFilter(filter, pred, st, root);
    var kids := FilteredChildren(pred, st, p);
    ApplyFilterSpec(filter, pred, st, root, p);
    AnyAcceptedSpec(filter, pred, st, p, kids);
    forall k | k in kids
      ensures GetState(m, k) == Final(filter, pred, st, k)
    {
      ChildrenTraversed(filter, pred, st, root, p, k);
      ApplyFilterSpec(filter, pred, st, root, k);
    }
  }

  /** A visited prim the filter does not call Intermediate keeps the
      filter's state. */
  lemma FilterStateKept(filter: Filter, pred: Predicate, st: Stage, root: SdfPath, p: SdfPath)
    requires StageWf(st) && p in ApplyFilter(filter, pred, st, root) && filter(p) != Intermediate
    ensures GetState(ApplyFilter(filter, pred, st, root), p) == filter(p)
  {
    ApplyFilterSpec(filter, pred, st, root, p);
  }

  // ------------------------------------------------------ the path filter

  /** `tolower` in the C locale: only ASCII capitals change. */
  function ToLowerChar(c: char): (r: char)
    ensures 'A' <= c <= 'Z' ==> r as int == c as int + 32
    ensures !('A' <= c <= 'Z') ==> r == c
  {
    if 'A' <= c <= 'Z' then (c as int + 32) as char else c
  }

  /** `TfStringToLower`: each character lowered, in place. */
  function ToLower(s: string): (r: string)
    ensures |r| == |s|
    ensures forall i :: 0 <= i < |s| ==> r[i] == ToLowerChar(s[i])
  {
    if s == [] then [] else [ToLowerChar(s[0])] + ToLower(s[1..])
  }

  /** `sub` occurs in `s` starting at `i`. */
  predicate OccursAt(s: string, sub: string, i: nat)
  {
    i + |sub| <= |s| && s[i..i + |sub|] == sub
  }

  /** `TfStringContains`: `sub` occurs somewhere in `s`; the empty string
      occurs in every string. */
  predicate Contains(s: string, sub: string)
  {
    exists i: nat :: i <= |s| && OccursAt(s, sub, i)
  }

  /** `UsdQtPrimFilterPathContains`: Accept when the prim's name contains the
      substring, ignoring ASCII case; otherwise Intermediate for a prim with
      children under the default predicate, Reject for one without. */
  function PathContains(substring: string, st: Stage, p: SdfPath): (r: FilterState)
    ensures r != Untraversed
  {
    if Contains(ToLower(NameOf(p)), ToLower(substring)) then Accept
    else if FilteredChildren(DefaultPredicate, st, p) != [] then Intermediate
    else Reject
  }

  lemma PathContainsSpec(substring: string, st: Stage, p: SdfPath)
    ensures PathContains(substring, st, p) == Accept <==> exists i: nat :: MatchesAt(NameOf(p), substring, i)
    ensures PathContains(substring, st, p) == Intermediate
      <==> PathContains(substring, st, p) != Accept
           && IsValidPrim(st, p) && exists c :: c in st.prims[p].children && Accepts(DefaultPredicate, st, c)
    ensures PathContains(substring, st, p) == Reject
      <==> PathContains(substring, st, p) != Accept
           && !(IsValidPrim(st, p) && exists c :: c in st.prims[p].children && Accepts(DefaultPredicate, st, c))
  {
    ContainsMatches(NameOf(p), substring);
    var kids := FilteredChildren(DefaultPredicate, st, p);
    if kids == [] {
      assert forall c :: !(c in kids);
    } else {
      assert kids[0] in kids;
    }
  }

  /** Containment after lower-casing both sides is a case-blind match. */
  lemma ContainsMatches(name: string, substring: string)
    ensures Contains(ToLower(name), ToLower(substring)) <==> exists i: nat :: MatchesAt(name, substring, i)
  {
    var lname, lsub := ToLower(name), ToLower(substring);
    forall i: nat
      ensures OccursAt(lname, lsub, i) <==> MatchesAt(name, substring, i)
    {
      if MatchesAt(name, substring, i) {
        assert lname[i..i + |lsub|] == lsub;
      }
      if OccursAt(lname, lsub, i) {
        forall j | 0 <= j < |substring|
          ensures ToLowerChar(name[i + j]) == ToLowerChar(substring[j])
        {
          assert lname[i..i + |lsub|][j] == lsub[j];
        }
      }
    }
  }

  /** `sub` matches `s` at `i`, character by character, ignoring ASCII case. */
  predicate MatchesAt(s: string, sub: string, i: nat)
  {
    i + |sub| <= |s| && forall j :: 0 <= j < |sub| ==> ToLowerChar(s[i + j]) == ToLowerChar(sub[j])
  }

  /** `UsdQtPrimFilterPathContains` bound to its substring. */
  function PathContainsFilter(substring: string, st: Stage): (r: Filter)
    ensures forall p :: r(p) == PathContains(substring, st, p)
  {
    p => PathContains(substring, st, p)
  }

  /** `ApplyPathContainsFilter`: with a filter that never answers
      Untraversed, every prim visited ends Accept or Reject. */
  function ApplyPathContainsFilter(st: Stage, root: SdfPath, substring: string, pred: Predicate): (r: map<SdfPath, FilterState>)
    requires StageWf(st)
    ensures root in r
    ensures forall q :: q in r ==> r[q] == Accept || r[q] == Reject
  {
    var filter := PathContainsFilter(substring, st);
    var m := ApplyFilter(filter, pred, st, root);
    assert forall q :: q in m ==> m[q] == Accept || m[q] == Reject by {
      forall q | q in m
        ensures m[q] == Accept || m[q] == Reject
      {
        ApplyFilterSpec(filter, pred, st, root, q);
      }
    }
    m
  }
}

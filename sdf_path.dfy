// Scene-description paths as the table and cache code uses them: the empty
// path, or an absolute prim path given by its element names. The absolute
// root "/" has no elements. Paths are ordered element by element, each
// element compared as a string, with a path ordered before its descendants.

module SdfPaths {

  datatype SdfPath = EmptyPath | PrimPath(names: seq<string>)

  const AbsoluteRoot: SdfPath := PrimPath([])

  /** `q` is `p` itself or a descendant of `p`. */
  predicate HasPrefix(q: SdfPath, p: SdfPath)
  {
    q.PrimPath? && p.PrimPath? && p.names <= q.names
  }

  lemma HasPrefixTransitive(q: SdfPath, k: SdfPath, p: SdfPath)
    requires HasPrefix(q, k) && HasPrefix(k, p)
    ensures HasPrefix(q, p)
  {
    assert q.names[..|p.names|] == k.names[..|p.names|];
  }

  /** The longest list both element lists start with. */
  function CommonNames(a: seq<string>, b: seq<string>): (r: seq<string>)
    ensures r <= a && r <= b
    ensures |r| < |a| && |r| < |b| ==> a[|r|] != b[|r|]
  {
    if a != [] && b != [] && a[0] == b[0] then [a[0]] + CommonNames(a[1..], b[1..]) else []
  }

  /** `GetCommonPrefix`: the deepest path both paths lie under, the empty
      path when either is empty. */
  function CommonPrefix(a: SdfPath, b: SdfPath): (r: SdfPath)
    ensures r.PrimPath? <==> a.PrimPath? && b.PrimPath?
  {
    if a.EmptyPath? || b.EmptyPath? then EmptyPath else PrimPath(CommonNames(a.names, b.names))
  }

  /** A non-empty path is the common prefix of itself and `a` exactly when
      `a` lies under it: the ancestor test the proxies use. */
  lemma CommonPrefixIsAncestor(a: SdfPath, b: SdfPath)
    ensures b.PrimPath? ==> (CommonPrefix(a, b) == b <==> HasPrefix(a, b))
  {
    if HasPrefix(a, b) {
      CommonNamesOfPrefix(a.names, b.names);
    }
  }

  lemma {:induction false} CommonNamesOfPrefix(a: seq<string>, b: seq<string>)
    requires b <= a
    ensures CommonNames(a, b) == b
    decreases |b|
  {
    if b != [] {
      assert a[0] == b[0];
      assert b[1..] <= a[1..];
      CommonNamesOfPrefix(a[1..], b[1..]);
      assert b == [b[0]] + b[1..];
    }
  }

  /** `k` names a direct child of `p`. */
  predicate IsChildOf(k: SdfPath, p: SdfPath)
  {
    HasPrefix(k, p) && |k.names| == |p.names| + 1
  }

  /** The parent path; the empty path for "/" and for the empty path. */
  function ParentPath(p: SdfPath): (r: SdfPath)
    ensures r.EmptyPath? <==> p.EmptyPath? || p == AbsoluteRoot
    ensures r.PrimPath? ==> IsChildOf(p, r)
  {
    if p.EmptyPath? || p.names == [] then EmptyPath
    else PrimPath(p.names[..|p.names| - 1])
  }

  /** The last element of a prim path: its name. */
  function NameOf(p: SdfPath): (r: string)
    ensures p.PrimPath? && p.names != [] ==> r == p.names[|p.names| - 1]
  {
    if p.PrimPath? && p.names != [] then p.names[|p.names| - 1] else ""
  }

  // ---------------------------------------------------------------- order

  /** Lexicographic order on strings, character by character. */
  predicate StrLess(a: string, b: string)
  {
    |b| > 0 && (|a| == 0 || a[0] < b[0] || (a[0] == b[0] && StrLess(a[1..], b[1..])))
  }

  /** Lexicographic order on element lists, elements compared as strings. */
  predicate NamesLess(a: seq<string>, b: seq<string>)
  {
    |b| > 0 && (|a| == 0 || StrLess(a[0], b[0]) || (a[0] == b[0] && NamesLess(a[1..], b[1..])))
  }

  /** The order on paths: the empty path first, then prim paths by their elements. */
  predicate PathLess(a: SdfPath, b: SdfPath)
  {
    b.PrimPath? && (a.EmptyPath? || NamesLess(a.names, b.names))
  }

  lemma StrLessIrreflexive(a: string)
    ensures !StrLess(a, a)
  {
  }

  lemma StrLessTransitive(a: string, b: string, c: string)
    requires StrLess(a, b) && StrLess(b, c)
    ensures StrLess(a, c)
  {
  }

  lemma StrLessTotal(a: string, b: string)
    ensures a == b || StrLess(a, b) || StrLess(b, a)
  {
    if |a| > 0 && |b| > 0 && a[0] == b[0] {
      StrLessTotal(a[1..], b[1..]);
      if a[1..] == b[1..] {
        assert a == [a[0]] + a[1..] && b == [b[0]] + b[1..];
      }
    }
  }

  lemma NamesLessIrreflexive(a: seq<string>)
    ensures !NamesLess(a, a)
  {
    if |a| > 0 {
      StrLessIrreflexive(a[0]);
      NamesLessIrreflexive(a[1..]);
    }
  }

  lemma NamesLessTransitive(a: seq<string>, b: seq<string>, c: seq<string>)
    requires NamesLess(a, b) && NamesLess(b, c)
    ensures NamesLess(a, c)
  {
    if |a| > 0 {
      if StrLess(a[0], b[0]) && StrLess(b[0], c[0]) {
        StrLessTransitive(a[0], b[0], c[0]);
      } else if a[0] == b[0] && b[0] == c[0] {
        NamesLessTransitive(a[1..], b[1..], c[1..]);
      }
    }
  }

  lemma NamesLessTotal(a: seq<string>, b: seq<string>)
    ensures a == b || NamesLess(a, b) || NamesLess(b, a)
  {
    if |a| > 0 && |b| > 0 {
      StrLessTotal(a[0], b[0]);
      if a[0] == b[0] {
        NamesLessTotal(a[1..], b[1..]);
        if a[1..] == b[1..] {
          assert a == [a[0]] + a[1..] && b == [b[0]] + b[1..];
        }
      }
    }
  }

  lemma PathLessIrreflexive(a: SdfPath)
    ensures !PathLess(a, a)
  {
    if a.PrimPath? {
      NamesLessIrreflexive(a.names);
    }
  }

  lemma PathLessTransitive(a: SdfPath, b: SdfPath, c: SdfPath)
    requires PathLess(a, b) && PathLess(b, c)
    ensures PathLess(a, c)
  {
    if a.PrimPath? {
      NamesLessTransitive(a.names, b.names, c.names);
    }
  }

  lemma PathLessTotal(a: SdfPath, b: SdfPath)
    ensures a == b || PathLess(a, b) || PathLess(b, a)
  {
    if a.PrimPath? && b.PrimPath? {
      NamesLessTotal(a.names, b.names);
    }
  }

  lemma PathLessAsymmetric(a: SdfPath, b: SdfPath)
    requires PathLess(a, b)
    ensures !PathLess(b, a)
  {
    if PathLess(b, a) {
      PathLessTransitive(a, b, a);
      PathLessIrreflexive(a);
    }
  }

  /** A proper ancestor sorts before its descendants. */
  lemma {:induction false} AncestorFirst(q: SdfPath, p: SdfPath)
    requires HasPrefix(q, p) && q != p
    ensures PathLess(p, q)
    decreases |p.names|
  {
    if p.names != [] {
      assert q.names[0] == p.names[0];
      StrLessIrreflexive(q.names[0]);
      AncestorFirst(PrimPath(q.names[1..]), PrimPath(p.names[1..]));
    }
  }

  // ---------------------------------------------------------------- sorting

  /** Non-decreasing in the path order. */
  ghost predicate Sorted(s: seq<SdfPath>)
  {
    forall i, j :: 0 <= i < j < |s| ==> !PathLess(s[j], s[i])
  }

  /** Inserts `x` before the first element not below it. */
  function Insert(x: SdfPath, s: seq<SdfPath>): (r: seq<SdfPath>)
    ensures multiset(r) == multiset(s) + multiset{x}
    ensures |r| == |s| + 1
  {
    if s == [] || !PathLess(s[0], x) then [x] + s
    else
      assert s == [s[0]] + s[1..];
      [s[0]] + Insert(x, s[1..])
  }

  lemma {:induction false} InsertSorted(x: SdfPath, s: seq<SdfPath>)
    requires Sorted(s)
    ensures Sorted(Insert(x, s))
  {
    if s == [] || !PathLess(s[0], x) {
      forall j | 0 <= j < |s| ensures !PathLess(s[j], x) {
        if PathLess(s[j], x) {
          PathLessTotal(s[0], s[j]);
          if s[0] != s[j] {
            PathLessTransitive(s[0], s[j], x);
          }
        }
      }
    } else {
      var rest := Insert(x, s[1..]);
      InsertSorted(x, s[1..]);
      PathLessAsymmetric(s[0], x);
      var r := [s[0]] + rest;
      forall j | 0 < j < |r| ensures !PathLess(r[j], s[0]) {
        assert r[j] in multiset(rest);
        if r[j] != x {
          assert r[j] in s[1..];
        }
      }
    }
  }

  /** `std::sort` / `list.sort` on paths: a sorted permutation of the input. */
  function SortPaths(s: seq<SdfPath>): (r: seq<SdfPath>)
    ensures Sorted(r)
    ensures multiset(r) == multiset(s)
    ensures |r| == |s|
  {
    if s == [] then []
    else
      assert s == [s[0]] + s[1..];
      InsertSorted(s[0], SortPaths(s[1..]));
      Insert(s[0], SortPaths(s[1..]))
  }

  /** Drops each element equal to the one before it: on a sorted list, the
      ascending order in which a `std::set` of the same paths is iterated. */
  function Uniq(s: seq<SdfPath>): (r: seq<SdfPath>)
    ensures forall x :: x in r <==> x in s
    ensures forall i :: 0 <= i < |r| - 1 ==> r[i] != r[i + 1]
    ensures r != [] ==> s != [] && r[0] == s[0]
  {
    if |s| <= 1 then s
    else if s[0] == s[1] then Uniq(s[1..])
    else [s[0]] + Uniq(s[1..])
  }

  lemma UniqSortedDistinct(s: seq<SdfPath>)
    requires Sorted(s)
    ensures forall i, j :: 0 <= i < j < |Uniq(s)| ==> PathLess(Uniq(s)[i], Uniq(s)[j])
  {
    if |s| > 1 {
      assert Sorted(s[1..]);
      UniqSortedDistinct(s[1..]);
      if s[0] != s[1] {
        var r := Uniq(s[1..]);
        forall j | 0 <= j < |r| ensures PathLess(s[0], r[j]) {
          assert r[j] in s[1..];
          var k :| 1 <= k < |s| && s[k] == r[j];
          PathLessTotal(s[0], s[k]);
          if s[0] == s[k] {
            assert !PathLess(s[1], s[0]) && !PathLess(s[k], s[1]);
            PathLessTotal(s[0], s[1]);
          }
        }
      }
    }
  }

  // ---------------------------------------------------------------- lists

  /** `std::find`: the first position holding `x`, or the length. */
  function FindIndex(s: seq<SdfPath>, x: SdfPath): (r: nat)
    ensures r <= |s|
    ensures r < |s| ==> s[r] == x
    ensures x !in s[..r]
  {
    if s == [] then 0
    else if s[0] == x then 0
    else
      var i := FindIndex(s[1..], x);
      assert s[..i + 1] == [s[0]] + s[1..][..i];
      i + 1
  }

  /** No path occurs twice. */
  ghost predicate Distinct(s: seq<SdfPath>)
  {
    forall i, j :: 0 <= i < j < |s| ==> s[i] != s[j]
  }

  lemma DistinctTail(s: seq<SdfPath>)
    requires s != [] && Distinct(s)
    ensures Distinct(s[1..]) && s[0] !in s[1..]
  {
    forall i, j | 0 <= i < j < |s[1..]| ensures s[1..][i] != s[1..][j] {
      assert s[1..][i] == s[i + 1] && s[1..][j] == s[j + 1];
    }
  }

  /** The parents of the resynced paths, each once, in ascending order: the
      iteration order of the parent set. */
  function UniqueParents(paths: seq<SdfPath>): (r: seq<SdfPath>)
    ensures forall P :: P in r <==> exists p :: p in paths && ParentPath(p) == P
    ensures Distinct(r)
  {
    var parents := seq(|paths|, i requires 0 <= i < |paths| => ParentPath(paths[i]));
    var s := SortPaths(parents);
    UniqSortedDistinct(s);
    forall i, j | 0 <= i < j < |Uniq(s)| ensures Uniq(s)[i] != Uniq(s)[j] {
      PathLessIrreflexive(Uniq(s)[i]);
    }
    forall P ensures P in s <==> exists p :: p in paths && ParentPath(p) == P {
      assert P in s <==> P in multiset(s);
      assert P in parents <==> P in multiset(parents);
      if P in parents {
        var i :| 0 <= i < |parents| && parents[i] == P;
        assert parents[i] == ParentPath(paths[i]) && paths[i] in paths;
      }
      if p :| p in paths && ParentPath(p) == P {
        var i :| 0 <= i < |paths| && paths[i] == p;
        assert parents[i] == P;
      }
    }
    Uniq(s)
  }

  /** A subset is no larger. */
  lemma SubsetCard<T>(a: set<T>, b: set<T>)
    requires a <= b
    ensures |a| <= |b|
  {
    assert b == a + (b - a);
  }
}

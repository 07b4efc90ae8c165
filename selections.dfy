// Variant selections as (set name, variant name) pairs, and the
// first-occurrence rule that every variant listing of the editors follows:
// walking a list of selections, a set name is taken the first time it is met
// while it is still open, and is closed from then on.

module Selections {
  /** A variant set name and the variant selected in it. */
  datatype PrimVariant = PrimVariant(setName: string, variantName: string)

  /** The set names of `vs`, in order. */
  function SetNames(vs: seq<PrimVariant>): (r: seq<string>)
    ensures |r| == |vs| && forall i :: 0 <= i < |vs| ==> r[i] == vs[i].setName
  {
    if vs == [] then [] else [vs[0].setName] + SetNames(vs[1..])
  }

  /** A set name occurs in `vs` exactly when some selection of `vs` is in
      that set. */
  lemma SetNamesIn(vs: seq<PrimVariant>, n: string)
    ensures n in SetNames(vs) <==> exists x :: x in vs && x.setName == n
  {
    if n in SetNames(vs) {
      var k :| 0 <= k < |vs| && SetNames(vs)[k] == n;
      assert vs[k] in vs;
    }
    if exists x :: x in vs && x.setName == n {
      var x :| x in vs && x.setName == n;
      var k :| 0 <= k < |vs| && vs[k] == x;
      assert SetNames(vs)[k] == n;
    }
  }

  /** The set names of `vs`, as a set. */
  function NameSet(vs: seq<PrimVariant>): (r: set<string>)
    ensures forall n :: n in r <==> n in SetNames(vs)
  {
    set n | n in SetNames(vs)
  }

  lemma NameSetSnoc(vs: seq<PrimVariant>, v: PrimVariant)
    ensures NameSet(vs + [v]) == NameSet(vs) + {v.setName}
  {
    assert SetNames(vs + [v]) == SetNames(vs) + [v.setName];
  }

  lemma NameSetAppend(a: seq<PrimVariant>, b: seq<PrimVariant>)
    ensures NameSet(a + b) == NameSet(a) + NameSet(b)
  {
    var ab := a + b;
    assert SetNames(ab) == SetNames(a) + SetNames(b) by {
      forall i | 0 <= i < |ab| ensures SetNames(ab)[i] == (SetNames(a) + SetNames(b))[i] {
        if i >= |a| {
          assert ab[i] == b[i - |a|];
        }
      }
    }
  }

  /** The index of the first selection of `vs` in set `name`, or `|vs|`. */
  function FirstIn(vs: seq<PrimVariant>, name: string): (r: nat)
    ensures r <= |vs|
    ensures r < |vs| ==> vs[r].setName == name
    ensures forall i :: 0 <= i < r ==> vs[i].setName != name
  {
    if vs == [] then 0
    else if vs[0].setName == name then 0
    else 1 + FirstIn(vs[1..], name)
  }

  /** The selections of `vs` whose set is still open when they are met; a
      set closes at its first selection. */
  function FirstWithin(vs: seq<PrimVariant>, open: set<string>): (r: seq<PrimVariant>)
    ensures |r| <= |vs| && forall x :: x in r ==> x in vs
  {
    if vs == [] then []
    else if vs[0].setName in open then [vs[0]] + FirstWithin(vs[1..], open - {vs[0].setName})
    else FirstWithin(vs[1..], open)
  }

  /** No two selections name the same set. */
  ghost predicate DistinctSets(vs: seq<PrimVariant>)
  {
    forall i, j :: 0 <= i < j < |vs| ==> vs[i].setName != vs[j].setName
  }

  /** The open sets left after the walk: those `vs` never mentions. */
  lemma {:induction false} FirstWithinSets(vs: seq<PrimVariant>, open: set<string>)
    ensures forall n :: n in SetNames(FirstWithin(vs, open)) <==> n in open && n in SetNames(vs)
    decreases |vs|
  {
    if vs != [] {
      FirstWithinSets(vs[1..], open - {vs[0].setName});
      FirstWithinSets(vs[1..], open);
      assert SetNames(vs) == [vs[0].setName] + SetNames(vs[1..]);
      if vs[0].setName in open {
        var r := FirstWithin(vs, open);
        assert SetNames(r) == [vs[0].setName] + SetNames(FirstWithin(vs[1..], open - {vs[0].setName}));
      }
    }
  }

  /** Each set taken appears once, and it is taken with its first selection in
      `vs`. */
  lemma FirstWithinSpec(vs: seq<PrimVariant>, open: set<string>)
    ensures DistinctSets(FirstWithin(vs, open))
    ensures forall x :: x in FirstWithin(vs, open) ==> x.setName in open && x == vs[FirstIn(vs, x.setName)]
  {
    FirstWithinTaken(vs, open);
    FirstWithinDistinct(vs, open);
  }

  /** Each set taken is open, and taken with its first selection in `vs`. */
  lemma {:induction false} FirstWithinTaken(vs: seq<PrimVariant>, open: set<string>)
    ensures forall x :: x in FirstWithin(vs, open) ==> x.setName in open && x == vs[FirstIn(vs, x.setName)]
    decreases |vs|
  {
    if vs != [] {
      var n := vs[0].setName;
      var open' := if n in open then open - {n} else open;
      FirstWithinTaken(vs[1..], open');
      forall x | x in FirstWithin(vs, open)
        ensures x.setName in open && x == vs[FirstIn(vs, x.setName)]
      {
        if x != vs[0] || n !in open {
          assert x in FirstWithin(vs[1..], open');
          FirstInTail(vs, x.setName);
        }
      }
    }
  }

  lemma FirstInTail(vs: seq<PrimVariant>, name: string)
    requires vs != [] && vs[0].setName != name && FirstIn(vs[1..], name) < |vs| - 1
    ensures FirstIn(vs, name) == 1 + FirstIn(vs[1..], name) && vs[FirstIn(vs, name)] == vs[1..][FirstIn(vs[1..], name)]
  {
  }

  /** Each set taken appears once. */
  lemma {:induction false} FirstWithinDistinct(vs: seq<PrimVariant>, open: set<string>)
    ensures DistinctSets(FirstWithin(vs, open))
    decreases |vs|
  {
    if vs != [] {
      var n := vs[0].setName;
      if n in open {
        var rest := FirstWithin(vs[1..], open - {n});
        FirstWithinDistinct(vs[1..], open - {n});
        FirstWithinTaken(vs[1..], open - {n});
        ConsDistinctSets(vs[0], rest);
      } else {
        FirstWithinDistinct(vs[1..], open);
      }
    }
  }

  lemma ConsDistinctSets(v: PrimVariant, rest: seq<PrimVariant>)
    requires DistinctSets(rest) && forall x :: x in rest ==> x.setName != v.setName
    ensures DistinctSets([v] + rest)
  {
    var r := [v] + rest;
    forall i, j | 0 <= i < j < |r| ensures r[i].setName != r[j].setName {
      assert r[j] == rest[j - 1] && rest[j - 1] in rest;
      if i > 0 {
        assert r[i] == rest[i - 1];
      }
    }
  }
}

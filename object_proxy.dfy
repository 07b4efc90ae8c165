// The queries every opinion proxy answers about the objects it stands for:
// whether it holds a path or something under it, the name they share,
// whether they are valid, authored or defined, and which metadata fields
// an editor should offer for them.

module ObjectProxies {
  import opened SdfPaths
  import opened UsdObjects
  import opened ProxyRules

  // ---------------------------------------------------------------- paths

  /** Some object has `path`, which is not the empty path. */
  function PathIn(objects: seq<UsdObject>, path: SdfPath): (r: bool)
    ensures r <==> path.PrimPath? && exists j :: 0 <= j < |objects| && objects[j].path == path
  {
    if objects == [] then false
    else
      assert forall j :: 1 <= j < |objects| ==> objects[j] == objects[1..][j - 1];
      (path.PrimPath? && objects[0].path == path) || PathIn(objects[1..], path)
  }

  /** `ContainsPath`: some non-empty query path is the path of some object. */
  function ContainsPath(objects: seq<UsdObject>, paths: seq<SdfPath>): (r: bool)
    ensures r <==> exists i, j :: 0 <= i < |paths| && 0 <= j < |objects| && paths[i].PrimPath? && objects[j].path == paths[i]
  {
    if paths == [] then false
    else
      assert forall i :: 1 <= i < |paths| ==> paths[i] == paths[1..][i - 1];
      PathIn(objects, paths[0]) || ContainsPath(objects, paths[1..])
  }

  /** Some object lies at or under `path`, which is not the empty path; the
      test is that the two paths' common prefix is `path` itself. */
  function PrefixIn(objects: seq<UsdObject>, path: SdfPath): (r: bool)
    ensures r <==> path.PrimPath? && exists j :: 0 <= j < |objects| && HasPrefix(objects[j].path, path)
  {
    if objects == [] then false
    else
      assert forall j :: 1 <= j < |objects| ==> objects[j] == objects[1..][j - 1];
      CommonPrefixIsAncestor(objects[0].path, path);
      (path.PrimPath? && CommonPrefix(objects[0].path, path) == path) || PrefixIn(objects[1..], path)
  }

  /** `ContainsPathOrDescendent`: some object lies at or under some non-empty
      query path. */
  function ContainsPathOrDescendent(objects: seq<UsdObject>, paths: seq<SdfPath>): (r: bool)
    ensures r <==> exists i, j :: 0 <= i < |paths| && 0 <= j < |objects| && paths[i].PrimPath? && HasPrefix(objects[j].path, paths[i])
  {
    if paths == [] then false
    else
      assert forall i :: 1 <= i < |paths| ==> paths[i] == paths[1..][i - 1];
      PrefixIn(objects, paths[0]) || ContainsPathOrDescendent(objects, paths[1..])
  }

  /** Holding a path implies holding something at or under it. */
  lemma ContainsPathImpliesDescendent(objects: seq<UsdObject>, paths: seq<SdfPath>)
    ensures ContainsPath(objects, paths) ==> ContainsPathOrDescendent(objects, paths)
  {
    if ContainsPath(objects, paths) {
      var i, j :| 0 <= i < |paths| && 0 <= j < |objects| && paths[i].PrimPath? && objects[j].path == paths[i];
      assert HasPrefix(objects[j].path, paths[i]);
    }
  }

  // ------------------------------------------------------- shared answers

  function Names(objects: seq<UsdObject>): (r: seq<string>)
    ensures |r| == |objects| && forall j :: 0 <= j < |objects| ==> r[j] == objects[j].name
  {
    seq(|objects|, j requires 0 <= j < |objects| => objects[j].name)
  }

  /** `GetName`: the name every object has, or the empty name when they
      differ or there are none. */
  function GetName(objects: seq<UsdObject>): (r: string)
    ensures objects == [] ==> r == ""
    ensures r != "" ==> forall j :: 0 <= j < |objects| ==> objects[j].name == r
    ensures objects != [] && (forall j :: 0 <= j < |objects| ==> objects[j].name == objects[0].name) ==> r == objects[0].name
    ensures (exists i, j :: 0 <= i < |objects| && 0 <= j < |objects| && objects[i].name != objects[j].name) ==> r == ""
  {
    SharedSpec(Names(objects), "");
    assert forall i, j :: 0 <= i < |objects| && 0 <= j < |objects| && objects[i].name != objects[j].name ==> Names(objects)[i] != Names(objects)[j];
    Shared(Names(objects), "")
  }

  /** `IsValid`: every object is valid; true for no objects. */
  function IsValid(objects: seq<UsdObject>): (r: bool)
    ensures r <==> forall j :: 0 <= j < |objects| ==> objects[j].valid
  {
    AllOf(objects, (o: UsdObject) => o.valid)
  }

  /** `IsAuthored`: some object has an opinion in some layer; false for no
      objects. */
  function IsAuthored(objects: seq<UsdObject>): (r: bool)
    ensures r <==> exists j :: 0 <= j < |objects| && objects[j].authoredAt != {}
  {
    AnyOf(objects, (o: UsdObject) => o.authoredAt != {})
  }

  /** `IsAuthoredAt`: some object has an opinion in the target layer. */
  function IsAuthoredAt(objects: seq<UsdObject>, layer: string): (r: bool)
    ensures r <==> exists j :: 0 <= j < |objects| && layer in objects[j].authoredAt
  {
    AnyOf(objects, (o: UsdObject) => layer in o.authoredAt)
  }

  /** `IsDefined`: some object is defined; false for no objects. */
  function IsDefined(objects: seq<UsdObject>): (r: bool)
    ensures r <==> exists j :: 0 <= j < |objects| && objects[j].defined
  {
    AnyOf(objects, (o: UsdObject) => o.defined)
  }

  /** Being authored in the target layer is being authored somewhere. */
  lemma AuthoredAtIsAuthored(objects: seq<UsdObject>, layer: string)
    ensures IsAuthoredAt(objects, layer) ==> IsAuthored(objects)
  {
    if IsAuthoredAt(objects, layer) {
      var j :| 0 <= j < |objects| && layer in objects[j].authoredAt;
      assert objects[j].authoredAt != {};
    }
  }

  // ------------------------------------------------------ metadata fields

  /** Non-decreasing in the string order. */
  ghost predicate TokensSorted(s: seq<string>)
  {
    forall i, j :: 0 <= i < j < |s| ==> !StrLess(s[j], s[i])
  }

  /** Inserts `x` before the first token not below it. */
  function InsertToken(x: string, s: seq<string>): (r: seq<string>)
    ensures multiset(r) == multiset(s) + multiset{x}
    ensures |r| == |s| + 1
  {
    if s == [] || !StrLess(s[0], x) then [x] + s
    else
      assert s == [s[0]] + s[1..];
      [s[0]] + InsertToken(x, s[1..])
  }

  lemma {:induction false} InsertTokenSorted(x: string, s: seq<string>)
    requires TokensSorted(s)
    ensures TokensSorted(InsertToken(x, s))
  {
    if s == [] || !StrLess(s[0], x) {
      forall j | 0 <= j < |s| ensures !StrLess(s[j], x) {
        if StrLess(s[j], x) {
          StrLessTotal(s[0], s[j]);
          if s[0] != s[j] {
            StrLessTransitive(s[0], s[j], x);
          }
        }
      }
    } else {
      var rest := InsertToken(x, s[1..]);
      InsertTokenSorted(x, s[1..]);
      StrLessIrreflexive(x);
      if StrLess(x, s[0]) {
        StrLessTransitive(x, s[0], x);
      }
      var r := [s[0]] + rest;
      forall j | 0 < j < |r| ensures !StrLess(r[j], s[0]) {
        assert r[j] in multiset(rest);
        if r[j] != x {
          assert r[j] in s[1..];
        }
      }
    }
  }

  /** `std::sort` on tokens: a sorted permutation of the input. */
  function SortTokens(s: seq<string>): (r: seq<string>)
    ensures TokensSorted(r)
    ensures multiset(r) == multiset(s)
  {
    if s == [] then []
    else
      assert s == [s[0]] + s[1..];
      InsertTokenSorted(s[0], SortTokens(s[1..]));
      InsertToken(s[0], SortTokens(s[1..]))
  }

  /** The fields whose display group is not "deprecated". */
  function NotDeprecated(displayGroup: string -> string): (keep: string -> bool)
    ensures forall f :: keep(f) <==> displayGroup(f) != "deprecated"
  {
    f => displayGroup(f) != "deprecated"
  }

  /** `GetMetadataFields`: nothing for no objects; otherwise the schema's
      fields for the object kind, without those the attribute display groups
      call deprecated, sorted. The schema's field list and display groups are
      parameters. */
  method GetMetadataFields(objects: seq<UsdObject>, schemaFields: seq<string>, displayGroup: string -> string)
    returns (fields: seq<string>)
    ensures objects == [] ==> fields == []
    ensures objects != [] ==> TokensSorted(fields)
    ensures objects != [] ==> multiset(fields) == multiset(Filter(schemaFields, NotDeprecated(displayGroup)))
    ensures objects != [] ==> forall f :: f in fields <==> f in schemaFields && displayGroup(f) != "deprecated"
  {
    if |objects| < 1 {
      return [];
    }
    var a := new string[|schemaFields|](i requires 0 <= i < |schemaFields| => schemaFields[i]);
    assert a[..|schemaFields|] == schemaFields;
    var end := RemoveIf(a, |schemaFields|, NotDeprecated(displayGroup));
    fields := SortTokens(a[..end]);
    forall f
      ensures f in fields <==> f in schemaFields && displayGroup(f) != "deprecated"
    {
      assert f in fields <==> f in multiset(fields);
      assert f in a[..end] <==> f in multiset(a[..end]);
      FilterMembers(schemaFields, NotDeprecated(displayGroup), f);
    }
  }

  // ------------------------------------------------------------- examples

  const World: SdfPath := PrimPath(["World"])
  const AttrPrim1X: SdfPath := PrimPath(["World", "AttrPrim1", ".x"])
  const AttrPrim2X: SdfPath := PrimPath(["World", "AttrPrim2", ".x"])

  /** Two attributes `x`, under "/World/AttrPrim1" and "/World/AttrPrim2". */
  function ExampleAttributes(): (r: seq<UsdObject>)
    ensures |r| == 2 && r[0].path == AttrPrim1X && r[1].path == AttrPrim2X
  {
    [UsdObject(AttrPrim1X, "x", true, map[], {}, true), UsdObject(AttrPrim2X, "x", true, map[], {}, true)]
  }

  /** The containment cases of the proxy tests: only the attribute paths
      themselves are held; "/World" and "/World/AttrPrim2" hold them, while
      "/World/AttrPrim", the sibling property ".y" and the empty path hold
      nothing. */
  lemma ContainsExamples()
    ensures ContainsPath(ExampleAttributes(), [AttrPrim1X])
    ensures ContainsPath(ExampleAttributes(), [AttrPrim2X, PrimPath(["World", "blah"])])
    ensures !ContainsPath(ExampleAttributes(), [World])
    ensures !ContainsPath(ExampleAttributes(), [EmptyPath])
    ensures ContainsPathOrDescendent(ExampleAttributes(), [World])
    ensures ContainsPathOrDescendent(ExampleAttributes(), [PrimPath(["World", "AttrPrim2"])])
    ensures !ContainsPathOrDescendent(ExampleAttributes(), [PrimPath(["World", "AttrPrim"])])
    ensures !ContainsPathOrDescendent(ExampleAttributes(), [PrimPath(["World", "AttrPrim1", ".y"])])
    ensures !ContainsPathOrDescendent(ExampleAttributes(), [EmptyPath])
  {
    var objs := ExampleAttributes();
    assert HasPrefix(objs[0].path, World) by {
      assert World.names == AttrPrim1X.names[..1];
    }
    assert HasPrefix(objs[1].path, PrimPath(["World", "AttrPrim2"])) by {
      assert ["World", "AttrPrim2"] == AttrPrim2X.names[..2];
    }
    var short, other := "AttrPrim", ".y";
    assert |short| == 8 && |"AttrPrim1"| == 9 && |"AttrPrim2"| == 9;
    assert other[1] == 'y' && ".x"[1] == 'x';
    var q := ["World", "AttrPrim"];
    assert q[1] != AttrPrim1X.names[1] && q[1] != AttrPrim2X.names[1];
    assert !(q <= AttrPrim1X.names) && !(q <= AttrPrim2X.names);
    assert ["World", "AttrPrim1", ".y"] != AttrPrim1X.names && ["World", "AttrPrim1", ".y"] != AttrPrim2X.names;
    assert World != AttrPrim1X && World != AttrPrim2X;
  }
}

// The proxy an editor uses to show several prims at once: their names, the
// attributes and relationships they all have, and the proxies for one of
// those across all of them.

module PrimProxies {
  import opened UsdObjects
  import opened ProxyRules
  import opened AttributeProxies
  import opened RelationshipProxies
  import opened VariantSetsProxies

  function AttributeNameLists(prims: seq<UsdPrim>): (r: seq<seq<string>>)
    ensures |r| == |prims| && forall i :: 0 <= i < |prims| ==> r[i] == AttributeNames(prims[i])
  {
    seq(|prims|, i requires 0 <= i < |prims| => AttributeNames(prims[i]))
  }

  function RelationshipNameLists(prims: seq<UsdPrim>): (r: seq<seq<string>>)
    ensures |r| == |prims| && forall i :: 0 <= i < |prims| ==> r[i] == RelationshipNames(prims[i])
  {
    seq(|prims|, i requires 0 <= i < |prims| => RelationshipNames(prims[i]))
  }

  /** `GetAttributeNames`: the first prim's attribute names that every
      other prim has; none for no prims. */
  function SharedAttributeNames(prims: seq<UsdPrim>): (r: seq<string>)
  {
    if prims == [] then [] else Common(AttributeNames(prims[0]), AttributeNameLists(prims[1..]))
  }

  /** `GetRelationshipNames`: the same over relationship names. */
  function SharedRelationshipNames(prims: seq<UsdPrim>): (r: seq<string>)
  {
    if prims == [] then [] else Common(RelationshipNames(prims[0]), RelationshipNameLists(prims[1..]))
  }

  /** An attribute name is listed exactly when every prim has an attribute
      of that name, in the first prim's order. */
  lemma SharedAttributeNamesSpec(prims: seq<UsdPrim>, n: string)
    requires prims != []
    ensures n in SharedAttributeNames(prims) <==> forall i :: 0 <= i < |prims| ==> n in AttributeNames(prims[i])
    ensures IsSubsequence(SharedAttributeNames(prims), AttributeNames(prims[0]))
  {
    assert AttributeNameLists(prims)[1..] == AttributeNameLists(prims[1..]);
    CommonOfAll(AttributeNameLists(prims), n);
  }

  /** A relationship name is listed exactly when every prim has a
      relationship of that name, in the first prim's order. */
  lemma SharedRelationshipNamesSpec(prims: seq<UsdPrim>, n: string)
    requires prims != []
    ensures n in SharedRelationshipNames(prims) <==> forall i :: 0 <= i < |prims| ==> n in RelationshipNames(prims[i])
    ensures IsSubsequence(SharedRelationshipNames(prims), RelationshipNames(prims[0]))
  {
    assert RelationshipNameLists(prims)[1..] == RelationshipNameLists(prims[1..]);
    CommonOfAll(RelationshipNameLists(prims), n);
  }

  /** Every prim has an attribute of that name. */
  predicate AllHaveAttribute(prims: seq<UsdPrim>, name: string)
  {
    forall i :: 0 <= i < |prims| ==> name in AttributeNames(prims[i])
  }

  /** Every prim has a relationship of that name. */
  predicate AllHaveRelationship(prims: seq<UsdPrim>, name: string)
  {
    forall i :: 0 <= i < |prims| ==> name in RelationshipNames(prims[i])
  }

  function AttributesNamed(prims: seq<UsdPrim>, name: string): (r: seq<UsdAttribute>)
    requires AllHaveAttribute(prims, name)
    ensures |r| == |prims| && forall i :: 0 <= i < |prims| ==> r[i] in prims[i].attributes && r[i].obj.name == name
  {
    seq(|prims|, i requires 0 <= i < |prims| => GetAttribute(prims[i], name))
  }

  function RelationshipsNamed(prims: seq<UsdPrim>, name: string): (r: seq<UsdRelationship>)
    requires AllHaveRelationship(prims, name)
    ensures |r| == |prims| && forall i :: 0 <= i < |prims| ==> r[i] in prims[i].relationships && r[i].obj.name == name
  {
    seq(|prims|, i requires 0 <= i < |prims| => GetRelationship(prims[i], name))
  }

  /** A prim whose handle has not expired. */
  function Live(): (keep: UsdPrim -> bool)
    ensures forall p :: keep(p) <==> p.obj.valid
  {
    (p: UsdPrim) => p.obj.valid
  }

  /** `ClearExpired` keeps exactly the live prims, each as often as before,
      in their order. */
  lemma ClearExpiredSpec(prims: seq<UsdPrim>, p: UsdPrim)
    ensures p in Filter(prims, Live()) <==> p in prims && p.obj.valid
    ensures multiset(Filter(prims, Live()))[p] == if p.obj.valid then multiset(prims)[p] else 0
    ensures IsSubsequence(Filter(prims, Live()), prims)
  {
    FilterMembers(prims, Live(), p);
    FilterCounts(prims, Live(), p);
    FilterOrder(prims, Live());
  }

  /** `UsdQt_PrimProxy`: several prims at once. */
  class PrimProxy {
    var prims: seq<UsdPrim>

    constructor(prims: seq<UsdPrim>)
      ensures this.prims == prims
    {
      this.prims := prims;
    }

    /** `GetNames`: one name per prim, in order, repeats kept. */
    method GetNames() returns (names: seq<string>)
      ensures |names| == |prims| && forall i :: 0 <= i < |prims| ==> names[i] == prims[i].obj.name
    {
      names := [];
      for i := 0 to |prims|
        invariant |names| == i && forall j :: 0 <= j < i ==> names[j] == prims[j].obj.name
      {
        names := names + [prims[i].obj.name];
      }
    }

    /** `GetAttributeNames`: see `SharedAttributeNames`. */
    method GetAttributeNames() returns (names: seq<string>)
      ensures names == SharedAttributeNames(prims)
    {
      if |prims| < 1 {
        return [];
      }
      names := Intersect(AttributeNames(prims[0]), AttributeNameLists(prims[1..]));
    }

    /** `GetRelationshipNames`: see `SharedRelationshipNames`. */
    method GetRelationshipNames() returns (names: seq<string>)
      ensures names == SharedRelationshipNames(prims)
    {
      if |prims| < 1 {
        return [];
      }
      names := Intersect(RelationshipNames(prims[0]), RelationshipNameLists(prims[1..]));
    }

    /** `CreateAttributeProxy`: a proxy over every prim's attribute of that
        name, or none if some prim lacks it. */
    method CreateAttributeProxy(name: string) returns (p: AttributeProxy?)
      ensures p == null <==> !AllHaveAttribute(prims, name)
      ensures p != null ==> fresh(p) && p.attributes == AttributesNamed(prims, name)
    {
      var attrs := [];
      for i := 0 to |prims|
        invariant |attrs| == i
        invariant forall j :: 0 <= j < i ==> name in AttributeNames(prims[j]) && attrs[j] == GetAttribute(prims[j], name)
      {
        if name !in AttributeNames(prims[i]) {
          return null;
        }
        attrs := attrs + [GetAttribute(prims[i], name)];
      }
      p := new AttributeProxy(attrs);
    }

    /** `CreateRelationshipProxy`: a proxy over every prim's relationship of
        that name; if some prim lacks it, a proxy over no relationships. */
    method CreateRelationshipProxy(name: string) returns (p: RelationshipProxy)
      ensures fresh(p)
      ensures AllHaveRelationship(prims, name) ==> p.relationships == RelationshipsNamed(prims, name)
      ensures !AllHaveRelationship(prims, name) ==> p.relationships == []
    {
      var rels := [];
      for i := 0 to |prims|
        invariant |rels| == i
        invariant forall j :: 0 <= j < i ==> name in RelationshipNames(prims[j]) && rels[j] == GetRelationship(prims[j], name)
      {
        if name !in RelationshipNames(prims[i]) {
          p := new RelationshipProxy([]);
          return;
        }
        rels := rels + [GetRelationship(prims[i], name)];
      }
      p := new RelationshipProxy(rels);
    }

    /** `CreateVariantSetsProxy`: a proxy over the same prims. */
    method CreateVariantSetsProxy() returns (p: VariantSetsProxy)
      ensures fresh(p) && p.prims == prims
    {
      p := new VariantSetsProxy(prims);
    }

    /** `ClearExpired`: the prims whose handles expired are removed in
        place, the others keep their order. */
    method ClearExpired()
      modifies this
      ensures prims == Filter(old(prims), Live())
    {
      var a := new UsdPrim[|prims|](i requires 0 <= i < |prims| reads this => prims[i]);
      assert a[..|prims|] == prims;
      var end := RemoveIf(a, |prims|, Live());
      prims := a[..end];
    }
  }
}

// The proxy an editor uses to show and edit one relationship across several
// prims at once.

module RelationshipProxies {
  import opened Wrappers
  import opened SdfPaths
  import opened UsdObjects
  import opened ProxyRules

  function TargetFetches(rels: seq<UsdRelationship>): (r: seq<Option<seq<SdfPath>>>)
    ensures |r| == |rels| && forall i :: 0 <= i < |rels| ==> r[i] == RelTargets(rels[i])
  {
    seq(|rels|, i requires 0 <= i < |rels| => RelTargets(rels[i]))
  }

  function ForwardedFetches(rels: seq<UsdRelationship>): (r: seq<Option<seq<SdfPath>>>)
    ensures |r| == |rels| && forall i :: 0 <= i < |rels| ==> r[i] == RelForwardedTargets(rels[i])
  {
    seq(|rels|, i requires 0 <= i < |rels| => RelForwardedTargets(rels[i]))
  }

  /** The output rule of `GetTargets` and `GetForwardedTargets` over the
      relationships' answers: a null output fails untouched; no
      relationships clear it and succeed; a failed fetch clears it and
      fails; otherwise it receives the first list's targets that every other
      list holds. */
  function TargetsInto(fetches: seq<Option<seq<SdfPath>>>, result: Option<seq<SdfPath>>): (r: (Option<seq<SdfPath>>, bool))
  {
    if result.None? then (None, false)
    else match SharedList(fetches)
      case None => (Some([]), false)
      case Some(shared) => (Some(shared), true)
  }

  /** With an output to write, the call succeeds exactly when every fetch
      does, and the targets delivered are those every relationship has, in
      the first one's order. */
  lemma TargetsIntoSpec(fetches: seq<Option<seq<SdfPath>>>, result: seq<SdfPath>, t: SdfPath)
    ensures TargetsInto(fetches, Some(result)).0.Some?
    ensures TargetsInto(fetches, Some(result)).1 <==> forall i :: 0 <= i < |fetches| ==> fetches[i].Some?
    ensures !TargetsInto(fetches, Some(result)).1 ==> TargetsInto(fetches, Some(result)).0 == Some([])
    ensures fetches == [] ==> TargetsInto(fetches, Some(result)) == (Some([]), true)
    ensures fetches != [] && TargetsInto(fetches, Some(result)).1 ==>
      (t in TargetsInto(fetches, Some(result)).0.value <==> forall i :: 0 <= i < |fetches| ==> t in fetches[i].value)
      && IsSubsequence(TargetsInto(fetches, Some(result)).0.value, fetches[0].value)
  {
    if fetches != [] && SharedList(fetches).Some? {
      SharedListSpec(fetches, t);
    }
  }

  /** The relationships after `ClearTargets` on each. */
  function TargetsCleared(rels: seq<UsdRelationship>, removeSpec: bool): (r: seq<UsdRelationship>)
    ensures |r| == |rels| && forall i :: 0 <= i < |rels| ==> r[i] == RelClearTargets(rels[i], removeSpec).0
  {
    seq(|rels|, i requires 0 <= i < |rels| => RelClearTargets(rels[i], removeSpec).0)
  }

  /** Cleared valid relationships share no targets. */
  lemma ClearedHaveNoTargets(rels: seq<UsdRelationship>, removeSpec: bool, result: seq<SdfPath>)
    requires forall i :: 0 <= i < |rels| ==> rels[i].obj.valid
    ensures TargetsInto(TargetFetches(TargetsCleared(rels, removeSpec)), Some(result)) == (Some([]), true)
  {
    var fetches := TargetFetches(TargetsCleared(rels, removeSpec));
    assert forall i :: 0 <= i < |fetches| ==> fetches[i] == Some([]);
    if fetches != [] {
      assert Common(fetches[0].value, Fetched(fetches[1..])) == [];
    }
  }

  /** `UsdQt_RelationshipProxy`: one relationship across several prims. */
  class RelationshipProxy {
    var relationships: seq<UsdRelationship>

    constructor(relationships: seq<UsdRelationship>)
      ensures this.relationships == relationships
    {
      this.relationships := relationships;
    }

    /** `GetTargets`; `result` is the output, `None` for a null one. */
    method GetTargets(result: Option<seq<SdfPath>>) returns (out: Option<seq<SdfPath>>, ok: bool)
      ensures (out, ok) == TargetsInto(TargetFetches(relationships), result)
    {
      if result.None? {
        return None, false;
      }
      var shared := SharedListOf(TargetFetches(relationships));
      if shared.None? {
        return Some([]), false;
      }
      return shared, true;
    }

    /** `GetForwardedTargets`: the same rule over the forwarded targets. */
    method GetForwardedTargets(result: Option<seq<SdfPath>>) returns (out: Option<seq<SdfPath>>, ok: bool)
      ensures (out, ok) == TargetsInto(ForwardedFetches(relationships), result)
    {
      if result.None? {
        return None, false;
      }
      var shared := SharedListOf(ForwardedFetches(relationships));
      if shared.None? {
        return Some([]), false;
      }
      return shared, true;
    }

    /** `ClearTargets`: cleared on every relationship; succeeds if all were
        valid. */
    method ClearTargets(removeSpec: bool) returns (success: bool)
      modifies this
      ensures relationships == TargetsCleared(old(relationships), removeSpec)
      ensures success <==> forall i :: 0 <= i < |old(relationships)| ==> old(relationships)[i].obj.valid
    {
      var written;
      written, success := ApplyAll(relationships, (r: UsdRelationship) => RelClearTargets(r, removeSpec));
      relationships := written;
    }
  }
}

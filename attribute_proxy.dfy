// The proxy an editor uses to show and edit one attribute across several
// prims at once.

module AttributeProxies {
  import opened Wrappers
  import opened UsdObjects
  import opened ProxyRules

  /** The type name of token-valued attributes. */
  const TokenType: string := "token"

  function TypeNames(attrs: seq<UsdAttribute>): (r: seq<string>)
    ensures |r| == |attrs| && forall i :: 0 <= i < |attrs| ==> r[i] == attrs[i].typeName
  {
    seq(|attrs|, i requires 0 <= i < |attrs| => attrs[i].typeName)
  }

  /** What each attribute reads at `time`. */
  function ValuesAt(attrs: seq<UsdAttribute>, time: TimeCode): (r: seq<Option<Value>>)
    ensures |r| == |attrs| && forall i :: 0 <= i < |attrs| ==> r[i] == AttrGet(attrs[i], time)
  {
    seq(|attrs|, i requires 0 <= i < |attrs| => AttrGet(attrs[i], time))
  }

  /** Each attribute's `allowedTokens`, `None` where it has none. */
  function TokenFetches(attrs: seq<UsdAttribute>): (r: seq<Option<seq<string>>>)
    ensures |r| == |attrs| && forall i :: 0 <= i < |attrs| ==> r[i] == AllowedTokens(attrs[i])
  {
    seq(|attrs|, i requires 0 <= i < |attrs| => AllowedTokens(attrs[i]))
  }

  /** `GetTypeName`: the type name every attribute has, or none. */
  function SharedTypeName(attrs: seq<UsdAttribute>): (r: string)
    ensures r != "" ==> forall i :: 0 <= i < |attrs| ==> attrs[i].typeName == r
    ensures attrs != [] && (forall i :: 0 <= i < |attrs| ==> attrs[i].typeName == attrs[0].typeName) ==> r == attrs[0].typeName
  {
    SharedSpec(TypeNames(attrs), "");
    Shared(TypeNames(attrs), "")
  }

  /** `GetAllowedTokens`: none for no attributes, for attributes that do not
      all have the token type, or when one lacks `allowedTokens`; otherwise
      the first attribute's tokens every other one allows. */
  function SharedAllowedTokens(attrs: seq<UsdAttribute>): (r: seq<string>)
  {
    if attrs == [] || SharedTypeName(attrs) != TokenType then []
    else match SharedList(TokenFetches(attrs))
      case None => []
      case Some(tokens) => tokens
  }

  /** A token is offered exactly when the attributes are all token-typed and
      every one allows it; an attribute without `allowedTokens` leaves none. */
  lemma SharedAllowedTokensSpec(attrs: seq<UsdAttribute>, t: string)
    ensures t in SharedAllowedTokens(attrs) <==>
      attrs != [] && SharedTypeName(attrs) == TokenType
      && forall i :: 0 <= i < |attrs| ==> AllowedTokens(attrs[i]).Some? && t in AllowedTokens(attrs[i]).value
    ensures (exists i :: 0 <= i < |attrs| && AllowedTokens(attrs[i]).None?) ==> SharedAllowedTokens(attrs) == []
  {
    var fetches := TokenFetches(attrs);
    if attrs != [] && SharedTypeName(attrs) == TokenType {
      if SharedList(fetches).Some? {
        SharedListSpec(fetches, t);
      } else {
        var k :| 0 <= k < |fetches| && fetches[k].None?;
        assert AllowedTokens(attrs[k]).None?;
      }
    }
    if exists i :: 0 <= i < |attrs| && AllowedTokens(attrs[i]).None? {
      var i :| 0 <= i < |attrs| && AllowedTokens(attrs[i]).None?;
      assert fetches[i].None?;
    }
  }

  /** The literal test `!variability == SdfVariabilityVarying`: the negation
      turns the enumerator into a truth value (true only for `Varying`,
      whose code is 0), which is then compared, as 0 or 1, with the code of
      `Varying`. It holds exactly for the variabilities other than
      `Varying`. */
  function NotVaryingAsWritten(v: Variability): (r: bool)
    ensures r <==> v != Varying
  {
    var negated := if VariabilityCode(v) == 0 then 1 else 0;
    negated == VariabilityCode(Varying)
  }

  /** The attributes after `Set` on each. */
  function ValueSet(attrs: seq<UsdAttribute>, v: Value, time: TimeCode): (r: seq<UsdAttribute>)
    ensures |r| == |attrs| && forall i :: 0 <= i < |attrs| ==> r[i] == AttrSet(attrs[i], v, time).0
  {
    seq(|attrs|, i requires 0 <= i < |attrs| => AttrSet(attrs[i], v, time).0)
  }

  /** The attributes after `Clear` on each. */
  function ValueCleared(attrs: seq<UsdAttribute>): (r: seq<UsdAttribute>)
    ensures |r| == |attrs| && forall i :: 0 <= i < |attrs| ==> r[i] == AttrClear(attrs[i]).0
  {
    seq(|attrs|, i requires 0 <= i < |attrs| => AttrClear(attrs[i]).0)
  }

  /** The attributes after `ClearAtTime` on each. */
  function ValueClearedAt(attrs: seq<UsdAttribute>, time: TimeCode): (r: seq<UsdAttribute>)
    ensures |r| == |attrs| && forall i :: 0 <= i < |attrs| ==> r[i] == AttrClearAtTime(attrs[i], time).0
  {
    seq(|attrs|, i requires 0 <= i < |attrs| => AttrClearAtTime(attrs[i], time).0)
  }

  /** The attributes after `Block` on each. */
  function ValueBlocked(attrs: seq<UsdAttribute>): (r: seq<UsdAttribute>)
    ensures |r| == |attrs| && forall i :: 0 <= i < |attrs| ==> r[i] == AttrBlock(attrs[i])
  {
    seq(|attrs|, i requires 0 <= i < |attrs| => AttrBlock(attrs[i]))
  }

  /** A value every attribute accepts reads back, at the time it was set,
      as the shared value. */
  lemma SetThenGet(attrs: seq<UsdAttribute>, v: Value, time: TimeCode)
    requires attrs != [] && forall i :: 0 <= i < |attrs| ==> AttrSet(attrs[i], v, time).1
    ensures SharedFetched(ValuesAt(ValueSet(attrs, v, time), time), EmptyValue) == (v, true)
  {
    var vals := ValuesAt(ValueSet(attrs, v, time), time);
    assert forall i :: 0 <= i < |vals| ==> vals[i] == Some(v);
  }

  /** Blocked or cleared, two or more attributes read as no value and
      failure. */
  lemma BlockOrClearThenGet(attrs: seq<UsdAttribute>, time: TimeCode)
    requires |attrs| > 1
    ensures SharedFetched(ValuesAt(ValueBlocked(attrs), time), EmptyValue) == (EmptyValue, false)
    ensures SharedFetched(ValuesAt(ValueCleared(attrs), time), EmptyValue) == (EmptyValue, false)
  {
    assert ValuesAt(ValueBlocked(attrs), time)[1] == None;
    assert ValuesAt(ValueCleared(attrs), time)[1] == None;
  }

  /** `UsdQt_AttributeProxy`: one attribute across several prims. */
  class AttributeProxy {
    var attributes: seq<UsdAttribute>

    constructor(attributes: seq<UsdAttribute>)
      ensures this.attributes == attributes
    {
      this.attributes := attributes;
    }

    /** The objects the shared object queries are asked of. */
    function Objects(): (r: seq<UsdObject>)
      reads this
      ensures |r| == |attributes| && forall i :: 0 <= i < |attributes| ==> r[i] == attributes[i].obj
    {
      seq(|attributes|, i requires 0 <= i < |attributes| reads this => attributes[i].obj)
    }

    /** `GetTypeName`. */
    method GetTypeName() returns (typeName: string)
      ensures typeName == SharedTypeName(attributes)
    {
      typeName := SharedOf(TypeNames(attributes), "");
    }

    /** `GetVariability`: uniform for no attributes or when some attribute
        is not varying; varying otherwise. */
    method GetVariability() returns (v: Variability)
      ensures v == Varying <==> attributes != [] && forall i :: 0 <= i < |attributes| ==> attributes[i].variability == Varying
      ensures v != Varying ==> v == Uniform
    {
      if |attributes| < 1 {
        return Uniform;
      }
      for i := 0 to |attributes|
        invariant forall j :: 0 <= j < i ==> attributes[j].variability == Varying
      {
        if NotVaryingAsWritten(attributes[i].variability) {
          return Uniform;
        }
      }
      return Varying;
    }

    /** `GetAllowedTokens`: see `SharedAllowedTokens`. */
    method GetAllowedTokens() returns (tokens: seq<string>)
      ensures tokens == SharedAllowedTokens(attributes)
    {
      if |attributes| < 1 {
        return [];
      }
      var typeName := GetTypeName();
      if typeName != TokenType {
        return [];
      }
      var shared := SharedListOf(TokenFetches(attributes));
      tokens := if shared.Some? then shared.value else [];
    }

    /** `Get`: the shared-value rule over the values read at `time`. */
    method Get(time: TimeCode) returns (result: Value, ok: bool)
      ensures (result, ok) == SharedFetched(ValuesAt(attributes, time), EmptyValue)
    {
      result, ok := SharedFetchedOf(ValuesAt(attributes, time), EmptyValue);
    }

    /** `Set`: written to every attribute; succeeds if every attribute is
        valid and of the value's type. */
    method Set(value: Value, time: TimeCode) returns (success: bool)
      modifies this
      ensures attributes == ValueSet(old(attributes), value, time)
      ensures success <==> forall i :: 0 <= i < |old(attributes)| ==>
        old(attributes)[i].obj.valid && Writable(value) && TypeOf(value) == old(attributes)[i].typeName
    {
      var written;
      written, success := ApplyAll(attributes, (a: UsdAttribute) => AttrSet(a, value, time));
      attributes := written;
    }

    /** `Clear`: cleared on every attribute; succeeds if all were valid. */
    method Clear() returns (success: bool)
      modifies this
      ensures attributes == ValueCleared(old(attributes))
      ensures success <==> forall i :: 0 <= i < |old(attributes)| ==> old(attributes)[i].obj.valid
    {
      var written;
      written, success := ApplyAll(attributes, (a: UsdAttribute) => AttrClear(a));
      attributes := written;
    }

    /** `ClearAtTime`: cleared at `time` on every attribute. */
    method ClearAtTime(time: TimeCode) returns (success: bool)
      modifies this
      ensures attributes == ValueClearedAt(old(attributes), time)
      ensures success <==> forall i :: 0 <= i < |old(attributes)| ==> old(attributes)[i].obj.valid
    {
      var written;
      written, success := ApplyAll(attributes, (a: UsdAttribute) => AttrClearAtTime(a, time));
      attributes := written;
    }

    /** `Block`: blocked on every attribute. */
    method Block()
      modifies this
      ensures attributes == ValueBlocked(old(attributes))
    {
      var blocked := [];
      for i := 0 to |attributes|
        invariant |blocked| == i
        invariant forall j :: 0 <= j < i ==> blocked[j] == AttrBlock(attributes[j])
      {
        blocked := blocked + [AttrBlock(attributes[i])];
      }
      attributes := blocked;
    }
  }
}

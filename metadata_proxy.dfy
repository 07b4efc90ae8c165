// The proxies an editor uses to show and edit one metadata field, or one key
// of a dictionary-valued field, across several objects at once.

module MetadataProxies {
  import opened Wrappers
  import opened UsdObjects
  import opened ProxyRules

  /** The type name of dictionary-valued fields. */
  const DictionaryType: string := "VtDictionary"

  /** What each object answers for the field. */
  function MetadataValues(objects: seq<UsdObject>, field: string): (r: seq<Option<Value>>)
    ensures |r| == |objects| && forall i :: 0 <= i < |objects| ==> r[i] == GetMetadata(objects[i], field)
  {
    seq(|objects|, i requires 0 <= i < |objects| => GetMetadata(objects[i], field))
  }

  /** What each object answers for one key of the field. */
  function DictKeyValues(objects: seq<UsdObject>, field: string, key: string): (r: seq<Option<Value>>)
    ensures |r| == |objects| && forall i :: 0 <= i < |objects| ==> r[i] == GetMetadataByDictKey(objects[i], field, key)
  {
    seq(|objects|, i requires 0 <= i < |objects| => GetMetadataByDictKey(objects[i], field, key))
  }

  /** The objects after `SetMetadata` on each. */
  function MetadataSet(objects: seq<UsdObject>, field: string, v: Value): (r: seq<UsdObject>)
    ensures |r| == |objects| && forall i :: 0 <= i < |objects| ==> r[i] == SetMetadata(objects[i], field, v).0
  {
    seq(|objects|, i requires 0 <= i < |objects| => SetMetadata(objects[i], field, v).0)
  }

  /** The objects after `ClearMetadata` on each. */
  function MetadataCleared(objects: seq<UsdObject>, field: string): (r: seq<UsdObject>)
    ensures |r| == |objects| && forall i :: 0 <= i < |objects| ==> r[i] == ClearMetadata(objects[i], field).0
  {
    seq(|objects|, i requires 0 <= i < |objects| => ClearMetadata(objects[i], field).0)
  }

  /** The keys each object's dictionary holds. */
  function KeyLists(objects: seq<UsdObject>, field: string): (r: seq<seq<string>>)
    ensures |r| == |objects| && forall i :: 0 <= i < |objects| ==> r[i] == DictKeys(objects[i], field)
  {
    seq(|objects|, i requires 0 <= i < |objects| => DictKeys(objects[i], field))
  }

  /** `GetDictKeys`: nothing for a field that is not a dictionary, for no
      objects, or when the first object holds no dictionary; otherwise the
      first dictionary's keys that every other object's dictionary holds. */
  function SharedDictKeys(objects: seq<UsdObject>, field: string, fieldType: string): (r: seq<string>)
  {
    if fieldType != DictionaryType || objects == [] || DictOf(objects[0], field).None? then []
    else Common(DictKeys(objects[0], field), KeyLists(objects[1..], field))
  }

  /** A key is listed exactly when every object's dictionary holds it, and
      the keys come in the first dictionary's order. */
  lemma SharedDictKeysSpec(objects: seq<UsdObject>, field: string, fieldType: string, key: string)
    requires fieldType == DictionaryType && objects != []
    ensures key in SharedDictKeys(objects, field, fieldType) <==> forall i :: 0 <= i < |objects| ==> HasMetadataDictKey(objects[i], field, key)
    ensures IsSubsequence(SharedDictKeys(objects, field, fieldType), DictKeys(objects[0], field))
  {
    var others := KeyLists(objects[1..], field);
    if DictOf(objects[0], field).Some? {
      CommonOrder(DictKeys(objects[0], field), others);
      if forall i :: 1 <= i < |objects| ==> HasMetadataDictKey(objects[i], field, key) {
        assert InAll(key, others) by {
          forall k | 0 <= k < |others|
            ensures key in others[k]
          {
            assert objects[1..][k] == objects[k + 1];
          }
        }
      }
      if InAll(key, others) {
        forall i | 1 <= i < |objects|
          ensures HasMetadataDictKey(objects[i], field, key)
        {
          assert others[i - 1] == DictKeys(objects[i], field);
        }
      }
    } else {
      assert !HasMetadataDictKey(objects[0], field, key);
    }
  }

  /** A value every object lets be set reads back from all of them. */
  lemma SetValueThenGetValue(objects: seq<UsdObject>, field: string, v: Value)
    requires objects != [] && forall i :: 0 <= i < |objects| ==> objects[i].valid
    ensures SharedFetched(MetadataValues(MetadataSet(objects, field, v), field), EmptyValue) == (v, true)
  {
    var vals := MetadataValues(MetadataSet(objects, field, v), field);
    assert forall i :: 0 <= i < |vals| ==> vals[i] == Some(v);
  }

  /** After clearing, two or more objects read as a disagreement: the empty
      value and failure. */
  lemma ClearValueThenGetValue(objects: seq<UsdObject>, field: string)
    requires |objects| > 1
    ensures SharedFetched(MetadataValues(MetadataCleared(objects, field), field), EmptyValue) == (EmptyValue, false)
  {
    var vals := MetadataValues(MetadataCleared(objects, field), field);
    assert vals[1] == None;
  }

  /** `UsdQt_MetadataProxy`: one metadata field across several objects. */
  class MetadataProxy {
    var objects: seq<UsdObject>
    const field: string
    /** `GetType`: the type of the schema's fallback for the field. */
    const fieldType: string

    constructor(objects: seq<UsdObject>, field: string, fieldType: string)
      ensures this.objects == objects && this.field == field && this.fieldType == fieldType
    {
      this.objects := objects;
      this.field := field;
      this.fieldType := fieldType;
    }

    /** `GetValue`: the empty value and success for no objects; otherwise
        the first object's value if every other object has it, else the
        empty value and failure. */
    method GetValue() returns (result: Value, ok: bool)
      ensures (result, ok) == SharedFetched(MetadataValues(objects, field), EmptyValue)
    {
      result, ok := SharedFetchedOf(MetadataValues(objects, field), EmptyValue);
    }

    /** `SetValue`: set on every object; succeeds if every set did. */
    method SetValue(value: Value) returns (success: bool)
      modifies this
      ensures objects == MetadataSet(old(objects), field, value)
      ensures success <==> forall i :: 0 <= i < |old(objects)| ==> old(objects)[i].valid
    {
      var f := field;
      var written;
      written, success := ApplyAll(objects, (o: UsdObject) => SetMetadata(o, f, value));
      objects := written;
    }

    /** `ClearValue`: cleared on every object; succeeds if every clear did. */
    method ClearValue() returns (success: bool)
      modifies this
      ensures objects == MetadataCleared(old(objects), field)
      ensures success <==> forall i :: 0 <= i < |old(objects)| ==> old(objects)[i].valid
    {
      var f := field;
      var written;
      written, success := ApplyAll(objects, (o: UsdObject) => ClearMetadata(o, f));
      objects := written;
    }

    /** `GetDictKeys`: the keys every object's dictionary holds, in the first
        one's order. A field of another type is a coding error answered with
        no keys. */
    method GetDictKeys() returns (keys: seq<string>)
      ensures keys == SharedDictKeys(objects, field, fieldType)
    {
      if fieldType != DictionaryType {
        return [];
      }
      if |objects| == 0 {
        return [];
      }
      var first := DictOf(objects[0], field);
      if first.None? {
        return [];
      }
      keys := Intersect(DictKeys(objects[0], field), KeyLists(objects[1..], field));
    }

    /** `CreateMetadataDictKeyProxy`: a proxy for one key, or none unless the
        field is a dictionary and every object holds the key. */
    method CreateMetadataDictKeyProxy(key: string) returns (p: MetadataDictKeyProxy?)
      ensures p == null <==> fieldType != DictionaryType || exists i :: 0 <= i < |objects| && !HasMetadataDictKey(objects[i], field, key)
      ensures p != null ==> fresh(p) && p.objects == objects && p.field == field && p.key == key
    {
      if fieldType != DictionaryType {
        return null;
      }
      for i := 0 to |objects|
        invariant forall j :: 0 <= j < i ==> HasMetadataDictKey(objects[j], field, key)
      {
        if !HasMetadataDictKey(objects[i], field, key) {
          return null;
        }
      }
      p := new MetadataDictKeyProxy(objects, field, key);
    }
  }

  /** The objects after `SetMetadataByDictKey` on each. */
  function DictKeySet(objects: seq<UsdObject>, field: string, key: string, v: Value): (r: seq<UsdObject>)
    ensures |r| == |objects| && forall i :: 0 <= i < |objects| ==> r[i] == SetMetadataByDictKey(objects[i], field, key, v).0
  {
    seq(|objects|, i requires 0 <= i < |objects| => SetMetadataByDictKey(objects[i], field, key, v).0)
  }

  /** The objects after `ClearMetadataByDictKey` on each. */
  function DictKeyCleared(objects: seq<UsdObject>, field: string, key: string): (r: seq<UsdObject>)
    ensures |r| == |objects| && forall i :: 0 <= i < |objects| ==> r[i] == ClearMetadataByDictKey(objects[i], field, key).0
  {
    seq(|objects|, i requires 0 <= i < |objects| => ClearMetadataByDictKey(objects[i], field, key).0)
  }

  /** The dictionary-key proxy's `GetType`: the type of the shared value, or
      none when the values cannot be read as one. */
  function DictKeyType(objects: seq<UsdObject>, field: string, key: string): (r: string)
  {
    var shared := SharedFetched(DictKeyValues(objects, field, key), EmptyValue);
    if shared.1 then TypeOf(shared.0) else ""
  }

  /** Two objects holding different values for the key leave no type. */
  lemma DictKeyTypeOfDisagreement(objects: seq<UsdObject>, field: string, key: string, i: nat, j: nat)
    requires i < |objects| && j < |objects|
    requires GetMetadataByDictKey(objects[i], field, key).Some? && GetMetadataByDictKey(objects[j], field, key).Some?
    requires GetMetadataByDictKey(objects[i], field, key) != GetMetadataByDictKey(objects[j], field, key)
    ensures DictKeyType(objects, field, key) == ""
  {
    SharedFetchedDisagree(DictKeyValues(objects, field, key), EmptyValue, i, j);
  }

  /** A value every object lets be set under the key reads back from all of
      them. */
  lemma SetDictKeyThenGetValue(objects: seq<UsdObject>, field: string, key: string, v: Value)
    requires objects != []
    requires forall i :: 0 <= i < |objects| ==> SetMetadataByDictKey(objects[i], field, key, v).1
    ensures SharedFetched(DictKeyValues(DictKeySet(objects, field, key, v), field, key), EmptyValue) == (v, true)
  {
    var vals := DictKeyValues(DictKeySet(objects, field, key, v), field, key);
    assert forall i :: 0 <= i < |vals| ==> vals[i] == Some(v);
  }

  /** `UsdQt_MetadataDictKeyProxy`: one key of a dictionary field across
      several objects. */
  class MetadataDictKeyProxy {
    var objects: seq<UsdObject>
    /** `GetDictName`. */
    const field: string
    /** `GetEntryName`. */
    const key: string

    constructor(objects: seq<UsdObject>, field: string, key: string)
      ensures this.objects == objects && this.field == field && this.key == key
    {
      this.objects := objects;
      this.field := field;
      this.key := key;
    }

    /** `GetValue`: the shared-value rule over the key's values. */
    method GetValue() returns (result: Value, ok: bool)
      ensures (result, ok) == SharedFetched(DictKeyValues(objects, field, key), EmptyValue)
    {
      result, ok := SharedFetchedOf(DictKeyValues(objects, field, key), EmptyValue);
    }

    /** `SetValue`: set under the key on every object. */
    method SetValue(value: Value) returns (success: bool)
      modifies this
      ensures objects == DictKeySet(old(objects), field, key, value)
      ensures success <==> forall i :: 0 <= i < |old(objects)| ==> SetMetadataByDictKey(old(objects)[i], field, key, value).1
    {
      var f, k := field, key;
      var written;
      written, success := ApplyAll(objects, (o: UsdObject) => SetMetadataByDictKey(o, f, k, value));
      objects := written;
    }

    /** `ClearValue`: the key removed on every object. */
    method ClearValue() returns (success: bool)
      modifies this
      ensures objects == DictKeyCleared(old(objects), field, key)
      ensures success <==> forall i :: 0 <= i < |old(objects)| ==> old(objects)[i].valid
    {
      var f, k := field, key;
      var written;
      written, success := ApplyAll(objects, (o: UsdObject) => ClearMetadataByDictKey(o, f, k));
      objects := written;
    }

    /** `GetType`: the type of the value `GetValue` reads, if it succeeds. */
    method GetType() returns (t: string)
      ensures t == DictKeyType(objects, field, key)
    {
      var v, ok := GetValue();
      t := if ok then TypeOf(v) else "";
    }
  }
}

// The USD objects the opinion proxies stand for, as records of the values
// the proxies read and the effect of the writes they make. Value resolution,
// composition and the schema registry are not modelled: each record holds
// the answers its queries give.

module UsdObjects {
  import opened Wrappers
  import opened SdfPaths

  /** A value held by a metadata field or an attribute. `EmptyValue` is the
      empty value, `Blocked` the value-block sentinel; other values are only
      compared for equality and asked for their type. */
  datatype Value =
    | EmptyValue
    | Blocked
    | Scalar(typeName: string, data: string)
    | TokenArray(tokens: seq<string>)
    | Dictionary(entries: seq<DictEntry>)

  /** One key of a dictionary value and what it holds. */
  datatype DictEntry = DictEntry(key: string, value: Value)

  /** The type name of a value; the empty and blocked values have none. */
  function TypeOf(v: Value): (r: string)
    ensures v.Scalar? ==> r == v.typeName
    ensures v.EmptyValue? || v.Blocked? ==> r == ""
  {
    match v
    case EmptyValue => ""
    case Blocked => ""
    case Scalar(t, _) => t
    case TokenArray(_) => "token[]"
    case Dictionary(_) => "dictionary"
  }

  /** What every object answers: its path and name, whether it is still
      valid, its authored metadata, the layers holding an opinion on it and
      whether it is defined. */
  datatype UsdObject = UsdObject(
    path: SdfPath,
    name: string,
    valid: bool,
    metadata: map<string, Value>,
    authoredAt: set<string>,
    defined: bool)

  // ------------------------------------------------------------- metadata

  /** `GetMetadata`: fails on an invalid object or an unset field. */
  function GetMetadata(o: UsdObject, field: string): (r: Option<Value>)
    ensures r.Some? <==> o.valid && field in o.metadata
  {
    if o.valid && field in o.metadata then Some(o.metadata[field]) else None
  }

  /** `SetMetadata`: fails, changing nothing, on an invalid object. */
  function SetMetadata(o: UsdObject, field: string, v: Value): (r: (UsdObject, bool))
    ensures r.1 <==> o.valid
    ensures r.1 ==> GetMetadata(r.0, field) == Some(v)
    ensures forall f :: f != field ==> GetMetadata(r.0, f) == GetMetadata(o, f)
  {
    if o.valid then (o.(metadata := o.metadata[field := v]), true) else (o, false)
  }

  /** `ClearMetadata`: fails, changing nothing, on an invalid object. */
  function ClearMetadata(o: UsdObject, field: string): (r: (UsdObject, bool))
    ensures r.1 <==> o.valid
    ensures GetMetadata(r.0, field) == None
    ensures forall f :: f != field ==> GetMetadata(r.0, f) == GetMetadata(o, f)
  {
    if o.valid then (o.(metadata := o.metadata - {field}), true) else (o, false)
  }

  /** The entries of the dictionary a field holds, if it holds one. */
  function DictOf(o: UsdObject, field: string): (r: Option<seq<DictEntry>>)
    ensures r.Some? <==> GetMetadata(o, field).Some? && GetMetadata(o, field).value.Dictionary?
  {
    match GetMetadata(o, field)
    case Some(Dictionary(entries)) => Some(entries)
    case _ => None
  }

  /** The keys of a dictionary, in entry order. */
  function Keys(entries: seq<DictEntry>): (r: seq<string>)
    ensures |r| == |entries| && forall i :: 0 <= i < |entries| ==> r[i] == entries[i].key
  {
    if entries == [] then [] else [entries[0].key] + Keys(entries[1..])
  }

  /** The keys of the dictionary a field holds; none when it holds none. */
  function DictKeys(o: UsdObject, field: string): (r: seq<string>)
  {
    if DictOf(o, field).Some? then Keys(DictOf(o, field).value) else []
  }

  /** The value of the first entry under `key`. */
  function Lookup(entries: seq<DictEntry>, key: string): (r: Option<Value>)
    ensures r.Some? <==> key in Keys(entries)
  {
    if entries == [] then None
    else if entries[0].key == key then Some(entries[0].value)
    else Lookup(entries[1..], key)
  }

  /** `HasMetadataDictKey`. */
  predicate HasMetadataDictKey(o: UsdObject, field: string, key: string)
  {
    key in DictKeys(o, field)
  }

  /** `GetMetadataByDictKey`: fails unless the field holds a dictionary with
      that key. */
  function GetMetadataByDictKey(o: UsdObject, field: string, key: string): (r: Option<Value>)
    ensures r.Some? <==> HasMetadataDictKey(o, field, key)
  {
    if DictOf(o, field).Some? then Lookup(DictOf(o, field).value, key) else None
  }

  /** The dictionary with `key` holding `v`: its entry is replaced in place,
      or a new one is added at the end. */
  function Put(entries: seq<DictEntry>, key: string, v: Value): (r: seq<DictEntry>)
    ensures Lookup(r, key) == Some(v)
    ensures forall k :: k != key ==> Lookup(r, k) == Lookup(entries, k)
  {
    if entries == [] then [DictEntry(key, v)]
    else if entries[0].key == key then [DictEntry(key, v)] + entries[1..]
    else [entries[0]] + Put(entries[1..], key, v)
  }

  /** The dictionary without any entry under `key`. */
  function Remove(entries: seq<DictEntry>, key: string): (r: seq<DictEntry>)
    ensures Lookup(r, key) == None
    ensures forall k :: k != key ==> Lookup(r, k) == Lookup(entries, k)
  {
    if entries == [] then []
    else if entries[0].key == key then Remove(entries[1..], key)
    else [entries[0]] + Remove(entries[1..], key)
  }

  /** `SetMetadataByDictKey`: fails on an invalid object and on a field that
      holds something other than a dictionary; an unset field becomes a
      dictionary with the one entry. */
  function SetMetadataByDictKey(o: UsdObject, field: string, key: string, v: Value): (r: (UsdObject, bool))
    ensures r.1 <==> o.valid && (field !in o.metadata || o.metadata[field].Dictionary?)
    ensures r.1 ==> GetMetadataByDictKey(r.0, field, key) == Some(v)
    ensures !r.1 ==> r.0 == o
  {
    if !o.valid then (o, false)
    else if field !in o.metadata then (o.(metadata := o.metadata[field := Dictionary(Put([], key, v))]), true)
    else match o.metadata[field]
      case Dictionary(entries) => (o.(metadata := o.metadata[field := Dictionary(Put(entries, key, v))]), true)
      case _ => (o, false)
  }

  /** `ClearMetadataByDictKey`: fails, changing nothing, on an invalid
      object; removes the key when the field holds a dictionary. */
  function ClearMetadataByDictKey(o: UsdObject, field: string, key: string): (r: (UsdObject, bool))
    ensures r.1 <==> o.valid
    ensures GetMetadataByDictKey(r.0, field, key) == None
  {
    if !o.valid then (o, false)
    else match DictOf(o, field)
      case Some(entries) => (o.(metadata := o.metadata[field := Dictionary(Remove(entries, key))]), true)
      case None => (o, true)
  }

  // ----------------------------------------------------------- attributes

  /** How an attribute's value may vary; the codes are the enumerators'. */
  datatype Variability = Varying | Uniform | Config

  function VariabilityCode(v: Variability): (r: int)
    ensures v == Varying <==> r == 0
  {
    match v
    case Varying => 0
    case Uniform => 1
    case Config => 2
  }

  /** A time to read or write at: the default time, or a frame. */
  datatype TimeCode = DefaultTime | AtTime(frame: int)

  /** An attribute: the object, its declared type name and variability, its
      default value and its time samples. */
  datatype UsdAttribute = UsdAttribute(
    obj: UsdObject,
    typeName: string,
    variability: Variability,
    defaultValue: Option<Value>,
    samples: map<int, Value>)

  /** The opinion a read at `time` finds: the sample at that frame, or else
      the default value. */
  function Opinion(a: UsdAttribute, time: TimeCode): (r: Option<Value>)
  {
    if time.AtTime? && time.frame in a.samples then Some(a.samples[time.frame]) else a.defaultValue
  }

  /** `UsdAttribute::Get`: fails on an invalid attribute, with no opinion or
      with a blocked one. */
  function AttrGet(a: UsdAttribute, time: TimeCode): (r: Option<Value>)
    ensures r.Some? ==> a.obj.valid && r.value != Blocked
    ensures r.None? <==> !a.obj.valid || Opinion(a, time).None? || Opinion(a, time) == Some(Blocked)
  {
    if a.obj.valid && Opinion(a, time).Some? && Opinion(a, time).value != Blocked then Opinion(a, time) else None
  }

  /** A value that can be written: neither empty nor a block. */
  predicate Writable(v: Value)
  {
    !v.EmptyValue? && !v.Blocked?
  }

  /** `UsdAttribute::Set`: fails, changing nothing, on an invalid attribute
      or a value of another type than the attribute's. */
  function AttrSet(a: UsdAttribute, v: Value, time: TimeCode): (r: (UsdAttribute, bool))
    ensures r.1 <==> a.obj.valid && Writable(v) && TypeOf(v) == a.typeName
    ensures r.1 ==> AttrGet(r.0, time) == Some(v)
    ensures !r.1 ==> r.0 == a
  {
    if !(a.obj.valid && Writable(v) && TypeOf(v) == a.typeName) then (a, false)
    else match time
      case DefaultTime => (a.(defaultValue := Some(v)), true)
      case AtTime(t) => (a.(samples := a.samples[t := v]), true)
  }

  /** `UsdAttribute::Clear`: removes the default and every sample. */
  function AttrClear(a: UsdAttribute): (r: (UsdAttribute, bool))
    ensures r.1 <==> a.obj.valid
    ensures forall t :: AttrGet(r.0, t) == None
  {
    if a.obj.valid then (a.(defaultValue := None, samples := map[]), true) else (a, false)
  }

  /** `UsdAttribute::ClearAtTime`: removes the default or the one sample. */
  function AttrClearAtTime(a: UsdAttribute, time: TimeCode): (r: (UsdAttribute, bool))
    ensures r.1 <==> a.obj.valid
    ensures time.DefaultTime? ==> AttrGet(r.0, time) == None
    ensures time.AtTime? && r.1 ==> time.frame !in r.0.samples
  {
    if !a.obj.valid then (a, false)
    else match time
      case DefaultTime => (a.(defaultValue := None), true)
      case AtTime(t) => (a.(samples := a.samples - {t}), true)
  }

  /** `UsdAttribute::Block`: the samples go and the default becomes a
      block, so no read finds a value. */
  function AttrBlock(a: UsdAttribute): (r: UsdAttribute)
    ensures forall t :: AttrGet(r, t) == None
    ensures r.typeName == a.typeName
  {
    if a.obj.valid then a.(defaultValue := Some(Blocked), samples := map[]) else a
  }

  /** The attribute's `allowedTokens` metadata, if it holds a token array. */
  function AllowedTokens(a: UsdAttribute): (r: Option<seq<string>>)
    ensures r.Some? <==> GetMetadata(a.obj, "allowedTokens").Some? && GetMetadata(a.obj, "allowedTokens").value.TokenArray?
  {
    match GetMetadata(a.obj, "allowedTokens")
    case Some(TokenArray(tokens)) => Some(tokens)
    case _ => None
  }

  // -------------------------------------------------------- relationships

  /** A relationship: the object and its resolved targets and forwarded
      targets (`None` where resolving fails). */
  datatype UsdRelationship = UsdRelationship(
    obj: UsdObject,
    targets: Option<seq<SdfPath>>,
    forwardedTargets: Option<seq<SdfPath>>)

  /** `GetTargets`: fails on an invalid relationship. */
  function RelTargets(r: UsdRelationship): (t: Option<seq<SdfPath>>)
    ensures t.Some? ==> r.obj.valid
  {
    if r.obj.valid then r.targets else None
  }

  /** `GetForwardedTargets`: fails on an invalid relationship. */
  function RelForwardedTargets(r: UsdRelationship): (t: Option<seq<SdfPath>>)
    ensures t.Some? ==> r.obj.valid
  {
    if r.obj.valid then r.forwardedTargets else None
  }

  /** `ClearTargets`: leaves no targets to read. */
  function RelClearTargets(r: UsdRelationship, removeSpec: bool): (c: (UsdRelationship, bool))
    ensures c.1 <==> r.obj.valid
    ensures c.1 ==> RelTargets(c.0) == Some([]) && RelForwardedTargets(c.0) == Some([])
  {
    if r.obj.valid then (r.(targets := Some([]), forwardedTargets := Some([])), true) else (r, false)
  }

  // --------------------------------------------------------- variant sets

  /** A variant set of a prim: its name, variants and current selection. */
  datatype UsdVariantSet = UsdVariantSet(name: string, variantNames: seq<string>, selection: string, valid: bool)

  /** `SetVariantSelection`. */
  function SetSelection(s: UsdVariantSet, variant: string): (r: (UsdVariantSet, bool))
    ensures r.1 <==> s.valid
    ensures r.1 ==> r.0.selection == variant
    ensures r.0.name == s.name && r.0.valid == s.valid
  {
    if s.valid then (s.(selection := variant), true) else (s, false)
  }

  /** `ClearVariantSelection`: the selection reads back empty. */
  function ClearSelection(s: UsdVariantSet): (r: (UsdVariantSet, bool))
    ensures r.1 <==> s.valid
    ensures r.1 ==> r.0.selection == ""
    ensures r.0.name == s.name && r.0.valid == s.valid
  {
    if s.valid then (s.(selection := ""), true) else (s, false)
  }

  /** `AppendVariant`: the variant is listed afterwards, once. */
  function AppendVariant(s: UsdVariantSet, variant: string): (r: (UsdVariantSet, bool))
    ensures r.1 <==> s.valid
    ensures r.1 ==> variant in r.0.variantNames
    ensures forall n :: n in s.variantNames ==> n in r.0.variantNames
  {
    if !s.valid then (s, false)
    else if variant in s.variantNames then (s, true)
    else (s.(variantNames := s.variantNames + [variant]), true)
  }

  // ---------------------------------------------------------------- prims

  /** A prim: the object, its variant sets, attributes and relationships. */
  datatype UsdPrim = UsdPrim(
    obj: UsdObject,
    variantSets: seq<UsdVariantSet>,
    attributes: seq<UsdAttribute>,
    relationships: seq<UsdRelationship>)

  /** The first position of `x` in `s`, or `|s|`. */
  function IndexOf(s: seq<string>, x: string): (r: nat)
    ensures r <= |s| && (r < |s| <==> x in s)
    ensures r < |s| ==> s[r] == x
  {
    if s == [] then 0 else if s[0] == x then 0 else 1 + IndexOf(s[1..], x)
  }

  function VariantSetNames(p: UsdPrim): (r: seq<string>)
    ensures |r| == |p.variantSets| && forall i :: 0 <= i < |r| ==> r[i] == p.variantSets[i].name
  {
    seq(|p.variantSets|, i requires 0 <= i < |p.variantSets| => p.variantSets[i].name)
  }

  function AttributeNames(p: UsdPrim): (r: seq<string>)
    ensures |r| == |p.attributes| && forall i :: 0 <= i < |r| ==> r[i] == p.attributes[i].obj.name
  {
    seq(|p.attributes|, i requires 0 <= i < |p.attributes| => p.attributes[i].obj.name)
  }

  function RelationshipNames(p: UsdPrim): (r: seq<string>)
    ensures |r| == |p.relationships| && forall i :: 0 <= i < |r| ==> r[i] == p.relationships[i].obj.name
  {
    seq(|p.relationships|, i requires 0 <= i < |p.relationships| => p.relationships[i].obj.name)
  }

  /** `GetVariantSet`: the prim's set of that name. */
  function GetVariantSet(p: UsdPrim, name: string): (r: UsdVariantSet)
    requires name in VariantSetNames(p)
    ensures r in p.variantSets && r.name == name
  {
    p.variantSets[IndexOf(VariantSetNames(p), name)]
  }

  /** `GetAttribute`: the prim's attribute of that name. */
  function GetAttribute(p: UsdPrim, name: string): (r: UsdAttribute)
    requires name in AttributeNames(p)
    ensures r in p.attributes && r.obj.name == name
  {
    p.attributes[IndexOf(AttributeNames(p), name)]
  }

  /** `GetRelationship`: the prim's relationship of that name. */
  function GetRelationship(p: UsdPrim, name: string): (r: UsdRelationship)
    requires name in RelationshipNames(p)
    ensures r in p.relationships && r.obj.name == name
  {
    p.relationships[IndexOf(RelationshipNames(p), name)]
  }

  /** `AppendVariantSet` on a valid prim: the set exists afterwards, and
      no set is lost. */
  function AppendVariantSet(p: UsdPrim, name: string): (r: UsdPrim)
    ensures p.obj.valid ==> name in VariantSetNames(r)
    ensures forall n :: n in VariantSetNames(p) ==> n in VariantSetNames(r)
    ensures r.obj == p.obj
  {
    if !p.obj.valid || name in VariantSetNames(p) then p
    else
      var r := p.(variantSets := p.variantSets + [UsdVariantSet(name, [], "", true)]);
      assert VariantSetNames(r) == VariantSetNames(p) + [name];
      r
  }
}

// An abstract model of the data held by one Sdf layer, as far as the undo
// machinery observes it: specs addressed by path, each with a spec type and a
// set of fields.  Field values are kept normalised: an empty value, an empty
// dictionary, an empty time-sample map or an empty children list is never
// stored (writing one erases the field).

module LayerData {

  /** A path is the sequence of its elements; the pseudo-root is []. */
  type Path = seq<string>
  type Field = string

  /** The field that holds an attribute's time samples. */
  const TimeSamples: Field := "timeSamples"

  datatype SpecType =
    | UnknownSpec | PrimSpec | AttributeSpec | RelationshipSpec | VariantSetSpec | VariantSpec

  /** An entry of a children list: a token (names) or a path (targets, connections). */
  datatype Child = TokenChild(token: string) | ChildPath(target: Path)

  /** A VtValue, restricted to the shapes the undo machinery distinguishes. */
  datatype Value =
    | Empty
    | Val(x: int)
    | Dict(entries: map<string, int>)
    | Samples(samples: map<real, int>)
    | Children(items: seq<Child>)

  datatype Spec = Spec(specType: SpecType, fields: map<Field, Value>)

  type Data = map<Path, Spec>

  /** Values that may be stored in a field. */
  predicate Storable(v: Value) {
    match v
    case Empty => false
    case Val(_) => true
    case Dict(e) => e != map[]
    case Samples(s) => s != map[]
    case Children(c) => c != []
  }

  predicate WellFormed(d: Data) {
    forall p | p in d :: forall f | f in d[p].fields :: Storable(d[p].fields[f])
  }

  /** Writing a value that cannot be stored erases the field. */
  function PutField(fields: map<Field, Value>, f: Field, v: Value): map<Field, Value> {
    if Storable(v) then fields[f := v] else fields - {f}
  }

  function WithField(d: Data, p: Path, f: Field, v: Value): Data
    requires p in d
  {
    d[p := d[p].(fields := PutField(d[p].fields, f, v))]
  }

  /** SdfLayer::GetField: the stored value, or the empty value. */
  function GetField(d: Data, p: Path, f: Field): Value {
    if p in d && f in d[p].fields then d[p].fields[f] else Empty
  }

  /** SdfLayer::HasField: the spec exists and holds the field. */
  predicate HasField(d: Data, p: Path, f: Field) {
    p in d && f in d[p].fields
  }

  function DictOf(d: Data, p: Path, f: Field): map<string, int> {
    var v := GetField(d, p, f);
    if v.Dict? then v.entries else map[]
  }

  /** SdfLayer::GetFieldDictValueByKey. */
  function GetFieldDictValueByKey(d: Data, p: Path, f: Field, k: string): Value {
    var e := DictOf(d, p, f);
    if k in e then Val(e[k]) else Empty
  }

  function SamplesOf(d: Data, p: Path): map<real, int> {
    var v := GetField(d, p, TimeSamples);
    if v.Samples? then v.samples else map[]
  }

  /** SdfLayer::QueryTimeSample: the sample at `t`, or the empty value. */
  function QueryTimeSample(d: Data, p: Path, t: real): Value {
    var s := SamplesOf(d, p);
    if t in s then Val(s[t]) else Empty
  }

  function ChildrenOf(d: Data, p: Path, f: Field): seq<Child> {
    var v := GetField(d, p, f);
    if v.Children? then v.items else []
  }

  /** SdfLayer::GetSpecType: the type of the spec at `p`, or the unknown type. */
  function GetSpecType(d: Data, p: Path): SpecType {
    if p in d then d[p].specType else UnknownSpec
  }

  /** The specs at or below `p`. */
  function Subtree(d: Data, p: Path): Data {
    map q | q in d && p <= q :: d[q]
  }

  /** The specs that are not at or below `p`. */
  function Without(d: Data, p: Path): Data {
    map q | q in d && !(p <= q) :: d[q]
  }

  /** No spec lives at or below `p`. */
  predicate Vacant(d: Data, p: Path) {
    forall q | q in d :: !(p <= q)
  }

  function Reroot(q: Path, o: Path, n: Path): Path
    requires o <= q
  {
    n + q[|o|..]
  }

  function MovedKeys(d: Data, o: Path, n: Path): set<Path> {
    set q | q in d && o <= q :: Reroot(q, o, n)
  }

  /** Every spec at or below `o` re-homed below `n`. */
  function Move(d: Data, o: Path, n: Path): Data {
    Without(d, o) +
      map r | r in MovedKeys(d, o, n) && n <= r && Reroot(r, n, o) in d :: d[Reroot(r, n, o)]
  }

  /**
   * Copying spec `s` to `q` straight into the layer data: the spec is created
   * (an existing spec keeps its fields but takes the copied type) and then
   * every field of `s` is set.
   */
  function CopySpec(d: Data, q: Path, s: Spec): Data {
    d[q := if q in d then Spec(s.specType, d[q].fields + s.fields) else s]
  }

  /** Every spec of the snapshot `snap` copied into `d`. */
  function CopySpecs(d: Data, snap: Data): Data {
    map q | q in d.Keys + snap.Keys ::
      if q in snap then CopySpec(d, q, snap[q])[q] else d[q]
  }

  /** One primitive layer edit, as announced to the layer's state delegate. */
  datatype Edit =
    | SetField(path: Path, field: Field, value: Value)
    | SetFieldDictValueByKey(path: Path, field: Field, key: string, value: Value)
    | SetTimeSample(path: Path, time: real, value: Value)
    | CreateSpec(path: Path, specType: SpecType, inert: bool)
    | DeleteSpec(path: Path, inert: bool)
    | MoveSpec(oldPath: Path, newPath: Path)
    | PushChild(path: Path, field: Field, child: Child)
    | PopChild(path: Path, field: Field, child: Child)

  /** What the layer checks before it performs (and announces) an edit. */
  predicate Applicable(d: Data, e: Edit) {
    match e
    case SetField(p, f, v) => p in d
    case SetFieldDictValueByKey(p, f, k, v) =>
      p in d && (GetField(d, p, f).Empty? || GetField(d, p, f).Dict?) && (v.Empty? || v.Val?)
    case SetTimeSample(p, t, v) =>
      p in d && (GetField(d, p, TimeSamples).Empty? || GetField(d, p, TimeSamples).Samples?)
      && (v.Empty? || v.Val?)
    case CreateSpec(p, _, _) => Vacant(d, p)
    case DeleteSpec(p, _) => p in d
    case MoveSpec(o, n) => o in d && Vacant(d, n) && !(o <= n) && !(n <= o)
    case PushChild(p, f, c) =>
      p in d && (GetField(d, p, f).Empty? || GetField(d, p, f).Children?)
    case PopChild(p, f, c) =>
      p in d && GetField(d, p, f).Children? && ChildrenOf(d, p, f) != []
      && ChildrenOf(d, p, f)[|ChildrenOf(d, p, f)| - 1] == c
  }

  /** The layer data after an applicable edit. */
  function Apply(d: Data, e: Edit): Data
    requires Applicable(d, e)
  {
    match e
    case SetField(p, f, v) => WithField(d, p, f, v)
    case SetFieldDictValueByKey(p, f, k, v) =>
      var entries := DictOf(d, p, f);
      WithField(d, p, f, Dict(if v.Val? then entries[k := v.x] else entries - {k}))
    case SetTimeSample(p, t, v) =>
      var s := SamplesOf(d, p);
      WithField(d, p, TimeSamples, Samples(if v.Val? then s[t := v.x] else s - {t}))
    case CreateSpec(p, ty, _) => d[p := Spec(ty, map[])]
    case DeleteSpec(p, _) => Without(d, p)
    case MoveSpec(o, n) => Move(d, o, n)
    case PushChild(p, f, c) => WithField(d, p, f, Children(ChildrenOf(d, p, f) + [c]))
    case PopChild(p, f, c) =>
      var items := ChildrenOf(d, p, f);
      WithField(d, p, f, Children(items[..|items| - 1]))
  }

  /** The layer refuses an edit it cannot apply, and then nothing changes. */
  function Perform(d: Data, e: Edit): Data {
    if Applicable(d, e) then Apply(d, e) else d
  }

  /** Edits that apply one after the other. */
  predicate ApplicableAll(d: Data, es: seq<Edit>)
    decreases |es|
  {
    |es| == 0 || (Applicable(d, es[0]) && ApplicableAll(Apply(d, es[0]), es[1..]))
  }

  function PerformAll(d: Data, es: seq<Edit>): Data
    decreases |es|
  {
    if |es| == 0 then d else PerformAll(Perform(d, es[0]), es[1..])
  }

  // ----- facts about the storage model -----

  lemma {:induction false} PerformAllSnoc(d: Data, es: seq<Edit>, e: Edit)
    ensures PerformAll(d, es + [e]) == Perform(PerformAll(d, es), e)
    decreases |es|
  {
    if |es| > 0 {
      assert (es + [e])[1..] == es[1..] + [e];
      PerformAllSnoc(Perform(d, es[0]), es[1..], e);
    } else {
      assert es + [e] == [e];
    }
  }

  lemma WithFieldWellFormed(d: Data, p: Path, f: Field, v: Value)
    requires WellFormed(d) && p in d
    ensures WellFormed(WithField(d, p, f, v))
  {
  }

  lemma MoveWellFormed(d: Data, o: Path, n: Path)
    requires WellFormed(d)
    ensures WellFormed(Move(d, o, n))
  {
  }

  /** Every edit keeps the layer data normalised. */
  lemma ApplyWellFormed(d: Data, e: Edit)
    requires WellFormed(d) && Applicable(d, e)
    ensures WellFormed(Apply(d, e))
  {
    match e
    case MoveSpec(o, n) => MoveWellFormed(d, o, n);
    case _ =>
  }

  /** Copying one more spec extends a partial copy of a snapshot. */
  lemma CopySpecsStep(d: Data, snap: Data, done: set<Path>, q: Path)
    requires q in snap && q !in done
    ensures CopySpecs(d, map r | r in snap && r in done + {q} :: snap[r])
      == CopySpec(CopySpecs(d, map r | r in snap && r in done :: snap[r]), q, snap[q])
  {
  }

  /** Where the snapshot's specs are new or field-less, copying is plain map union. */
  lemma CopySpecsIntoVacancy(d: Data, snap: Data)
    requires forall q | q in snap && q in d :: d[q].fields == map[]
    ensures CopySpecs(d, snap) == d + snap
  {
    forall q | q in snap && q in d
      ensures CopySpec(d, q, snap[q])[q] == snap[q]
    {
      assert d[q].fields + snap[q].fields == snap[q].fields;
    }
  }

  /** Copying a normalised snapshot keeps the layer data normalised. */
  lemma CopySpecsWellFormed(d: Data, snap: Data)
    requires WellFormed(d) && WellFormed(snap)
    ensures WellFormed(CopySpecs(d, snap))
  {
  }

  lemma RerootInverse(q: Path, o: Path, n: Path)
    requires o <= q
    ensures n <= Reroot(q, o, n)
    ensures Reroot(Reroot(q, o, n), n, o) == q
  {
    var r := Reroot(q, o, n);
    assert r[..|n|] == n;
    assert r[|n|..] == q[|o|..];
    assert o + q[|o|..] == q;
  }

  /** A path below `o` lands below `n` and nowhere else. */
  lemma MoveKeys(d: Data, o: Path, n: Path, q: Path)
    requires o in d && Vacant(d, n) && !(o <= n) && !(n <= o)
    ensures q in Move(d, o, n) <==>
      ((q in d && !(o <= q)) || (n <= q && Reroot(q, n, o) in d && o <= Reroot(q, n, o)))
  {
    if n <= q && Reroot(q, n, o) in d && o <= Reroot(q, n, o) {
      var q0 := Reroot(q, n, o);
      RerootInverse(q0, o, n);
      assert Reroot(q0, o, n) == q by {
        assert q[..|n|] == n;
        assert q0[|o|..] == q[|n|..];
      }
      assert q in MovedKeys(d, o, n);
    }
    if q in MovedKeys(d, o, n) {
      var q0 :| q0 in d && o <= q0 && Reroot(q0, o, n) == q;
      RerootInverse(q0, o, n);
    }
  }
}

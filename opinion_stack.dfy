// The opinion stack view: every spec that contributes to a prim, grouped by
// the layer that holds it, with the strongest opinion of one field (an
// attribute, a piece of metadata, the variant sets or one selection) shown
// per layer, and a filter that hides the layers and specs without one.

module OpinionStacks {
  import opened Wrappers
  import UsdObjects

  /** An attribute spec, as far as the view asks of it: its default, if
      authored, and whether it has time samples. */
  datatype AttributeSpec = AttributeSpec(default: Option<string>, hasTimeSamples: bool)

  /** A prim spec in one layer: the layer's identifier, the spec's path, the
      prim's authored metadata, its attribute specs, the authored metadata
      keys of each of its properties, its variant set names and its variant
      selections. */
  datatype PrimSpec = PrimSpec(
    layer: string,
    path: string,
    info: map<string, string>,
    attributes: map<string, AttributeSpec>,
    properties: map<string, set<string>>,
    variantSets: seq<string>,
    variantSelections: map<string, string>)

  /** The field whose opinions are shown: the five handler classes. */
  datatype Handler =
    | AttributeHandler(attributeName: string, timeCode: UsdObjects.TimeCode)
    | PrimMetadataHandler(metadataName: string)
    | PropertyMetadataHandler(propertyName: string, metadataName: string)
    | VariantSetsHandler
    | VariantSetHandler(variantSet: string)

  /** What the opinion column shows: a value's text or the list of variant
      set names. */
  datatype OpinionValue = Text(text: string) | Names(names: seq<string>)

  /** `IsSpecified`: whether `spec` holds an opinion on the handler's field.
      An attribute counts at a non-default time if it has time samples, and
      otherwise only if it has a default. */
  predicate IsSpecified(h: Handler, spec: PrimSpec)
  {
    match h
    case AttributeHandler(name, time) =>
      if name in spec.attributes then
        if time != UsdObjects.DefaultTime && spec.attributes[name].hasTimeSamples then true
        else spec.attributes[name].default.Some?
      else false
    case PrimMetadataHandler(key) => key in spec.info
    case PropertyMetadataHandler(prop, key) => prop in spec.properties && key in spec.properties[prop]
    case VariantSetsHandler => |spec.variantSets| > 0
    case VariantSetHandler(vset) => vset in spec.variantSelections
  }

  /** An attribute opinion at the default time is its authored default; at a
      frame, time samples count too, so a spec with an opinion at the
      default time has one at every frame. */
  lemma AttributeSpecified(name: string, frame: int, spec: PrimSpec)
    ensures IsSpecified(AttributeHandler(name, UsdObjects.DefaultTime), spec) <==>
      name in spec.attributes && spec.attributes[name].default.Some?
    ensures IsSpecified(AttributeHandler(name, UsdObjects.AtTime(frame)), spec) <==>
      IsSpecified(AttributeHandler(name, UsdObjects.DefaultTime), spec)
      || (name in spec.attributes && spec.attributes[name].hasTimeSamples)
  {
  }

  /** `GetValue` of a spec that holds an opinion. The property metadata
      handler reads the key from the prim's own metadata, not the
      property's; every other handler always has a value to show. */
  function GetValue(h: Handler, spec: PrimSpec): (r: Option<OpinionValue>)
    requires IsSpecified(h, spec)
    ensures !h.PropertyMetadataHandler? ==> r.Some?
  {
    match h
    case AttributeHandler(name, _) =>
      if spec.attributes[name].default.Some? then Some(Text(spec.attributes[name].default.value))
      else if spec.attributes[name].hasTimeSamples then Some(Text("TODO!"))
      else None
    case PrimMetadataHandler(key) => Some(Text(spec.info[key]))
    case PropertyMetadataHandler(_, key) => if key in spec.info then Some(Text(spec.info[key])) else None
    case VariantSetsHandler => Some(Names(spec.variantSets))
    case VariantSetHandler(vset) => Some(Text(spec.variantSelections[vset]))
  }

  /** A row under a layer: one spec and the row of its layer. */
  datatype PrimItem = PrimItem(spec: PrimSpec, parentRow: nat)

  /** A layer row: the layer, the position among its children of the spec
      whose opinion it shows (none yet), its children and its own row. */
  datatype LayerItem = LayerItem(layer: string, strongestPrim: Option<nat>, children: seq<PrimItem>, row: nat)

  /** The specs a prim's opinions come from, strongest first: its prim stack,
      then its prim definition when it has one. */
  function StackOf(stack: seq<PrimSpec>, definition: Option<PrimSpec>): (r: seq<PrimSpec>)
    ensures |r| == |stack| + (if definition.Some? then 1 else 0) && r[..|stack|] == stack
  {
    if definition.Some? then stack + [definition.value] else stack
  }

  /** The handler's test as a function on specs. */
  function Specified(h: Handler): (sp: PrimSpec -> bool)
    ensures forall spec :: sp(spec) == IsSpecified(h, spec)
  {
    (spec: PrimSpec) => IsSpecified(h, spec)
  }

  /** Layer row `last` with `spec` appended to its children; `spec`
      becomes the row's strongest spec if the row has none yet and `spec`
      holds an opinion. */
  function Joined(last: LayerItem, spec: PrimSpec, sp: PrimSpec -> bool): (r: LayerItem)
  {
    var strongest := if last.strongestPrim.None? && sp(spec) then Some(|last.children|) else last.strongestPrim;
    last.(children := last.children + [PrimItem(spec, last.row)], strongestPrim := strongest)
  }

  /** One step of `_GetPrimTree`: `spec` joins the last layer row, or a new
      one if it lives in another layer. */
  function AddSpec(tree: seq<LayerItem>, spec: PrimSpec, sp: PrimSpec -> bool): (r: seq<LayerItem>)
  {
    if |tree| == 0 || spec.layer != tree[|tree| - 1].layer
    then tree + [Joined(LayerItem(spec.layer, None, [], |tree|), spec, sp)]
    else tree[..|tree| - 1] + [Joined(tree[|tree| - 1], spec, sp)]
  }

  /** `_GetPrimTree` over the specs, strongest first. */
  function Tree(specs: seq<PrimSpec>, sp: PrimSpec -> bool): (r: seq<LayerItem>)
  {
    if specs == [] then [] else AddSpec(Tree(specs[..|specs| - 1], sp), specs[|specs| - 1], sp)
  }

  lemma TreeSnoc(specs: seq<PrimSpec>, i: nat, sp: PrimSpec -> bool)
    requires i < |specs|
    ensures Tree(specs[..i + 1], sp) == AddSpec(Tree(specs[..i], sp), specs[i], sp)
  {
    assert specs[..i + 1][..i] == specs[..i];
  }

  function SpecsOf(items: seq<PrimItem>): (r: seq<PrimSpec>)
    ensures |r| == |items| && forall j :: 0 <= j < |items| ==> r[j] == items[j].spec
  {
    seq(|items|, j requires 0 <= j < |items| => items[j].spec)
  }

  /** The specs under the layer rows, in row order. */
  function Flatten(tree: seq<LayerItem>): (r: seq<PrimSpec>)
  {
    if tree == [] then [] else Flatten(tree[..|tree| - 1]) + SpecsOf(tree[|tree| - 1].children)
  }

  /** The first of `specs` holding an opinion. */
  function FirstSpecified(specs: seq<PrimSpec>, sp: PrimSpec -> bool): (r: Option<nat>)
    ensures r.Some? ==> r.value < |specs| && sp(specs[r.value])
    ensures r.Some? ==> forall j :: 0 <= j < r.value ==> !sp(specs[j])
    ensures r.None? ==> forall j :: 0 <= j < |specs| ==> !sp(specs[j])
  {
    if specs == [] then None
    else if sp(specs[0]) then Some(0)
    else match FirstSpecified(specs[1..], sp)
      case None => None
      case Some(k) => Some(k + 1)
  }

  /** Layer row `i` is laid out right: it knows its row, holds at least one
      spec, only specs of its own layer, each pointing back at it, and its
      strongest spec is the first of them holding an opinion. */
  predicate ItemWellFormed(item: LayerItem, i: nat, sp: PrimSpec -> bool)
  {
    && item.row == i
    && |item.children| > 0
    && (forall j :: 0 <= j < |item.children| ==>
          item.children[j].spec.layer == item.layer && item.children[j].parentRow == i)
    && item.strongestPrim == FirstSpecified(SpecsOf(item.children), sp)
  }

  /** The layer rows are laid out right and no two neighbours share a
      layer. */
  predicate WellGrouped(tree: seq<LayerItem>, sp: PrimSpec -> bool)
  {
    && (forall i :: 0 <= i < |tree| ==> ItemWellFormed(tree[i], i, sp))
    && (forall i :: 0 < i < |tree| ==> tree[i - 1].layer != tree[i].layer)
  }

  /** Appending one more spec to a row keeps its strongest spec the first
      one holding an opinion. */
  lemma FirstSpecifiedSnoc(specs: seq<PrimSpec>, spec: PrimSpec, sp: PrimSpec -> bool)
    ensures FirstSpecified(specs + [spec], sp) ==
      if FirstSpecified(specs, sp).Some? then FirstSpecified(specs, sp)
      else if sp(spec) then Some(|specs|) else None
  {
    var s := specs + [spec];
    var r := FirstSpecified(s, sp);
    var f := FirstSpecified(specs, sp);
    assert forall j :: 0 <= j < |specs| ==> s[j] == specs[j];
    if f.Some? {
      assert r.Some?;
      assert !(r.value < f.value);
      assert !(f.value < r.value);
    } else if sp(spec) {
      assert s[|specs|] == spec;
      assert sp(s[|specs|]);
      assert r.Some?;
      assert !(r.value < |specs|);
    } else {
      assert s[|specs|] == spec;
    }
  }

  lemma SpecsOfSnoc(items: seq<PrimItem>, item: PrimItem)
    ensures SpecsOf(items + [item]) == SpecsOf(items) + [item.spec]
  {
  }

  /** A row with one more spec of its own layer stays laid out right. */
  lemma JoinedWellFormed(last: LayerItem, i: nat, spec: PrimSpec, sp: PrimSpec -> bool)
    requires last.row == i && last.layer == spec.layer
    requires forall j :: 0 <= j < |last.children| ==>
      last.children[j].spec.layer == last.layer && last.children[j].parentRow == i
    requires last.strongestPrim == FirstSpecified(SpecsOf(last.children), sp)
    ensures ItemWellFormed(Joined(last, spec, sp), i, sp)
  {
    SpecsOfSnoc(last.children, PrimItem(spec, last.row));
    FirstSpecifiedSnoc(SpecsOf(last.children), spec, sp);
  }

  /** Rows laid out right stay so with one more row of a different layer
      after them. */
  lemma WellGroupedSnoc(prefix: seq<LayerItem>, item: LayerItem, sp: PrimSpec -> bool)
    requires WellGrouped(prefix, sp) && ItemWellFormed(item, |prefix|, sp)
    requires |prefix| > 0 ==> prefix[|prefix| - 1].layer != item.layer
    ensures WellGrouped(prefix + [item], sp)
  {
    var r := prefix + [item];
    assert forall i :: 0 <= i < |prefix| ==> r[i] == prefix[i];
  }

  /** One step keeps the rows laid out right. */
  lemma AddSpecPreserves(tree: seq<LayerItem>, spec: PrimSpec, sp: PrimSpec -> bool)
    requires WellGrouped(tree, sp)
    ensures WellGrouped(AddSpec(tree, spec, sp), sp)
  {
    if |tree| == 0 || spec.layer != tree[|tree| - 1].layer {
      JoinedWellFormed(LayerItem(spec.layer, None, [], |tree|), |tree|, spec, sp);
      WellGroupedSnoc(tree, Joined(LayerItem(spec.layer, None, [], |tree|), spec, sp), sp);
    } else {
      var n := |tree| - 1;
      var init := tree[..n];
      assert forall i :: 0 <= i < n ==> init[i] == tree[i];
      assert WellGrouped(init, sp);
      assert ItemWellFormed(tree[n], n, sp);
      JoinedWellFormed(tree[n], n, spec, sp);
      WellGroupedSnoc(init, Joined(tree[n], spec, sp), sp);
    }
  }

  /** One step adds exactly `spec` to the specs under the rows. */
  lemma AddSpecFlatten(tree: seq<LayerItem>, spec: PrimSpec, sp: PrimSpec -> bool)
    ensures Flatten(AddSpec(tree, spec, sp)) == Flatten(tree) + [spec]
  {
    var r := AddSpec(tree, spec, sp);
    if |tree| == 0 || spec.layer != tree[|tree| - 1].layer {
      var item := Joined(LayerItem(spec.layer, None, [], |tree|), spec, sp);
      assert r[..|r| - 1] == tree;
      assert SpecsOf(item.children) == [spec];
    } else {
      var n := |tree| - 1;
      var item := Joined(tree[n], spec, sp);
      SpecsOfSnoc(tree[n].children, PrimItem(spec, tree[n].row));
      assert r[..|r| - 1] == tree[..n];
      assert Flatten(r) == Flatten(tree[..n]) + SpecsOf(item.children);
    }
  }

  /** `_GetPrimTree`'s rows hold the specs in stack order, neighbours never
      share a layer, each row knows its position, and each row's strongest
      spec is its first one holding an opinion. */
  lemma {:induction false} TreeSpec(specs: seq<PrimSpec>, sp: PrimSpec -> bool)
    ensures WellGrouped(Tree(specs, sp), sp)
    ensures Flatten(Tree(specs, sp)) == specs
  {
    TreeGrouped(specs, sp);
    TreeFlatten(specs, sp);
  }

  lemma {:induction false} TreeGrouped(specs: seq<PrimSpec>, sp: PrimSpec -> bool)
    ensures WellGrouped(Tree(specs, sp), sp)
  {
    if specs != [] {
      var init := specs[..|specs| - 1];
      TreeGrouped(init, sp);
      AddSpecPreserves(Tree(init, sp), specs[|specs| - 1], sp);
    }
  }

  lemma {:induction false} TreeFlatten(specs: seq<PrimSpec>, sp: PrimSpec -> bool)
    ensures Flatten(Tree(specs, sp)) == specs
  {
    if specs != [] {
      var init := specs[..|specs| - 1];
      TreeFlatten(init, sp);
      TreeFlattenStep(specs, sp);
    }
  }

  lemma TreeFlattenStep(specs: seq<PrimSpec>, sp: PrimSpec -> bool)
    requires specs != [] && Flatten(Tree(specs[..|specs| - 1], sp)) == specs[..|specs| - 1]
    ensures Flatten(Tree(specs, sp)) == specs
  {
    var init, last := specs[..|specs| - 1], specs[|specs| - 1];
    assert Tree(specs, sp) == AddSpec(Tree(init, sp), last, sp);
    AddSpecFlatten(Tree(init, sp), last, sp);
    InitLast(specs);
  }

  lemma InitLast(specs: seq<PrimSpec>)
    requires specs != []
    ensures specs[..|specs| - 1] + [specs[|specs| - 1]] == specs
  {
  }

  /** The step `_GetPrimTree` takes as written: `not strongestPrim` is also
      true when the strongest spec found so far is the row's first, at
      position 0, so a later spec holding an opinion replaces it. */
  function JoinedAsWritten(last: LayerItem, spec: PrimSpec, sp: PrimSpec -> bool): (r: LayerItem)
  {
    var unset := last.strongestPrim.None? || last.strongestPrim == Some(0);
    var strongest := if unset && sp(spec) then Some(|last.children|) else last.strongestPrim;
    last.(children := last.children + [PrimItem(spec, last.row)], strongestPrim := strongest)
  }

  function AddSpecAsWritten(tree: seq<LayerItem>, spec: PrimSpec, sp: PrimSpec -> bool): (r: seq<LayerItem>)
    ensures |r| > 0
  {
    if |tree| == 0 || spec.layer != tree[|tree| - 1].layer
    then tree + [JoinedAsWritten(LayerItem(spec.layer, None, [], |tree|), spec, sp)]
    else tree[..|tree| - 1] + [JoinedAsWritten(tree[|tree| - 1], spec, sp)]
  }

  function TreeAsWritten(specs: seq<PrimSpec>, sp: PrimSpec -> bool): (r: seq<LayerItem>)
    ensures specs != [] ==> |r| > 0
  {
    if specs == [] then [] else AddSpecAsWritten(TreeAsWritten(specs[..|specs| - 1], sp), specs[|specs| - 1], sp)
  }

  /** Two specs of one layer that both hold an opinion: as written, the
      layer row shows the second, weaker one. */
  lemma StrongestPrimOverwritten(s0: PrimSpec, s1: PrimSpec, sp: PrimSpec -> bool)
    requires s0.layer == s1.layer && sp(s0) && sp(s1)
    ensures |TreeAsWritten([s0, s1], sp)| == 1 && TreeAsWritten([s0, s1], sp)[0].strongestPrim == Some(1)
  {
    var specs := [s0, s1];
    assert specs[..1] == [s0] && [s0][..0] == [];
    assert TreeAsWritten([], sp) == [];
    var one := TreeAsWritten([s0], sp);
    assert one == [JoinedAsWritten(LayerItem(s0.layer, None, [], 0), s0, sp)];
    assert TreeAsWritten(specs, sp) == [JoinedAsWritten(one[0], s1, sp)];
  }

  /** The same two specs: the corrected step shows the first. */
  lemma StrongestPrimKept(s0: PrimSpec, s1: PrimSpec, sp: PrimSpec -> bool)
    requires s0.layer == s1.layer && sp(s0) && sp(s1)
    ensures |Tree([s0, s1], sp)| == 1 && Tree([s0, s1], sp)[0].strongestPrim == Some(0)
  {
    var specs := [s0, s1];
    assert specs[..1] == [s0] && [s0][..0] == [];
    assert Tree([], sp) == [];
    var one := Tree([s0], sp);
    assert one == [Joined(LayerItem(s0.layer, None, [], 0), s0, sp)];
    assert Tree(specs, sp) == [Joined(one[0], s1, sp)];
  }

  /** A row of the view: a layer row, or spec `row` under layer row
      `layerRow`. */
  datatype RowRef = LayerRow(row: nat) | PrimRow(layerRow: nat, row: nat)

  predicate ValidRow(tree: seq<LayerItem>, ref: RowRef)
  {
    match ref
    case LayerRow(i) => i < |tree|
    case PrimRow(i, j) => i < |tree| && j < |tree[i].children|
  }

  /** The opinion column of a row: a layer row shows its strongest spec's
      value, a spec row its own value if it holds an opinion. */
  function OpinionColumn(tree: seq<LayerItem>, h: Handler, ref: RowRef): (r: Option<OpinionValue>)
    requires WellGrouped(tree, Specified(h)) && ValidRow(tree, ref)
  {
    match ref
    case LayerRow(i) =>
      (match tree[i].strongestPrim
       case None => None
       case Some(k) => GetValue(h, tree[i].children[k].spec))
    case PrimRow(i, j) =>
      if IsSpecified(h, tree[i].children[j].spec) then GetValue(h, tree[i].children[j].spec) else None
  }

  /** Except with the property metadata handler, a spec row shows a value
      exactly when the spec holds an opinion, and a layer row exactly when
      one of its specs does. */
  lemma OpinionShown(tree: seq<LayerItem>, h: Handler, ref: RowRef)
    requires WellGrouped(tree, Specified(h)) && ValidRow(tree, ref) && !h.PropertyMetadataHandler?
    ensures ref.PrimRow? ==> (OpinionColumn(tree, h, ref).Some? <==> IsSpecified(h, tree[ref.layerRow].children[ref.row].spec))
    ensures ref.LayerRow? ==> (OpinionColumn(tree, h, ref).Some? <==>
      exists j :: 0 <= j < |tree[ref.row].children| && IsSpecified(h, tree[ref.row].children[j].spec))
  {
    if ref.LayerRow? {
      var item := tree[ref.row];
      assert ItemWellFormed(item, ref.row, Specified(h));
      var specs := SpecsOf(item.children);
      if item.strongestPrim.None? {
        assert forall j :: 0 <= j < |item.children| ==> !IsSpecified(h, specs[j]);
      }
    }
  }

  /** The prim whose stack is shown: its prim stack, its prim definition and
      whether its handle is still valid. */
  datatype PrimSource = PrimSource(stack: seq<PrimSpec>, definition: Option<PrimSpec>, alive: bool)

  /** `OpinionStackModel`: the layer rows of one prim for one handler. */
  class OpinionStackModel {
    const handler: Handler
    var valid: bool
    var primTree: seq<LayerItem>

    constructor(prim: Option<PrimSource>, handler: Handler)
      ensures this.handler == handler
      ensures valid == prim.Some?
      ensures primTree == if prim.Some? && prim.value.alive then Tree(StackOf(prim.value.stack, prim.value.definition), Specified(handler)) else []
    {
      this.handler := handler;
      valid := false;
      primTree := [];
      new;
      ResetPrim(prim);
    }

    /** `_GetPrimTree`: the specs walked strongest first, each joining the
        last layer row or opening a new one. A row's strongest spec is its
        first spec with an opinion: the corrected test, where the source's
        `not strongestPrim` also replaces an index of 0 (`TreeAsWritten`). */
    method GetPrimTree(prim: PrimSource) returns (tree: seq<LayerItem>)
      ensures tree == Tree(StackOf(prim.stack, prim.definition), Specified(handler))
    {
      var specs := prim.stack;
      if prim.definition.Some? {
        specs := specs + [prim.definition.value];
      }
      tree := [];
      for i := 0 to |specs|
        invariant tree == Tree(specs[..i], Specified(handler))
      {
        var spec := specs[i];
        ghost var before := tree;
        if |tree| == 0 || spec.layer != tree[|tree| - 1].layer {
          tree := tree + [LayerItem(spec.layer, None, [], |tree|)];
          assert tree[..|tree| - 1] == before;
        }
        var last := tree[|tree| - 1];
        var strongest := last.strongestPrim;
        if strongest.None? && IsSpecified(handler, spec) {
          strongest := Some(|last.children|);
        }
        tree := tree[..|tree| - 1] + [last.(children := last.children + [PrimItem(spec, last.row)], strongestPrim := strongest)];
        assert tree == AddSpec(before, spec, Specified(handler));
        TreeSnoc(specs, i, Specified(handler));
      }
      assert specs[..|specs|] == specs;
    }

    /** `ResetPrim`: no prim leaves the model invalid and empty; an expired
        prim leaves it empty. */
    method ResetPrim(prim: Option<PrimSource>)
      modifies this
      ensures valid == prim.Some?
      ensures primTree == if prim.Some? && prim.value.alive then Tree(StackOf(prim.value.stack, prim.value.definition), Specified(handler)) else []
    {
      valid := prim.Some?;
      if prim.Some? && prim.value.alive {
        primTree := GetPrimTree(prim.value);
      } else {
        primTree := [];
      }
    }
  }

  /** `OpinionStackFilter`: hides the rows without an opinion unless the
      full stack is asked for; `invalidations` counts the filter
      invalidations it causes. */
  class OpinionStackFilter {
    var showFullStack: bool
    var invalidations: nat

    constructor()
      ensures !showFullStack && invalidations == 0
    {
      showFullStack := false;
      invalidations := 0;
    }

    /** `ToggleShowFullStack`: flips the flag and invalidates. */
    method ToggleShowFullStack()
      modifies this
      ensures showFullStack == !old(showFullStack)
      ensures invalidations == old(invalidations) + 1
    {
      showFullStack := !showFullStack;
      invalidations := invalidations + 1;
    }

    /** `SetShowFullStack`: invalidates only when the flag changes. */
    method SetShowFullStack(shouldShow: bool)
      modifies this
      ensures showFullStack == shouldShow
      ensures invalidations == old(invalidations) + if shouldShow != old(showFullStack) then 1 else 0
    {
      if shouldShow != showFullStack {
        showFullStack := shouldShow;
        invalidations := invalidations + 1;
      }
    }

    /** `filterAcceptsRow`: every row with the full stack shown, otherwise
        the rows whose opinion column holds a value. */
    method FilterAcceptsRow(model: OpinionStackModel, ref: RowRef) returns (accepted: bool)
      requires WellGrouped(model.primTree, Specified(model.handler)) && ValidRow(model.primTree, ref)
      ensures accepted <==> showFullStack || OpinionColumn(model.primTree, model.handler, ref).Some?
    {
      if showFullStack {
        return true;
      }
      var opinion := OpinionColumn(model.primTree, model.handler, ref);
      return opinion.Some?;
    }
  }
}

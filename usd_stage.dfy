// The composed stage as the hierarchy code reads it: for each valid prim, its
// flags and its children in namespace order. A prim flags predicate is a
// conjunction of flags that must be set and flags that must be clear.
// The stage changes between calls, so every operation that consults it takes
// the current snapshot as a parameter.

module UsdStages {
  import opened SdfPaths

  datatype PrimFlag = Active | Loaded | Defined | Abstract | Model | Group | Instance

  datatype Prim = Prim(flags: set<PrimFlag>, children: seq<SdfPath>)

  datatype Stage = Stage(prims: map<SdfPath, Prim>)

  /** A conjunction of flag terms, as prim flags predicates are built. */
  datatype Predicate = Predicate(required: set<PrimFlag>, excluded: set<PrimFlag>)

  /** The default predicate: active, loaded, defined and not abstract. */
  const DefaultPredicate: Predicate := Predicate({Active, Loaded, Defined}, {Abstract})

  /** Prims have prim paths, and every child a prim lists is a valid prim one
      element below it. */
  ghost predicate StageWf(st: Stage)
  {
    EmptyPath !in st.prims
    && forall p, c :: p in st.prims && c in st.prims[p].children ==> IsChildOf(c, p) && c in st.prims
  }

  /** The prim at `p` exists on the stage. */
  predicate IsValidPrim(st: Stage, p: SdfPath)
  {
    p in st.prims
  }

  /** The predicate holds for the valid prim at `p`. */
  predicate Accepts(pred: Predicate, st: Stage, p: SdfPath)
  {
    p in st.prims && pred.required <= st.prims[p].flags && st.prims[p].flags !! pred.excluded
  }

  /** The elements of `xs` that `pred` accepts, in order. */
  function FilterAccepted(pred: Predicate, st: Stage, xs: seq<SdfPath>): (r: seq<SdfPath>)
    ensures forall x :: x in r <==> x in xs && Accepts(pred, st, x)
    ensures |r| <= |xs|
  {
    if xs == [] then []
    else if Accepts(pred, st, xs[0]) then [xs[0]] + FilterAccepted(pred, st, xs[1..])
    else FilterAccepted(pred, st, xs[1..])
  }

  /** `GetFilteredChildren(pred)`: the accepted children of the prim at `p`, in
      order; an invalid prim has none. */
  function FilteredChildren(pred: Predicate, st: Stage, p: SdfPath): (r: seq<SdfPath>)
    ensures forall x :: x in r <==> IsValidPrim(st, p) && x in st.prims[p].children && Accepts(pred, st, x)
    ensures StageWf(st) ==> forall x :: x in r ==> IsChildOf(x, p)
  {
    if p in st.prims then FilterAccepted(pred, st, st.prims[p].children) else []
  }
}

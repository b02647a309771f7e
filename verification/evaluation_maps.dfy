/** The sparse evaluation map of a B-spline surface: the matrix that takes the coefficient vector to
    the spline's values (or parametric derivatives) at a list of parametric points, optionally expanded
    so that it acts on every interleaved physical coordinate at once. */
module EvaluationMaps {
  import opened Wrappers
  import opened Errors
  import opened NdArrays
  import opened Matrices

  // ---------------------------------------------------------------------------------------------
  // Arguments.

  /** The `parametric_derivative_order` argument: omitted, one integer for every parametric
      dimension, or a tuple. */
  datatype DerivativeOrder = Unspecified | Scalar(k: int) | Tuple(t: seq<int>)

  /** The per-dimension derivative orders: an omitted order is 0 in every dimension, an integer
      is used in every dimension, a one-element tuple is repeated across the dimensions, and any
      other tuple is kept as it is. */
  function NormaliseDerivativeOrder(d: DerivativeOrder, dims: nat): (r: seq<int>)
    ensures d.Tuple? && |d.t| != 1 ==> r == d.t
    ensures !(d.Tuple? && |d.t| != 1) ==> |r| == dims
    ensures d.Unspecified? ==> forall i :: 0 <= i < |r| ==> r[i] == 0
    ensures d.Scalar? ==> forall i :: 0 <= i < |r| ==> r[i] == d.k
    ensures d.Tuple? && |d.t| == 1 ==> forall i :: 0 <= i < |r| ==> r[i] == d.t[0]
  {
    match d
    case Unspecified => Repeat(0, dims)
    case Scalar(k) => Repeat(k, dims)
    case Tuple(t) =>
      if |t| == 1 && dims != 1 then
        var r := Tile(t, dims);
        assert forall i :: 0 <= i < |r| ==> r[i] == t[0] by {
          forall i | 0 <= i < |r|
            ensures r[i] == t[0]
          {
            TileIndex(t, dims, i);
          }
        }
        r
      else t
  }

  /** Normalising a normalised order changes nothing. */
  lemma NormaliseIdempotent(d: DerivativeOrder, dims: nat)
    ensures var r := NormaliseDerivativeOrder(d, dims);
      NormaliseDerivativeOrder(Tuple(r), dims) == r
  {
  }

  /** Python's clamping of a slice bound `i` against a sequence of length `n`: a negative bound
      counts from the end, and bounds outside the sequence stop at its ends. */
  function SliceBound(i: int, n: nat): (b: nat)
    ensures b <= n
    ensures 0 <= i <= n ==> b == i
    ensures i < 0 && n + i >= 0 ==> b == n + i
    ensures i > n ==> b == n
    ensures n + i < 0 ==> b == 0
  {
    if i < 0 then (if n + i < 0 then 0 else n + i)
    else if i > n then n
    else i
  }

  /** `(knots[:cut], knots[cut:])`: one flat knot vector split into the knot vectors of the two
      parametric directions. */
  function KnotSplit(knots: seq<real>, cut: int): (r: (seq<real>, seq<real>))
    ensures r.0 + r.1 == knots
    ensures 0 <= cut <= |knots| ==> |r.0| == cut
  {
    var b := SliceBound(cut, |knots|);
    assert knots[..b] + knots[b..] == knots;
    (knots[..b], knots[b..])
  }

  /** Splitting a concatenation at the length of its first part gives back the parts. */
  lemma KnotSplitConcat(a: seq<real>, b: seq<real>)
    ensures KnotSplit(a + b, |a|) == (a, b)
  {
    var r := KnotSplit(a + b, |a|);
    assert r.0 == (a + b)[..|a|];
    assert (a + b)[..|a|] == a;
  }

  // ---------------------------------------------------------------------------------------------
  // Compiled kernels, given as functions of the slot they fill.

  /** The arguments of the compiled surface-basis kernel. */
  datatype SurfaceBasisCall = SurfaceBasisCall(
    orderU: nat, numU: int, derivU: int, u: seq<real>, knotsU: seq<real>,
    orderV: nat, numV: int, derivV: int, v: seq<real>, knotsV: seq<real>,
    numPoints: nat)

  /** `get_open_uniform(order, n, out)` writes `openUniform(order, n, s)` into slot `s` of its
      output; `get_basis_surface_matrix` writes `surfaceBasis(call, s)` into slot `s` of its data,
      row-index and column-index buffers. */
  datatype Kernels = Kernels(
    openUniform: (nat, int, nat) -> real,
    surfaceBasis: (SurfaceBasisCall, nat) -> Triplet)

  /** The open-uniform knot vector of `n` coefficients of order `order`: `n + order` knots; a
      negative length raises. */
  function OpenUniformKnots(order: nat, n: int, k: Kernels): (r: Result<seq<real>, Error>)
    ensures r.Ok? <==> n + order >= 0
    ensures r.Ok? ==> |r.value| == n + order
    ensures r.Ok? ==> forall s :: 0 <= s < |r.value| ==> r.value[s] == k.openUniform(order, n, s)
  {
    if n + order < 0 then Err(NegativeDimension)
    else Ok(seq(n + order, (s: int) requires 0 <= s => k.openUniform(order, n, s)))
  }

  /** The knot vectors of the two parametric directions: generated open-uniform vectors when no
      knots are given, otherwise the given flat vector split after the first direction's
      `shape[0] + orderU` knots. */
  function SurfaceKnots(orderU: nat, orderV: nat, shape: seq<int>, knots: Option<seq<real>>, k: Kernels)
    : (r: Result<(seq<real>, seq<real>), Error>)
    ensures |shape| == 0 ==> r == Err(IndexOutOfRange)
    ensures knots.Some? ==> (r.Ok? <==> |shape| >= 1)
    ensures knots.Some? && r.Ok? ==> r.value.0 + r.value.1 == knots.value
    ensures knots.Some? && |shape| >= 1 && 0 <= shape[0] + orderU <= |knots.value| ==>
      r.Ok? && r.value.0 == knots.value[..shape[0] + orderU] && r.value.1 == knots.value[shape[0] + orderU..]
    ensures knots.None? ==> (r.Ok? <==> |shape| >= 2 && shape[0] + orderU >= 0 && shape[1] + orderV >= 0)
    ensures knots.None? && r.Ok? ==>
      |r.value.0| == shape[0] + orderU && |r.value.1| == shape[1] + orderV
    ensures knots.None? && r.Ok? ==>
      r.value.0 == OpenUniformKnots(orderU, shape[0], k).value
      && r.value.1 == OpenUniformKnots(orderV, shape[1], k).value
  {
    match knots
    case None =>
      if |shape| < 1 then Err(IndexOutOfRange)
      else
        var ku :- OpenUniformKnots(orderU, shape[0], k);
        if |shape| < 2 then Err(IndexOutOfRange)
        else
          var kv :- OpenUniformKnots(orderV, shape[1], k);
          Ok((ku, kv))
    case Some(given) =>
      if |shape| < 1 then Err(IndexOutOfRange)
      else Ok(KnotSplit(given, shape[0] + orderU))
  }

  /** Passing the concatenated open-uniform knot vectors explicitly gives the same knots as
      leaving them out. */
  lemma GivenOpenUniformKnotsAgree(orderU: nat, orderV: nat, shape: seq<int>, k: Kernels)
    requires SurfaceKnots(orderU, orderV, shape, None, k).Ok?
    ensures var kn := SurfaceKnots(orderU, orderV, shape, None, k).value;
      SurfaceKnots(orderU, orderV, shape, Some(kn.0 + kn.1), k) == Ok(kn)
  {
    var kn := SurfaceKnots(orderU, orderV, shape, None, k).value;
    KnotSplitConcat(kn.0, kn.1);
  }

  // ---------------------------------------------------------------------------------------------
  // Parametric coordinates.

  /** A parametric coordinate array of one or two axes: a single point, or one row per point. */
  predicate ValidCoordinates(coords: NdArray)
  {
    1 <= |coords.shape| <= 2
  }

  /** The number of points: one for a single point, otherwise the number of rows. */
  function PointCount(coords: NdArray): nat
    requires ValidCoordinates(coords)
  {
    if |coords.shape| == 1 then 1 else coords.shape[0]
  }

  /** The number of parametric dimensions: the length of the last axis. */
  function ParametricDims(coords: NdArray): nat
    requires ValidCoordinates(coords)
  {
    coords.shape[|coords.shape| - 1]
  }

  /** The coordinates form `PointCount` rows of `ParametricDims` entries. */
  lemma CoordinatesLayout(coords: NdArray)
    requires ValidCoordinates(coords)
    ensures |coords.data| == PointCount(coords) * ParametricDims(coords)
  {
    if |coords.shape| == 1 {
      assert coords.shape == [coords.shape[0]];
      ProdOne(coords.shape[0]);
    } else {
      assert coords.shape == [coords.shape[0], coords.shape[1]];
      ProdTwo(coords.shape[0], coords.shape[1]);
    }
  }

  /** `coords[:, j]`, coordinate `j` of every point. */
  function Coordinate(coords: NdArray, j: nat): (r: seq<real>)
    requires ValidCoordinates(coords) && j < ParametricDims(coords)
    ensures |r| == PointCount(coords)
  {
    CoordinatesLayout(coords);
    Column(coords.data, PointCount(coords), ParametricDims(coords), j)
  }

  /** Points given as `(u, v)` pairs, as a `len x 2` coordinate array. */
  function PointArray(points: seq<(real, real)>): (c: NdArray)
    ensures c.shape == [|points|, 2]
  {
    ProdTwo(|points|, 2);
    RawNdArray([|points|, 2], seq(|points| * 2, (s: int) requires 0 <= s < |points| * 2 =>
      if s % 2 == 0 then points[s / 2].0 else points[s / 2].1))
  }

  /** Row `p` of a point array holds the coordinates of point `p`. */
  lemma PointArrayRow(points: seq<(real, real)>, p: nat)
    requires p < |points|
    ensures var c := PointArray(points);
      ValidCoordinates(c) && PointCount(c) == |points| && ParametricDims(c) == 2
      && Coordinate(c, 0)[p] == points[p].0 && Coordinate(c, 1)[p] == points[p].1
  {
    var c := PointArray(points);
    CoordinatesLayout(c);
    ColumnAt(c.data, |points|, 2, 0, p);
    ColumnAt(c.data, |points|, 2, 1, p);
    DivModUnique(p * 2, 2, p, 0);
    DivModUnique(p * 2 + 1, 2, p, 1);
  }

  // ---------------------------------------------------------------------------------------------
  // The map.

  /** The kernel's arguments for a surface evaluation. */
  function BasisCall(coords: NdArray, order: seq<nat>, shape: seq<int>, knots: (seq<real>, seq<real>), derivs: seq<int>)
    : (c: SurfaceBasisCall)
    requires ValidCoordinates(coords) && ParametricDims(coords) == 2
    requires |order| >= 2 && |shape| >= 2 && |derivs| >= 2
    ensures c.numPoints == |c.u| == |c.v| == PointCount(coords)
  {
    SurfaceBasisCall(order[0], shape[0], derivs[0], Coordinate(coords, 0), knots.0,
                     order[1], shape[1], derivs[1], Coordinate(coords, 1), knots.1,
                     PointCount(coords))
  }

  /** The kernel's output buffers: `PointCount * prod(order)` slots. */
  function BasisTriplets(call: SurfaceBasisCall, order: seq<nat>, k: Kernels): (t: seq<Triplet>)
    ensures |t| == call.numPoints * Prod(order)
    ensures forall s :: 0 <= s < |t| ==> t[s] == k.surfaceBasis(call, s)
  {
    ProdOfNaturals(order);
    seq(call.numPoints * Prod(order), (s: int) requires 0 <= s => k.surfaceBasis(call, s))
  }

  /** The map before expansion: one row per point and one column per coefficient (the product
      of `shape`), holding the sum of the kernel's values for that (point, coefficient) slot.
      Only surfaces are evaluated: any other number of parametric dimensions leaves the
      coordinate vectors unbound. Too few orders, shape entries or derivative orders raise
      IndexError; negative knot-vector lengths and kernel indices outside the shape raise. */
  function ScalarEvaluationMap(coords: NdArray, order: seq<nat>, shape: seq<int>, knots: Option<seq<real>>,
                               deriv: DerivativeOrder, k: Kernels): (r: Result<Matrix, Error>)
    requires |coords.shape| <= 2
    ensures |coords.shape| == 0 ==> r == Err(IndexOutOfRange)
    ensures |coords.shape| == 2 && coords.shape[0] == 0 ==> r == Err(IndexOutOfRange)
    ensures ValidCoordinates(coords) && PointCount(coords) > 0 && ParametricDims(coords) != 2 ==>
      r == Err(UnboundVariable("u_vec"))
    ensures ValidCoordinates(coords) && PointCount(coords) > 0 && ParametricDims(coords) == 2 && |order| < 2 ==>
      r == Err(IndexOutOfRange)
    ensures r.Ok? ==>
      ValidCoordinates(coords) && ParametricDims(coords) == 2 && |order| >= 2 && |shape| >= 2
      && |NormaliseDerivativeOrder(deriv, 2)| >= 2
      && SurfaceKnots(order[0], order[1], shape, knots, k).Ok?
      && r.value.rows == PointCount(coords) && r.value.cols == Prod(shape)
    ensures r.Ok? ==>
      var t := BasisTriplets(BasisCall(coords, order, shape, SurfaceKnots(order[0], order[1], shape, knots, k).value,
                                       NormaliseDerivativeOrder(deriv, 2)), order, k);
      forall i, c :: 0 <= i < r.value.rows && 0 <= c < r.value.cols ==> r.value.at[i][c] == CooEntry(t, i, c)
  {
    if |coords.shape| == 0 || (|coords.shape| == 2 && coords.shape[0] == 0) then Err(IndexOutOfRange)
    else
      var derivs := NormaliseDerivativeOrder(deriv, ParametricDims(coords));
      if ParametricDims(coords) != 2 then Err(UnboundVariable("u_vec"))
      else if |order| < 2 then Err(IndexOutOfRange)
      else
        var knotsUV :- SurfaceKnots(order[0], order[1], shape, knots, k);
        if |shape| < 2 || |derivs| < 2 then Err(IndexOutOfRange)
        else
          var t := BasisTriplets(BasisCall(coords, order, shape, knotsUV, derivs), order, k);
          FromTriplets(PointCount(coords), Prod(shape), t)
  }

  /** The map as returned: for an expansion factor above one, every entry of the scalar map
      is repeated once per interleaved physical coordinate; otherwise the scalar map itself. */
  function ComputeEvaluationMap(coords: NdArray, order: seq<nat>, shape: seq<int>, knots: Option<seq<real>>,
                                deriv: DerivativeOrder, expansion: int, k: Kernels): (r: Result<Matrix, Error>)
    requires |coords.shape| <= 2
    ensures var base := ScalarEvaluationMap(coords, order, shape, knots, deriv, k);
      (r.Ok? <==> base.Ok?) && (r.Err? ==> r.error == base.error)
    ensures r.Ok? ==> var base := ScalarEvaluationMap(coords, order, shape, knots, deriv, k).value;
      var e := ExpansionFactor(expansion);
      r.value.rows == base.rows * e && r.value.cols == base.cols * e
  {
    var base :- ScalarEvaluationMap(coords, order, shape, knots, deriv, k);
    if expansion > 1 then Ok(Expand(base, expansion)) else Ok(base)
  }

  /** The number of interleaved components the returned map acts on. */
  function ExpansionFactor(expansion: int): (e: nat)
    ensures e >= 1 && (expansion >= 1 ==> e == expansion)
  {
    if expansion > 1 then expansion else 1
  }

  /** Entry `(p*e + i, c*e + j)` of the returned map is the scalar map's `(p, c)` entry when the
      physical components `i` and `j` agree and zero otherwise. */
  lemma EvaluationMapEntry(coords: NdArray, order: seq<nat>, shape: seq<int>, knots: Option<seq<real>>,
                           deriv: DerivativeOrder, expansion: int, k: Kernels, p: nat, i: nat, c: nat, j: nat)
    requires |coords.shape| <= 2
    requires ComputeEvaluationMap(coords, order, shape, knots, deriv, expansion, k).Ok?
    requires var base := ScalarEvaluationMap(coords, order, shape, knots, deriv, k).value;
      p < base.rows && c < base.cols && i < ExpansionFactor(expansion) && j < ExpansionFactor(expansion)
    ensures var base := ScalarEvaluationMap(coords, order, shape, knots, deriv, k).value;
      var e := ExpansionFactor(expansion);
      var m := ComputeEvaluationMap(coords, order, shape, knots, deriv, expansion, k).value;
      p * e + i < m.rows && c * e + j < m.cols
      && m.at[p * e + i][c * e + j] == if i == j then base.at[p][c] else 0.0
  {
    var base := ScalarEvaluationMap(coords, order, shape, knots, deriv, k).value;
    ExpandEntry(base, ExpansionFactor(expansion), p, i, c, j);
    if expansion <= 1 {
      ExpandByOne(base);
    }
  }

  /** Applying the returned map to an interleaved coefficient buffer applies the scalar map to
      each physical coordinate separately. */
  lemma EvaluationMapPerComponent(coords: NdArray, order: seq<nat>, shape: seq<int>, knots: Option<seq<real>>,
                                  deriv: DerivativeOrder, expansion: int, k: Kernels, x: seq<real>)
    requires |coords.shape| <= 2
    requires ComputeEvaluationMap(coords, order, shape, knots, deriv, expansion, k).Ok?
    requires |x| == ScalarEvaluationMap(coords, order, shape, knots, deriv, k).value.cols * ExpansionFactor(expansion)
    ensures var base := ScalarEvaluationMap(coords, order, shape, knots, deriv, k).value;
      var m := ComputeEvaluationMap(coords, order, shape, knots, deriv, expansion, k).value;
      |x| == m.cols && MatVec(m, x) == MatMul(base, x, ExpansionFactor(expansion))
  {
    var base := ScalarEvaluationMap(coords, order, shape, knots, deriv, k).value;
    if expansion <= 1 {
      ExpandByOne(base);
    }
    ExpandActsPerComponent(base, ExpansionFactor(expansion), x);
  }

  /** `generate_open_uniform_knot_vector(n, order)`. */
  function GenerateOpenUniformKnotVector(n: int, order: nat, k: Kernels): (r: Result<seq<real>, Error>)
    ensures r.Ok? <==> n + order >= 0
    ensures r.Ok? ==> |r.value| == n + order
    ensures r.Ok? ==> forall s :: 0 <= s < |r.value| ==> r.value[s] == k.openUniform(order, n, s)
  {
    OpenUniformKnots(order, n, k)
  }
}

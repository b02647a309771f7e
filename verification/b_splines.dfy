/** The B-spline object: its constructor's coefficient check, its evaluation map, evaluation, and
    projection of points onto the surface. */
module BSplines {
  import opened Wrappers
  import opened Errors
  import opened NdArrays
  import opened Matrices
  import opened EvaluationMaps

  /** The parts of a B-spline function space that the B-spline reads: its order per parametric
      direction, its knots (absent when open-uniform knots are to be generated, otherwise the
      per-direction vectors end to end) and its parametric coefficient shape. */
  datatype Space = Space(name: string, order: seq<nat>, knots: Option<seq<real>>, coefficientShape: seq<int>)

  /** A B-spline: a space, a coefficient array and the number of physical dimensions. */
  datatype BSpline = BSpline(name: string, space: Space, coefficients: NdArray, numPhysicalDimensions: nat)

  /** The coefficient shape: the parametric coefficient shape with the physical dimension appended. */
  function CoefficientsShape(space: Space, physical: nat): (s: seq<int>)
    ensures |s| == |space.coefficientShape| + 1 && s[|s| - 1] == physical
    ensures s[..|s| - 1] == space.coefficientShape
  {
    space.coefficientShape + [physical]
  }

  /** The number of coefficient entries the space and physical dimension call for. */
  function NumCoefficients(space: Space, physical: nat): (n: int)
    ensures n == Prod(space.coefficientShape) * physical
  {
    ProdAppend(space.coefficientShape, physical);
    Prod(CoefficientsShape(space, physical))
  }

  /** A spline whose coefficients are the flat vector of the expected length. */
  predicate WellFormed(b: BSpline)
  {
    b.coefficients.shape == [NumCoefficients(b.space, b.numPhysicalDimensions)]
  }

  /** The constructor's check. Coefficients whose leading length is already the expected count are
      kept as given; otherwise coefficients holding the expected number of entries are flattened,
      and any other array raises. A zero-dimensional array has no length and raises. */
  function NewBSpline(name: string, space: Space, coefficients: NdArray, physical: nat): (r: Result<BSpline, Error>)
    ensures |coefficients.shape| == 0 ==> r == Err(UnsizedObject)
    ensures r.Ok? <==>
      |coefficients.shape| >= 1
      && (coefficients.shape[0] == NumCoefficients(space, physical)
          || |coefficients.data| == NumCoefficients(space, physical))
    ensures r.Ok? ==>
      r.value.name == name && r.value.space == space && r.value.numPhysicalDimensions == physical
      && r.value.coefficients.data == coefficients.data
    ensures r.Ok? && coefficients.shape[0] == NumCoefficients(space, physical) ==>
      r.value.coefficients == coefficients
    ensures r.Ok? && coefficients.shape[0] != NumCoefficients(space, physical) ==> WellFormed(r.value)
  {
    var n := NumCoefficients(space, physical);
    if |coefficients.shape| == 0 then Err(UnsizedObject)
    else if coefficients.shape[0] != n then
      if |coefficients.data| == n then Ok(BSpline(name, space, Flatten(coefficients), physical))
      else Err(SizeMismatch)
    else Ok(BSpline(name, space, coefficients, physical))
  }

  /** A flat coefficient vector passes the check exactly when it has the expected length, and the
      resulting spline is well formed. */
  lemma NewBSplineFlat(name: string, space: Space, coefficients: NdArray, physical: nat)
    requires |coefficients.shape| == 1
    ensures NewBSpline(name, space, coefficients, physical).Ok?
        <==> |coefficients.data| == NumCoefficients(space, physical)
    ensures NewBSpline(name, space, coefficients, physical).Ok? ==>
      WellFormed(NewBSpline(name, space, coefficients, physical).value)
  {
    ProdOne(coefficients.shape[0]);
    assert coefficients.shape == [coefficients.shape[0]];
  }

  /** Constructing a spline again from a constructed spline's coefficients gives the same spline. */
  lemma NewBSplineStable(name: string, space: Space, coefficients: NdArray, physical: nat)
    requires NewBSpline(name, space, coefficients, physical).Ok?
    ensures var b := NewBSpline(name, space, coefficients, physical).value;
      NewBSpline(name, space, b.coefficients, physical) == Ok(b)
  {
  }

  /** `BSpline.compute_evaluation_map`: the evaluation map expanded over the physical dimensions.
      Without the expansion the expansion factor is never bound, and the call raises. */
  function ComputeEvaluationMap(b: BSpline, coords: NdArray, deriv: DerivativeOrder, expand: bool, k: Kernels)
    : (r: Result<Matrix, Error>)
    requires |coords.shape| <= 2
    ensures !expand ==> r == Err(UnboundVariable("expansion_factor"))
    ensures expand ==> var base := ScalarEvaluationMap(coords, b.space.order, b.space.coefficientShape, b.space.knots, deriv, k);
      (r.Ok? <==> base.Ok?)
      && (r.Ok? ==>
            r.value.rows == base.value.rows * ExpansionFactor(b.numPhysicalDimensions)
            && r.value.cols == base.value.cols * ExpansionFactor(b.numPhysicalDimensions))
  {
    if !expand then Err(UnboundVariable("expansion_factor"))
    else
      EvaluationMaps.ComputeEvaluationMap(coords, b.space.order, b.space.coefficientShape, b.space.knots,
                                          deriv, b.numPhysicalDimensions, k)
  }

  /** `BSpline.evaluate`: the expanded evaluation map applied to the coefficients. */
  function Evaluate(b: BSpline, coords: NdArray, deriv: DerivativeOrder, k: Kernels): (r: Result<NdArray, Error>)
    requires |coords.shape| <= 2
    ensures r.Ok? ==> ComputeEvaluationMap(b, coords, deriv, true, k).Ok?
    ensures r.Ok? && WellFormed(b) ==>
      r.value.shape == [ComputeEvaluationMap(b, coords, deriv, true, k).value.rows]
  {
    var m :- ComputeEvaluationMap(b, coords, deriv, true, k);
    Apply(m, b.coefficients)
  }

  /** A well-formed spline with at least one physical dimension is evaluated coordinate by
      coordinate: output entry `p * P + i` is the scalar basis at point `p` applied to coordinate `i`
      of the coefficients. */
  lemma EvaluatePerComponent(b: BSpline, coords: NdArray, deriv: DerivativeOrder, k: Kernels)
    requires |coords.shape| <= 2 && WellFormed(b) && b.numPhysicalDimensions >= 1
    requires ScalarEvaluationMap(coords, b.space.order, b.space.coefficientShape, b.space.knots, deriv, k).Ok?
    ensures var base := ScalarEvaluationMap(coords, b.space.order, b.space.coefficientShape, b.space.knots, deriv, k).value;
      var P := b.numPhysicalDimensions;
      Evaluate(b, coords, deriv, k).Ok?
      && |b.coefficients.data| == base.cols * P
      && Evaluate(b, coords, deriv, k).value.data == MatMul(base, b.coefficients.data, P)
  {
    var P := b.numPhysicalDimensions;
    var base := ScalarEvaluationMap(coords, b.space.order, b.space.coefficientShape, b.space.knots, deriv, k).value;
    ProdOne(NumCoefficients(b.space, P));
    assert |b.coefficients.data| == base.cols * P;
    EvaluationMapPerComponent(coords, b.space.order, b.space.coefficientShape, b.space.knots, deriv, P, k,
                              b.coefficients.data);
  }

  /** Evaluation is linear in the coefficients. */
  lemma EvaluateLinear(b1: BSpline, c2: NdArray, alpha: real, beta: real, coords: NdArray, deriv: DerivativeOrder, k: Kernels)
    requires |coords.shape| <= 2 && c2.shape == b1.coefficients.shape
    requires Evaluate(b1, coords, deriv, k).Ok?
    ensures var b2 := b1.(coefficients := c2);
      var b := b1.(coefficients := RawNdArray(c2.shape, Combine(alpha, b1.coefficients.data, beta, c2.data)));
      Evaluate(b, coords, deriv, k).Ok? && Evaluate(b2, coords, deriv, k).Ok?
      && Evaluate(b, coords, deriv, k).value.data
         == Combine(alpha, Evaluate(b1, coords, deriv, k).value.data, beta, Evaluate(b2, coords, deriv, k).value.data)
  {
    var m := ComputeEvaluationMap(b1, coords, deriv, true, k).value;
    ApplyLinear(m, b1.coefficients, c2, alpha, beta);
  }

  // ---------------------------------------------------------------------------------------------
  // Projection.

  /** The arguments of the compiled surface-projection kernel. */
  datatype ProjectionQuery = ProjectionQuery(
    orderU: nat, numU: int, orderV: nat, numV: int, numPoints: nat, maxIterations: int,
    points: seq<real>, coefficients: seq<real>, knots: Option<seq<real>>, gridSearchDensity: int,
    direction: seq<real>)

  /** The kernel writes `projector(query, p)` as the `(u, v)` coordinates of point `p`. */
  type Projector = (ProjectionQuery, nat) -> (real, real)

  /** What `project` returns: the parametric coordinates, one `(u, v)` row per point, or the
      projected points as the evaluation map at those coordinates applied to the coefficients,
      to be read in the shape of the input. */
  datatype ProjectionOutput =
    | ParametricCoordinates(coords: NdArray)
    | ProjectedPoints(evaluationMap: Matrix, coefficients: NdArray, shape: seq<nat>)

  /** The number of points: the product of all axes but the last, and one for a single point. */
  function QueryPointCount(shape: seq<nat>): (n: nat)
    ensures |shape| <= 1 ==> n == 1
    ensures |shape| >= 2 ==> n * shape[|shape| - 1] == Prod(shape)
  {
    if |shape| > 1 then
      ProdOfNaturals(shape[..|shape| - 1]);
      ProdAppend(shape[..|shape| - 1], shape[|shape| - 1]);
      assert shape[..|shape| - 1] + [shape[|shape| - 1]] == shape;
      Prod(shape[..|shape| - 1])
    else 1
  }

  /** The projection directions: zeros, one entry per point and coordinate of the (already
      multiplied) point array, when none is given; otherwise the given direction once per point.
      Without a direction a zero-dimensional point array raises. */
  function ProjectionDirection(shape: seq<nat>, direction: Option<seq<real>>): (r: Result<seq<real>, Error>)
    ensures r.Err? <==> direction.None? && |shape| == 0
    ensures r.Ok? && direction.None? ==>
      Prod(shape) >= 0 && |r.value| == QueryPointCount(shape) * Prod(shape)
      && forall i :: 0 <= i < |r.value| ==> r.value[i] == 0.0
    ensures r.Ok? && direction.Some? ==>
      |r.value| == |direction.value| * QueryPointCount(shape)
  {
    match direction
    case None =>
      if |shape| == 0 then Err(IndexOutOfRange)
      else
        ProdOfNaturals(shape);
        Ok(Repeat(0.0, QueryPointCount(shape) * Prod(shape)))
    case Some(d) => Ok(Tile(d, QueryPointCount(shape)))
  }

  /** A given direction is repeated: the entry for point `p` and coordinate `i` is entry `i` of
      the direction. */
  lemma ProjectionDirectionRepeats(shape: seq<nat>, d: seq<real>, p: nat, i: nat)
    requires p < QueryPointCount(shape) && i < |d|
    ensures ProjectionDirection(shape, Some(d)).Ok?
    ensures p * |d| + i < |ProjectionDirection(shape, Some(d)).value|
    ensures ProjectionDirection(shape, Some(d)).value[p * |d| + i] == d[i]
  {
    var n := QueryPointCount(shape);
    FlatIndexBound(p, i, n, |d|);
    TileIndex(d, n, p * |d| + i);
    DivModUnique(p * |d| + i, |d|, p, i);
  }

  /** The `(u, v)` rows the kernel produced, as a `numPoints x 2` array. */
  function StackCoordinates(q: ProjectionQuery, projector: Projector): (c: NdArray)
    ensures ValidCoordinates(c) && PointCount(c) == q.numPoints && ParametricDims(c) == 2
    ensures forall p :: 0 <= p < q.numPoints ==>
      Coordinate(c, 0)[p] == projector(q, p).0 && Coordinate(c, 1)[p] == projector(q, p).1
  {
    var points := seq(q.numPoints, p requires 0 <= p => projector(q, p));
    var c := PointArray(points);
    forall p | 0 <= p < q.numPoints
      ensures Coordinate(c, 0)[p] == projector(q, p).0 && Coordinate(c, 1)[p] == projector(q, p).1
    {
      PointArrayRow(points, p);
    }
    c
  }

  /** The kernel's arguments for a projection, or the IndexError raised while gathering them. */
  function ProjectionArguments(b: BSpline, points: NdArray, direction: Option<seq<real>>, gridSearchDensity: int,
                               maxIterations: int): (r: Result<ProjectionQuery, Error>)
    ensures r.Ok? ==> r.value.numPoints == QueryPointCount(points.shape) && r.value.points == points.data
    ensures r.Ok? <==> ProjectionDirection(points.shape, direction).Ok?
                       && |b.space.order| >= 2 && |b.space.coefficientShape| >= 1
  {
    var dir :- ProjectionDirection(points.shape, direction);
    if |b.space.order| < 2 || |b.space.coefficientShape| < 1 then Err(IndexOutOfRange)
    else
      var shape := CoefficientsShape(b.space, b.numPhysicalDimensions);
      Ok(ProjectionQuery(b.space.order[0], shape[0], b.space.order[1], shape[1], QueryPointCount(points.shape),
                         maxIterations, points.data, b.coefficients.data, b.space.knots, gridSearchDensity, dir))
  }

  /** `BSpline.project`: the kernel finds `(u, v)` for every point; the evaluation map at those
      coordinates is built whichever output is asked for. */
  function Project(b: BSpline, points: NdArray, direction: Option<seq<real>>, gridSearchDensity: int, maxIterations: int,
                   returnParametric: bool, projector: Projector, k: Kernels): (r: Result<ProjectionOutput, Error>)
    ensures r.Ok? ==> ProjectionArguments(b, points, direction, gridSearchDensity, maxIterations).Ok?
    ensures r.Ok? && returnParametric ==>
      r.value.ParametricCoordinates?
      && r.value.coords == StackCoordinates(ProjectionArguments(b, points, direction, gridSearchDensity, maxIterations).value, projector)
    ensures r.Ok? && !returnParametric ==>
      r.value.ProjectedPoints?
      && r.value.coefficients == b.coefficients && r.value.shape == points.shape
      && r.value.evaluationMap.rows == QueryPointCount(points.shape) * ExpansionFactor(b.numPhysicalDimensions)
  {
    var q :- ProjectionArguments(b, points, direction, gridSearchDensity, maxIterations);
    var coords := StackCoordinates(q, projector);
    var evalMap :- ComputeEvaluationMap(b, coords, Unspecified, true, k);
    if returnParametric then Ok(ParametricCoordinates(coords))
    else Ok(ProjectedPoints(evalMap, b.coefficients, points.shape))
  }

  /** Both outputs agree: projection succeeds in one mode exactly when it does in the other, and the
      projected points are the spline's expanded evaluation map at the returned parametric
      coordinates. */
  lemma ProjectModesAgree(b: BSpline, points: NdArray, direction: Option<seq<real>>, gridSearchDensity: int,
                          maxIterations: int, projector: Projector, k: Kernels)
    ensures var rp := Project(b, points, direction, gridSearchDensity, maxIterations, true, projector, k);
      var rm := Project(b, points, direction, gridSearchDensity, maxIterations, false, projector, k);
      (rp.Ok? <==> rm.Ok?)
      && (rp.Ok? ==> |rp.value.coords.shape| <= 2
                     && rm.value.evaluationMap == ComputeEvaluationMap(b, rp.value.coords, Unspecified, true, k).value)
  {
  }
}

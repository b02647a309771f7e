/** The sampling grid used when a B-spline of a set is refitted: a row-major grid of parametric
    points over the unit square, and the samples of the surface at those points. */
module RefitGrids {
  import opened Wrappers
  import opened Errors
  import opened NdArrays
  import opened Matrices
  import opened EvaluationMaps

  /** A per-direction setting (coefficient counts, resolution, order): one integer for both
      directions, or a tuple. */
  datatype PairSetting = IntSetting(n: int) | TupleSetting(t: seq<int>)

  /** The per-direction values: an integer or a one-element tuple is used for both directions;
      any other tuple is kept, and one shorter than two raises once its second entry is read. */
  function NormalisePair(s: PairSetting): (r: Result<(int, int), Error>)
    ensures s.IntSetting? ==> r == Ok((s.n, s.n))
    ensures s.TupleSetting? ==> (r.Ok? <==> |s.t| != 0)
    ensures s.TupleSetting? && |s.t| == 1 ==> r == Ok((s.t[0], s.t[0]))
    ensures s.TupleSetting? && |s.t| >= 2 ==> r == Ok((s.t[0], s.t[1]))
  {
    match s
    case IntSetting(n) => Ok((n, n))
    case TupleSetting(t) =>
      if |t| == 1 then Ok((t[0], t[0]))
      else if |t| < 2 then Err(IndexOutOfRange)
      else Ok((t[0], t[1]))
  }

  /** The `k`-th grid point: the `k / nv`-th sample along u and the `k % nv`-th along v. */
  function GridPoint(nu: nat, nv: nat, k: nat): (p: (real, real))
    requires k < nu * nv
  {
    RowMajorSplit(k, nu, nv);
    (UnitLinspace(nu)[k / nv], UnitLinspace(nv)[k % nv])
  }

  /** The `nu * nv` grid points, u varying slowest, as a coordinate array of two columns; a
      negative count raises. */
  function RefitGrid(resolution: PairSetting): (r: Result<NdArray, Error>)
    ensures NormalisePair(resolution).Err? ==> r.Err?
    ensures r.Ok? <==> NormalisePair(resolution).Ok?
                       && NormalisePair(resolution).value.0 >= 0 && NormalisePair(resolution).value.1 >= 0
    ensures r.Ok? ==>
      var (nu, nv) := NormalisePair(resolution).value;
      ValidCoordinates(r.value) && ParametricDims(r.value) == 2 && PointCount(r.value) == nu * nv
  {
    var (nu, nv) :- NormalisePair(resolution);
    if nu < 0 || nv < 0 then Err(NegativeDimension)
    else
      var points := seq(nu * nv, (k: int) requires 0 <= k < nu * nv => GridPoint(nu, nv, k));
      var c := PointArray(points);
      Ok(c)
  }

  /** Grid point `i * nv + j` is the `i`-th u sample paired with the `j`-th v sample. */
  lemma RefitGridRowMajor(resolution: PairSetting, i: nat, j: nat)
    requires RefitGrid(resolution).Ok?
    requires i < NormalisePair(resolution).value.0 && j < NormalisePair(resolution).value.1
    ensures var (nu, nv) := NormalisePair(resolution).value;
      var g := RefitGrid(resolution).value;
      i * nv + j < PointCount(g)
      && Coordinate(g, 0)[i * nv + j] == UnitLinspace(nu)[i]
      && Coordinate(g, 1)[i * nv + j] == UnitLinspace(nv)[j]
  {
    var (nu, nv) := NormalisePair(resolution).value;
    var points := seq(nu * nv, (k: int) requires 0 <= k < nu * nv => GridPoint(nu, nv, k));
    FlatIndexBound(i, j, nu, nv);
    PointArrayRow(points, i * nv + j);
    DivModUnique(i * nv + j, nv, i, j);
  }

  /** Every grid point lies in the unit square. */
  lemma RefitGridInUnitSquare(resolution: PairSetting, k: nat)
    requires RefitGrid(resolution).Ok? && k < PointCount(RefitGrid(resolution).value)
    ensures var g := RefitGrid(resolution).value;
      0.0 <= Coordinate(g, 0)[k] <= 1.0 && 0.0 <= Coordinate(g, 1)[k] <= 1.0
  {
    var (nu, nv) := NormalisePair(resolution).value;
    var points := seq(nu * nv, (k: int) requires 0 <= k < nu * nv => GridPoint(nu, nv, k));
    PointArrayRow(points, k);
    RowMajorSplit(k, nu, nv);
    UnitLinspaceInUnitInterval(nu);
    UnitLinspaceInUnitInterval(nv);
  }

  /** The surface sampled on the grid: the evaluation map applied to the member's coefficients read
      as one row per coefficient, reshaped to `nu x nv x dims`; a coefficient count that does not
      divide evenly, or samples that do not fill that shape, raise. */
  function SampleGrid(nu: nat, nv: nat, dims: nat, evaluationMap: Matrix, coefficients: NdArray)
    : (r: Result<NdArray, Error>)
    ensures r.Ok? <==> ApplyReshaped(evaluationMap, coefficients).Ok?
                       && |ApplyReshaped(evaluationMap, coefficients).value.data| == nu * nv * dims
    ensures r.Ok? ==> r.value.shape == [nu, nv, dims]
                      && r.value.data == ApplyReshaped(evaluationMap, coefficients).value.data
  {
    var samples :- ApplyReshaped(evaluationMap, coefficients);
    if |samples.data| != nu * nv * dims then Err(ReshapeFailure)
    else
      ProdThree(nu, nv, dims);
      Ok(RawNdArray([nu, nv, dims], samples.data))
  }

  lemma ProdThree(a: int, b: int, c: int)
    ensures Prod([a, b, c]) == a * b * c
  {
    assert [a, b, c][1..] == [b, c];
    ProdTwo(b, c);
  }

  /** Sampling is linear in the coefficients. */
  lemma SampleGridLinear(nu: nat, nv: nat, dims: nat, m: Matrix, c1: NdArray, c2: NdArray, alpha: real, beta: real)
    requires c1.shape == c2.shape && SampleGrid(nu, nv, dims, m, c1).Ok?
    ensures var c: NdArray := RawNdArray(c1.shape, Combine(alpha, c1.data, beta, c2.data));
      SampleGrid(nu, nv, dims, m, c).Ok? && SampleGrid(nu, nv, dims, m, c2).Ok?
      && SampleGrid(nu, nv, dims, m, c).value.data
         == Combine(alpha, SampleGrid(nu, nv, dims, m, c1).value.data, beta, SampleGrid(nu, nv, dims, m, c2).value.data)
  {
    ApplyReshapedLinear(m, c1, c2, alpha, beta);
  }
}

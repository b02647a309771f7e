/** The Cartesian enclosure block: a lattice B-spline whose corners are the vertices of the
    axis-aligned bounding box of a point cloud. */
module Enclosures {
  import opened Wrappers
  import opened Errors
  import opened NdArrays
  import opened Matrices
  import opened EvaluationMaps
  import opened BSplines
  import opened Lattices

  // ---------------------------------------------------------------------------------------------
  // Binary digits, as `bin(p)[2:].zfill(w)` spells them.

  function Pow2(n: nat): (r: nat)
    ensures r >= 1
  {
    if n == 0 then 1 else 2 * Pow2(n - 1)
  }

  lemma {:induction false} Pow2Monotone(a: nat, b: nat)
    requires a <= b
    ensures Pow2(a) <= Pow2(b)
  {
    if a < b {
      Pow2Monotone(a, b - 1);
    }
  }

  lemma {:induction false} Pow2Add(a: nat, b: nat)
    ensures Pow2(a + b) == Pow2(a) * Pow2(b)
  {
    if a > 0 {
      Pow2Add(a - 1, b);
      MulAssociates(2, Pow2(a - 1), Pow2(b));
    }
  }

  /** The binary digits of `p`, most significant first and without leading zeros; zero is one digit. */
  function Bits(p: nat): (r: seq<nat>)
    ensures |r| >= 1
    decreases p
  {
    if p < 2 then [p] else Bits(p / 2) + [p % 2]
  }

  /** `p` has `|Bits(p)|` digits: below the next power of two, and, unless it is a single digit, at
      least the power its leading one stands for. */
  lemma {:induction false} BitsValue(p: nat)
    ensures p < Pow2(|Bits(p)|)
    ensures |Bits(p)| == 1 || Pow2(|Bits(p)| - 1) <= p
  {
    if p >= 2 {
      BitsValue(p / 2);
      var l := |Bits(p / 2)|;
      assert |Bits(p)| == l + 1;
      assert p == 2 * (p / 2) + p % 2;
    }
  }

  lemma DivDiv(p: nat, a: nat, b: nat)
    requires a > 0 && b > 0
    ensures p / a / b == p / (a * b)
  {
    var q, r1, r2 := p / a / b, p % a, (p / a) % b;
    assert p == (p / a) * a + r1;
    assert p / a == q * b + r2;
    assert p == q * (a * b) + (r2 * a + r1) by {
      assert (q * b + r2) * a == q * (a * b) + r2 * a;
    }
    MulMonotone(r2, b - 1, a);
    assert (b - 1) * a == a * b - a;
    DivModUnique(p, a * b, q, r2 * a + r1);
  }

  /** Digit `j` of `p` is the bit of weight `2^(|Bits(p)| - 1 - j)`. */
  lemma {:induction false} BitsAt(p: nat, j: nat)
    requires j < |Bits(p)|
    ensures Bits(p)[j] == (p / Pow2(|Bits(p)| - 1 - j)) % 2
  {
    if p >= 2 {
      var l := |Bits(p)|;
      if j < l - 1 {
        BitsAt(p / 2, j);
        DivDiv(p, 2, Pow2(l - 2 - j));
      }
    }
  }

  /** `str.zfill(w)` of a digit string: zeros on the left up to width `w`; a longer string is kept. */
  function ZFill(s: seq<nat>, w: nat): (r: seq<nat>)
    ensures |r| == if |s| >= w then |s| else w
    ensures |s| < w ==> r[w - |s|..] == s && forall i :: 0 <= i < w - |s| ==> r[i] == 0
  {
    if |s| >= w then s else Repeat(0, w - |s|) + s
  }

  /** For `p < 2^w`, character `d` of the zero-filled binary string is the bit of weight `2^(w - 1 - d)`. */
  lemma ZFillBit(p: nat, w: nat, d: nat)
    requires p < Pow2(w) && d < w
    ensures d < |ZFill(Bits(p), w)|
    ensures ZFill(Bits(p), w)[d] == (p / Pow2(w - 1 - d)) % 2
  {
    var l := |Bits(p)|;
    BitsValue(p);
    if l > w {
      Pow2Monotone(w, l - 1);
      assert false;
    }
    var pad := w - l;
    if d < pad {
      Pow2Monotone(l, w - 1 - d);
      DivModUnique(p, Pow2(w - 1 - d), 0, p);
    } else if l < w {
      assert ZFill(Bits(p), w)[d] == Bits(p)[d - pad];
      BitsAt(p, d - pad);
    } else {
      BitsAt(p, d);
    }
  }

  /** `2^D - 1` has a one in every one of its `D` lowest bits. */
  lemma AllOnesBit(n: nat, m: nat)
    requires m < n
    ensures ((Pow2(n) - 1) / Pow2(m)) % 2 == 1
  {
    var b, w := Pow2(n - m - 1), Pow2(m);
    assert Pow2(n) == 2 * b * w by {
      Pow2Add(n - m, m);
      assert Pow2(n - m) == 2 * b;
    }
    AllOnesSplit(b, w);
  }

  /** `2bw - 1` divided by `w` is `2b - 1`, which is odd. */
  lemma AllOnesSplit(b: nat, w: nat)
    requires b >= 1 && w >= 1
    ensures ((2 * b * w - 1) / w) % 2 == 1
  {
    assert 2 * b * w - 1 == (2 * b - 1) * w + (w - 1);
    DivModUnique(2 * b * w - 1, w, 2 * b - 1, w - 1);
    DivModUnique(2 * b - 1, 2, b - 1, 1);
  }

  // ---------------------------------------------------------------------------------------------
  // The bounding box of the points.

  function MinOf(s: seq<real>): (m: real)
    requires |s| > 0
    ensures m in s && forall i :: 0 <= i < |s| ==> m <= s[i]
  {
    if |s| == 1 then s[0]
    else
      var rest := MinOf(s[1..]);
      if s[0] <= rest then s[0] else rest
  }

  function MaxOf(s: seq<real>): (m: real)
    requires |s| > 0
    ensures m in s && forall i :: 0 <= i < |s| ==> s[i] <= m
  {
    if |s| == 1 then s[0]
    else
      var rest := MaxOf(s[1..]);
      if s[0] >= rest then s[0] else rest
  }

  /** The points read as rows of `dims` coordinates, as `points.reshape((-1, dims))` reads them. */
  predicate Reshapable(data: seq<real>, dims: nat)
  {
    dims > 0 && |data| % dims == 0
  }

  function Rows(data: seq<real>, dims: nat): (n: nat)
    requires Reshapable(data, dims)
    ensures |data| == n * dims
  {
    assert |data| == (|data| / dims) * dims + |data| % dims;
    |data| / dims
  }

  /** The least and greatest value of every coordinate over the points. */
  function Bounds(data: seq<real>, dims: nat): (r: (seq<real>, seq<real>))
    requires Reshapable(data, dims) && |data| > 0
    ensures |r.0| == dims && |r.1| == dims
  {
    var rows := Rows(data, dims);
    (seq(dims, d requires 0 <= d < dims => MinOf(Column(data, rows, dims, d))),
     seq(dims, d requires 0 <= d < dims => MaxOf(Column(data, rows, dims, d))))
  }

  /** Every point lies in the box, and every face of the box touches a point. */
  lemma BoundsEnclose(data: seq<real>, dims: nat, row: nat, d: nat)
    requires Reshapable(data, dims) && |data| > 0 && row < Rows(data, dims) && d < dims
    ensures row * dims + d < |data|
    ensures Bounds(data, dims).0[d] <= data[row * dims + d] <= Bounds(data, dims).1[d]
    ensures Bounds(data, dims).0[d] in Column(data, Rows(data, dims), dims, d)
    ensures Bounds(data, dims).1[d] in Column(data, Rows(data, dims), dims, d)
  {
    ColumnAt(data, Rows(data, dims), dims, d, row);
  }

  // ---------------------------------------------------------------------------------------------
  // The corners.

  /** Flat entry `i` of the corner array: coordinate `i % dphys` of corner `i / dphys`, the minimum
      or the maximum as the binary digit of the corner number in that coordinate's position says. */
  function CornerEntry(mins: seq<real>, maxs: seq<real>, dphys: nat, i: nat): real
    requires dphys > 0 && |mins| == dphys && |maxs| == dphys
  {
    var bits := ZFill(Bits(i / dphys), dphys);
    if bits[i % dphys] == 0 then mins[i % dphys] else maxs[i % dphys]
  }

  /** The `(2,)*dpar + (dphys,)` corner array. */
  function CornerArray(mins: seq<real>, maxs: seq<real>, dpar: nat, dphys: nat): (c: NdArray)
    requires dphys > 0 && |mins| == dphys && |maxs| == dphys
    ensures c.shape == Repeat<nat>(2, dpar) + [dphys]
  {
    CornerShapeCount(dpar, dphys);
    var n := Pow2(dpar) * dphys;
    RawNdArray(Repeat<nat>(2, dpar) + [dphys], seq(n, (i: int) requires 0 <= i < n => CornerEntry(mins, maxs, dphys, i)))
  }

  lemma {:induction false} ProdRepeatTwo(n: nat)
    ensures Prod(Repeat<nat>(2, n)) == Pow2(n)
  {
    if n > 0 {
      assert Repeat<nat>(2, n)[1..] == Repeat<nat>(2, n - 1);
      ProdRepeatTwo(n - 1);
    }
  }

  lemma CornerShapeCount(dpar: nat, dphys: nat)
    ensures Prod(Repeat<nat>(2, dpar) + [dphys]) == Pow2(dpar) * dphys
  {
    ProdAppend(Repeat<nat>(2, dpar), dphys);
    ProdRepeatTwo(dpar);
  }

  /** The corner loop as written: a running coordinate counter that wraps at `dphys` instead of a
      remainder, filling the flat corner buffer entry by entry. */
  method FillCorners(mins: seq<real>, maxs: seq<real>, dpar: nat, dphys: nat) returns (corners: seq<real>)
    requires dphys > 0 && |mins| == dphys && |maxs| == dphys
    ensures corners == CornerArray(mins, maxs, dpar, dphys).data
  {
    var n := Pow2(dpar) * dphys;
    corners := [];
    var coordinate := 0;
    var i := 0;
    while i < n
      invariant 0 <= i <= n && |corners| == i
      invariant coordinate == i % dphys
      invariant forall j :: 0 <= j < i ==> corners[j] == CornerEntry(mins, maxs, dphys, j)
    {
      var bits := ZFill(Bits(i / dphys), dphys);
      var value := if bits[coordinate] == 0 then mins[coordinate] else maxs[coordinate];
      corners := corners + [value];
      coordinate := coordinate + 1;
      if coordinate == dphys {
        coordinate := 0;
      }
      CounterWraps(i, dphys);
      i := i + 1;
    }
  }

  /** Incrementing and wrapping at `n` keeps a counter equal to the index's remainder. */
  lemma CounterWraps(i: nat, n: nat)
    requires n > 0
    ensures (i + 1) % n == if i % n + 1 == n then 0 else i % n + 1
  {
    if i % n + 1 == n {
      DivModUnique(i + 1, n, i / n + 1, 0);
    } else {
      DivModUnique(i + 1, n, i / n, i % n + 1);
    }
  }

  /** When there are no more parametric than physical axes, coordinate `d` of corner `p` is the
      box's minimum or maximum in that coordinate as bit `dphys - 1 - d` of `p` is zero or one. */
  lemma CornerIsBoxVertex(mins: seq<real>, maxs: seq<real>, dpar: nat, dphys: nat, p: nat, d: nat)
    requires dphys > 0 && |mins| == dphys && |maxs| == dphys && dpar <= dphys
    requires p < Pow2(dpar) && d < dphys
    ensures p * dphys + d < |CornerArray(mins, maxs, dpar, dphys).data|
    ensures CornerArray(mins, maxs, dpar, dphys).data[p * dphys + d]
            == if (p / Pow2(dphys - 1 - d)) % 2 == 0 then mins[d] else maxs[d]
  {
    FlatIndexBound(p, d, Pow2(dpar), dphys);
    DivModUnique(p * dphys + d, dphys, p, d);
    Pow2Monotone(dpar, dphys);
    ZFillBit(p, dphys, d);
  }

  /** The first corner is the minimum point of the box, whatever the axis counts: the zero-filled
      digits of corner 0 are all zeros. */
  lemma FirstCornerIsMin(mins: seq<real>, maxs: seq<real>, dpar: nat, dphys: nat, d: nat)
    requires dphys > 0 && |mins| == dphys && |maxs| == dphys && d < dphys
    ensures d < |CornerArray(mins, maxs, dpar, dphys).data|
    ensures CornerArray(mins, maxs, dpar, dphys).data[d] == mins[d]
  {
    CornerShapeCount(dpar, dphys);
    FlatIndexBound(0, d, Pow2(dpar), dphys);
    DivModUnique(d, dphys, 0, d);
  }

  /** `2^n - 1` is written with exactly `n` binary digits. */
  lemma {:induction false} AllOnesLength(n: nat)
    requires n >= 1
    ensures |Bits(Pow2(n) - 1)| == n
  {
    if n >= 2 {
      var p := Pow2(n) - 1;
      DivModUnique(p, 2, Pow2(n - 1) - 1, 1);
      AllOnesLength(n - 1);
    }
  }

  /** With at least as many parametric as physical axes, the last corner is the maximum point of the
      box: its binary string is all ones and needs no padding. */
  lemma LastCornerIsMax(mins: seq<real>, maxs: seq<real>, dpar: nat, dphys: nat, d: nat)
    requires dphys > 0 && |mins| == dphys && |maxs| == dphys && dphys <= dpar && d < dphys
    ensures (Pow2(dpar) - 1) * dphys + d < |CornerArray(mins, maxs, dpar, dphys).data|
    ensures CornerArray(mins, maxs, dpar, dphys).data[(Pow2(dpar) - 1) * dphys + d] == maxs[d]
  {
    var p := Pow2(dpar) - 1;
    CornerShapeCount(dpar, dphys);
    FlatIndexBound(p, d, Pow2(dpar), dphys);
    DivModUnique(p * dphys + d, dphys, p, d);
    AllOnesLength(dpar);
    assert ZFill(Bits(p), dphys) == Bits(p);
    BitsAt(p, d);
    AllOnesBit(dpar, dpar - 1 - d);
  }

  // ---------------------------------------------------------------------------------------------
  // The block.

  /** A count or order given for every axis at once, or as a tuple. */
  datatype Setting = Uniform(n: nat) | PerAxis(t: seq<nat>)

  /** An integer setting is used for every parametric axis; a tuple is kept as given. */
  function AxisValues(s: Setting, dpar: nat): (r: seq<nat>)
    ensures s.Uniform? ==> |r| == dpar && forall i :: 0 <= i < dpar ==> r[i] == s.n
    ensures s.PerAxis? ==> r == s.t
  {
    match s
    case Uniform(n) => Repeat(n, dpar)
    case PerAxis(t) => t
  }

  /** One generated open-uniform knot vector per coefficient count; reading an order that is not
      there raises. */
  function AxisKnots(counts: seq<nat>, order: seq<nat>, k: Kernels): (r: Result<seq<seq<real>>, Error>)
    ensures r.Ok? <==> |counts| <= |order|
    ensures r.Ok? ==>
      |r.value| == |counts|
      && forall i :: 0 <= i < |counts| ==> r.value[i] == GenerateOpenUniformKnotVector(counts[i], order[i], k).value
  {
    if |order| < |counts| then Err(IndexOutOfRange)
    else Ok(seq(|counts|, i requires 0 <= i < |counts| => GenerateOpenUniformKnotVector(counts[i], order[i], k).value))
  }

  /** `create_cartesian_enclosure_block`: the bounding box of the points, read as rows of `dphys`
      coordinates, spanned by a lattice with `dpar` parametric axes. */
  function CreateCartesianEnclosureBlock(name: string, points: NdArray, counts: Setting, order: Setting,
                                         knots: Wrappers.Option<seq<seq<real>>>, dpar: nat, dphys: nat, k: Kernels)
    : (r: Result<BSpline, Error>)
    ensures knots.None? && |AxisValues(order, dpar)| < |AxisValues(counts, dpar)| ==> r == Err(IndexOutOfRange)
    ensures r.Ok? ==> Reshapable(points.data, dphys) && |points.data| > 0
    ensures r.Ok? ==> r.value.numPhysicalDimensions == dphys && |r.value.space.coefficientShape| == dpar
    ensures r.Ok? && counts.Uniform? ==>
      forall j :: 0 <= j < dpar ==> r.value.space.coefficientShape[j] == counts.n
    ensures r.Ok? ==> r.value.space.order == TileToDims(AxisValues(order, dpar), dpar)
  {
    var nc, ord := AxisValues(counts, dpar), AxisValues(order, dpar);
    var kv :- match knots
      case Some(kv) => Ok(kv)
      case None => AxisKnots(nc, ord, k);
    if !Reshapable(points.data, dphys) then Err(ReshapeFailure)
    else if |points.data| == 0 then Err(EmptyReduction)
    else
      CreateFromCorners(name, BoxCorners(points, dpar, dphys), ord, nc, Some(kv), k)
  }

  /** The `2 x ... x 2 x dphys` array of the vertices of the points' bounding box. */
  function BoxCorners(points: NdArray, dpar: nat, dphys: nat): (c: NdArray)
    requires Reshapable(points.data, dphys) && |points.data| > 0
    ensures |c.shape| == dpar + 1 && c.shape[dpar] == dphys
    ensures forall j :: 0 <= j < dpar ==> c.shape[j] == 2
  {
    var (mins, maxs) := Bounds(points.data, dphys);
    var c := CornerArray(mins, maxs, dpar, dphys);
    assert c.shape[dpar] == dphys && forall j :: 0 <= j < dpar ==> c.shape[j] == 2;
    c
  }

  /** The block is built exactly when the points can be read as rows of `dphys` coordinates and
      there are some; when knots are generated, there is an order for every count; a count tuple
      of another length than `dpar` is tiled, so it must not be empty; and knot vectors not given
      one per axis are tiled, so they must all have one length (generated ones have
      `count + order` knots each). */
  lemma EnclosureBlockSucceeds(name: string, points: NdArray, counts: Setting, order: Setting,
                               knots: Wrappers.Option<seq<seq<real>>>, dpar: nat, dphys: nat, k: Kernels)
    ensures var nc, ord := AxisValues(counts, dpar), AxisValues(order, dpar);
      CreateCartesianEnclosureBlock(name, points, counts, order, knots, dpar, dphys, k).Ok?
      <==> Reshapable(points.data, dphys) && |points.data| > 0
           && (dpar == 0 || |nc| > 0)
           && (knots.Some? ==>
                 |knots.value| == dpar || forall i :: 0 <= i < |knots.value| ==> |knots.value[i]| == |knots.value[0]|)
           && (knots.None? ==>
                 |nc| <= |ord| && (|nc| == dpar || forall i :: 0 <= i < |nc| ==> nc[i] + ord[i] == nc[0] + ord[0]))
  {
    var nc, ord := AxisValues(counts, dpar), AxisValues(order, dpar);
    var r := CreateCartesianEnclosureBlock(name, points, counts, order, knots, dpar, dphys, k);
    if knots.Some? || |nc| <= |ord| {
      var kv := if knots.Some? then knots.value else AxisKnots(nc, ord, k).value;
      if Reshapable(points.data, dphys) && |points.data| > 0 {
        var corners := BoxCorners(points, dpar, dphys);
        assert r == CreateFromCorners(name, corners, ord, nc, Some(kv), k);
        BoxLatticeSucceeds(name, corners, ord, nc, kv, dpar, k);
        if knots.None? {
          AxisKnotsOneLength(nc, ord, k);
        }
      }
    }
  }

  /** The generated knot vectors all have one length exactly when every count plus its order is the
      same. */
  lemma AxisKnotsOneLength(counts: seq<nat>, order: seq<nat>, k: Kernels)
    requires |counts| <= |order|
    ensures var kv := AxisKnots(counts, order, k).value;
      (forall i :: 0 <= i < |kv| ==> |kv[i]| == |kv[0]|)
      <==> (forall i :: 0 <= i < |counts| ==> counts[i] + order[i] == counts[0] + order[0])
  {
    var kv := AxisKnots(counts, order, k).value;
    assert forall i :: 0 <= i < |kv| ==> |kv[i]| == counts[i] + order[i];
  }

  /** The lattice over a `2 x ... x 2` corner array is built exactly when the tiled counts cover
      every axis and the knot vectors are one per axis or of one length. */
  lemma BoxLatticeSucceeds(name: string, corners: NdArray, ord: seq<nat>, nc: seq<nat>, kv: seq<seq<real>>,
                           dpar: nat, k: Kernels)
    requires |corners.shape| == dpar + 1 && forall j :: 0 <= j < dpar ==> corners.shape[j] == 2
    ensures CreateFromCorners(name, corners, ord, nc, Some(kv), k).Ok?
            <==> (dpar == 0 || |nc| > 0)
                 && (|kv| == dpar || forall i :: 0 <= i < |kv| ==> |kv[i]| == |kv[0]|)
  {
    var counts' := TileToDims(nc, dpar);
    TiledCountsCover(nc, dpar);
    assert KnotsUsable(Some(kv), TileToDims(ord, dpar), counts', dpar)
           <==> (|kv| == dpar || forall i :: 0 <= i < |kv| ==> |kv[i]| == |kv[0]|);
    assert forall j :: 0 <= j < dpar ==> corners.shape[j] >= 1;
  }

  /** Tiled counts reach every axis exactly when there are axes to reach or counts to tile. */
  lemma TiledCountsCover(nc: seq<nat>, dpar: nat)
    ensures dpar <= |TileToDims(nc, dpar)| <==> dpar == 0 || |nc| > 0
  {
    if |nc| > 0 && |nc| != dpar {
      assert |nc| * dpar >= dpar;
    }
  }

}

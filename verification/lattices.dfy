/** A B-spline lattice built from its corner points: along each parametric axis, every pair of
    neighbouring corners is joined by evenly spaced points, one segment per pair. */
module Lattices {
  import opened Wrappers
  import opened Errors
  import opened NdArrays
  import opened Matrices
  import opened EvaluationMaps
  import opened BSplines

  // ---------------------------------------------------------------------------------------------
  // An array seen along one axis: the axes before it, the axis, and the axes after it.

  /** The row-major position of `(o, m, i)` in an `outer x mid x inner` array. */
  function Flat3(o: nat, m: nat, i: nat, mid: nat, inner: nat): nat
  {
    (o * mid + m) * inner + i
  }

  lemma Flat3Bound(o: nat, m: nat, i: nat, outer: nat, mid: nat, inner: nat)
    requires o < outer && m < mid && i < inner
    ensures Flat3(o, m, i, mid, inner) < outer * mid * inner
  {
    FlatIndexBound(o, m, outer, mid);
    FlatIndexBound(o * mid + m, i, outer * mid, inner);
  }

  /** The number of positions before axis `d` and after it. */
  function Outer(shape: seq<nat>, d: nat): (n: nat)
    requires d <= |shape|
  {
    ProdOfNaturals(shape[..d]);
    Prod(shape[..d])
  }

  function Inner(shape: seq<nat>, d: nat): (n: nat)
    requires d < |shape|
  {
    ProdOfNaturals(shape[d + 1..]);
    Prod(shape[d + 1..])
  }

  lemma AxisLayout(shape: seq<nat>, d: nat)
    requires d < |shape|
    ensures Prod(shape) == Outer(shape, d) * shape[d] * Inner(shape, d)
  {
    ProdSplitAt(shape, d);
  }

  // ---------------------------------------------------------------------------------------------
  // One axis.

  /** The length of an axis of `c` corners after `n` points per segment: `(c - 1) * n`. */
  function SegmentedLength(c: nat, n: nat): int
  {
    (c - 1) * n
  }

  /** The entry at position `f` of the interpolated array: segment `l` of axis `d`, point `k` in it,
      is point `k` of the `n`-point linspace from corner `l` to corner `l + 1`. */
  function InterpolatedEntry(prev: NdArray, d: nat, n: nat, f: nat): real
    requires d < |prev.shape| && prev.shape[d] >= 1
    requires f < Outer(prev.shape, d) * SegmentedLength(prev.shape[d], n) * Inner(prev.shape, d)
  {
    var (o, l, k, i) := SegmentIndices(f, Outer(prev.shape, d), prev.shape[d], n, Inner(prev.shape, d));
    SegmentPoint(prev, d, n, o, l, k, i)
  }

  /** Point `k` of segment `l` along axis `d`, at `o` before the axis and `i` after it; the endpoint
      is included in the last segment only. */
  function SegmentPoint(prev: NdArray, d: nat, n: nat, o: nat, l: nat, k: nat, i: nat): real
    requires d < |prev.shape| && prev.shape[d] >= 1
    requires o < Outer(prev.shape, d) && l < prev.shape[d] - 1 && k < n && i < Inner(prev.shape, d)
  {
    var c, inner := prev.shape[d], Inner(prev.shape, d);
    CornerInside(prev, d, o, l + 1, i);
    LinspaceAt(prev.data[Flat3(o, l, i, c, inner)], prev.data[Flat3(o, l + 1, i, c, inner)], n, l == c - 2, k)
  }

  /** Corner `(o, l, i)` along axis `d` is an element of the array. */
  lemma CornerInside(prev: NdArray, d: nat, o: nat, l: nat, i: nat)
    requires d < |prev.shape| && o < Outer(prev.shape, d) && l < prev.shape[d] && i < Inner(prev.shape, d)
    ensures Flat3(o, l, i, prev.shape[d], Inner(prev.shape, d)) < |prev.data|
  {
    AxisLayout(prev.shape, d);
    Flat3Bound(o, l, i, Outer(prev.shape, d), prev.shape[d], Inner(prev.shape, d));
  }

  /** Position `f` of the interpolated array as (axes before, segment, point in segment, axes after). */
  function SegmentIndices(f: nat, outer: nat, c: nat, n: nat, inner: nat): (r: (nat, nat, nat, nat))
    requires c >= 1 && f < outer * SegmentedLength(c, n) * inner
    ensures r.0 < outer && r.1 < c - 1 && r.2 < n && r.3 < inner
    ensures f == Flat3(r.0, r.1 * n + r.2, r.3, SegmentedLength(c, n), inner)
  {
    var (o, p, i) := Split3(f, outer, SegmentedLength(c, n), inner);
    var (l, k) := Split2(p, c - 1, n);
    (o, l, k, i)
  }

  /** Every position of an `outer x mid x inner` array is `Flat3` of a triple inside it. */
  function Split3(f: nat, outer: nat, mid: nat, inner: nat): (r: (nat, nat, nat))
    requires f < outer * mid * inner
    ensures r.0 < outer && r.1 < mid && r.2 < inner && f == Flat3(r.0, r.1, r.2, mid, inner)
  {
    var (q, i) := Split2(f, outer * mid, inner);
    var (o, m) := Split2(q, outer, mid);
    assert f == Flat3(o, m, i, mid, inner) by { assert q == o * mid + m && f == q * inner + i; }
    (o, m, i)
  }

  function Split2(p: nat, rows: nat, width: nat): (r: (nat, nat))
    requires p < rows * width
    ensures r.0 < rows && r.1 < width && p == r.0 * width + r.1
  {
    RowMajorSplit(p, rows, width);
    (p / width, p % width)
  }

  /** One pass of the loop: axis `d` of `c` corners becomes `(c - 1) * n` points. An empty axis
      with a positive point count asks numpy for a negative length and raises. */
  function InterpolateAxis(prev: NdArray, d: nat, n: nat): (r: Result<NdArray, Error>)
    requires d < |prev.shape|
    ensures r.Ok? <==> prev.shape[d] >= 1 || n == 0
    ensures r.Ok? ==>
      |r.value.shape| == |prev.shape|
      && r.value.shape[d] == (if prev.shape[d] == 0 then 0 else SegmentedLength(prev.shape[d], n))
      && forall j :: 0 <= j < |prev.shape| && j != d ==> r.value.shape[j] == prev.shape[j]
  {
    var c := prev.shape[d];
    if c == 0 then
      if n > 0 then Err(NegativeDimension)
      else
        ReplaceAxis(prev.shape, d, 0);
        Ok(RawNdArray(prev.shape[d := 0], []))
    else
      var len: nat := SegmentedLength(c, n);
      ReplaceAxis(prev.shape, d, len);
      Ok(RawNdArray(prev.shape[d := len], InterpolatedData(prev, d, n)))
  }

  /** Changing the length of axis `d` to `x` leaves the axes around it alone. */
  lemma ReplaceAxis(shape: seq<nat>, d: nat, x: nat)
    requires d < |shape|
    ensures Outer(shape[d := x], d) == Outer(shape, d) && Inner(shape[d := x], d) == Inner(shape, d)
    ensures Prod(shape[d := x]) == Outer(shape, d) * x * Inner(shape, d)
  {
    var s := shape[d := x];
    assert s[..d] == shape[..d] && s[d + 1..] == shape[d + 1..];
    AxisLayout(s, d);
  }

  /** The elements of the interpolated array, in row-major order. */
  function InterpolatedData(prev: NdArray, d: nat, n: nat): (data: seq<real>)
    requires d < |prev.shape| && prev.shape[d] >= 1
    ensures |data| == Outer(prev.shape, d) * SegmentedLength(prev.shape[d], n) * Inner(prev.shape, d)
    ensures forall f :: 0 <= f < |data| ==> data[f] == InterpolatedEntry(prev, d, n, f)
  {
    var total := Outer(prev.shape, d) * SegmentedLength(prev.shape[d], n) * Inner(prev.shape, d);
    seq(total, (f: int) requires 0 <= f < total => InterpolatedEntry(prev, d, n, f))
  }

  /** Entry `(o, l*n + k, i)` of the interpolated array is point `k` of the segment from corner
      `(o, l, i)` to corner `(o, l + 1, i)`. */
  lemma InterpolateAxisEntry(prev: NdArray, d: nat, n: nat, o: nat, l: nat, k: nat, i: nat)
    requires d < |prev.shape| && prev.shape[d] >= 1
    requires o < Outer(prev.shape, d) && l < prev.shape[d] - 1 && k < n && i < Inner(prev.shape, d)
    ensures InterpolateAxis(prev, d, n).Ok?
    ensures var c, inner := prev.shape[d], Inner(prev.shape, d);
      var r := InterpolateAxis(prev, d, n).value;
      var len := SegmentedLength(c, n);
      Flat3(o, l * n + k, i, len, inner) < |r.data|
      && Flat3(o, l + 1, i, c, inner) < |prev.data|
      && r.data[Flat3(o, l * n + k, i, len, inner)]
         == LinspaceAt(prev.data[Flat3(o, l, i, c, inner)], prev.data[Flat3(o, l + 1, i, c, inner)], n, l == c - 2, k)
  {
    assert InterpolateAxis(prev, d, n).value.data == InterpolatedData(prev, d, n);
    InterpolatedDataAt(prev, d, n, o, l, k, i);
  }

  lemma InterpolatedDataAt(prev: NdArray, d: nat, n: nat, o: nat, l: nat, k: nat, i: nat)
    requires d < |prev.shape| && prev.shape[d] >= 1
    requires o < Outer(prev.shape, d) && l < prev.shape[d] - 1 && k < n && i < Inner(prev.shape, d)
    ensures var c, inner := prev.shape[d], Inner(prev.shape, d);
      var f := Flat3(o, l * n + k, i, SegmentedLength(c, n), inner);
      f < |InterpolatedData(prev, d, n)| && Flat3(o, l + 1, i, c, inner) < |prev.data|
      && InterpolatedData(prev, d, n)[f]
         == LinspaceAt(prev.data[Flat3(o, l, i, c, inner)], prev.data[Flat3(o, l + 1, i, c, inner)], n, l == c - 2, k)
  {
    InterpolatedEntryAt(prev, d, n, o, l, k, i);
    CornerInside(prev, d, o, l + 1, i);
  }

  /** The entry at `(o, l*n + k, i)` is point `k` of segment `l`. */
  lemma InterpolatedEntryAt(prev: NdArray, d: nat, n: nat, o: nat, l: nat, k: nat, i: nat)
    requires d < |prev.shape| && prev.shape[d] >= 1
    requires o < Outer(prev.shape, d) && l < prev.shape[d] - 1 && k < n && i < Inner(prev.shape, d)
    ensures var f := Flat3(o, l * n + k, i, SegmentedLength(prev.shape[d], n), Inner(prev.shape, d));
      f < Outer(prev.shape, d) * SegmentedLength(prev.shape[d], n) * Inner(prev.shape, d)
      && InterpolatedEntry(prev, d, n, f) == SegmentPoint(prev, d, n, o, l, k, i)
  {
    SegmentIndicesInverse(o, l, k, i, Outer(prev.shape, d), prev.shape[d], n, Inner(prev.shape, d));
  }

  /** `SegmentIndices` recovers the segment, point and outer/inner positions it was given. */
  lemma SegmentIndicesInverse(o: nat, l: nat, k: nat, i: nat, outer: nat, c: nat, n: nat, inner: nat)
    requires o < outer && l < c - 1 && k < n && i < inner
    ensures var f := Flat3(o, l * n + k, i, SegmentedLength(c, n), inner);
      f < outer * SegmentedLength(c, n) * inner && SegmentIndices(f, outer, c, n, inner) == (o, l, k, i)
  {
    var len := SegmentedLength(c, n);
    Split2Inverse(l, k, c - 1, n);
    Split3Inverse(o, l * n + k, i, outer, len, inner);
  }

  lemma Split3Inverse(o: nat, m: nat, i: nat, outer: nat, mid: nat, inner: nat)
    requires o < outer && m < mid && i < inner
    ensures Flat3(o, m, i, mid, inner) < outer * mid * inner
    ensures Split3(Flat3(o, m, i, mid, inner), outer, mid, inner) == (o, m, i)
  {
    FlatIndexBound(o, m, outer, mid);
    Split2Inverse(o * mid + m, i, outer * mid, inner);
    Split2Inverse(o, m, outer, mid);
  }

  lemma Split2Inverse(l: nat, k: nat, rows: nat, width: nat)
    requires l < rows && k < width
    ensures l * width + k < rows * width
    ensures Split2(l * width + k, rows, width) == (l, k)
  {
    FlatIndexBound(l, k, rows, width);
    DivModUnique(l * width + k, width, l, k);
  }

  /** Each segment starts exactly at its left corner. */
  lemma SegmentStartsAtCorner(prev: NdArray, d: nat, n: nat, o: nat, l: nat, i: nat)
    requires d < |prev.shape| && prev.shape[d] >= 1 && n >= 1
    requires o < Outer(prev.shape, d) && l < prev.shape[d] - 1 && i < Inner(prev.shape, d)
    ensures var c, inner := prev.shape[d], Inner(prev.shape, d);
      var r := InterpolateAxis(prev, d, n).value;
      InterpolateAxis(prev, d, n).Ok?
      && Flat3(o, l * n, i, SegmentedLength(c, n), inner) < |r.data| && Flat3(o, l, i, c, inner) < |prev.data|
      && r.data[Flat3(o, l * n, i, SegmentedLength(c, n), inner)] == prev.data[Flat3(o, l, i, c, inner)]
  {
    InterpolateAxisEntry(prev, d, n, o, l, 0, i);
    assert l * n + 0 == l * n;
  }

  /** With at least two points per segment, the last point of the axis is exactly the last corner. */
  lemma LastSegmentEndsAtCorner(prev: NdArray, d: nat, n: nat, o: nat, i: nat)
    requires d < |prev.shape| && prev.shape[d] >= 2 && n >= 2
    requires o < Outer(prev.shape, d) && i < Inner(prev.shape, d)
    ensures var c, inner := prev.shape[d], Inner(prev.shape, d);
      var r := InterpolateAxis(prev, d, n).value;
      InterpolateAxis(prev, d, n).Ok?
      && Flat3(o, SegmentedLength(c, n) - 1, i, SegmentedLength(c, n), inner) < |r.data|
      && Flat3(o, c - 1, i, c, inner) < |prev.data|
      && r.data[Flat3(o, SegmentedLength(c, n) - 1, i, SegmentedLength(c, n), inner)] == prev.data[Flat3(o, c - 1, i, c, inner)]
  {
    var c := prev.shape[d];
    InterpolateAxisEntry(prev, d, n, o, c - 2, n - 1, i);
    assert (c - 2) * n + (n - 1) == SegmentedLength(c, n) - 1;
  }

  // ---------------------------------------------------------------------------------------------
  // All axes.

  /** The length axis `j` ends with: `(c - 1) * n` points, an empty axis staying empty. */
  function ExpectedLength(c: nat, n: nat): nat
  {
    if c == 0 then 0 else (c - 1) * n
  }

  /** The loop over the parametric axes, last axis first: axes `d - 1` down to 0 are interpolated. */
  function BuildHyperVolume(a: NdArray, counts: seq<nat>, d: nat): (r: Result<NdArray, Error>)
    requires d <= |a.shape| && d <= |counts|
    ensures r.Ok? <==> forall j :: 0 <= j < d ==> a.shape[j] >= 1 || counts[j] == 0
    ensures r.Ok? ==>
      |r.value.shape| == |a.shape|
      && (forall j :: 0 <= j < d ==> r.value.shape[j] == ExpectedLength(a.shape[j], counts[j]))
      && (forall j :: d <= j < |a.shape| ==> r.value.shape[j] == a.shape[j])
    decreases d
  {
    if d == 0 then Ok(a)
    else
      var next :- InterpolateAxis(a, d - 1, counts[d - 1]);
      BuildHyperVolume(next, counts, d - 1)
  }

  // ---------------------------------------------------------------------------------------------
  // The corners in the finished lattice.

  /** Corner `l` of an axis of `c` corners is a vertex of the lattice after `n` points per segment:
      it starts a segment, or it is the last corner and the last segment includes its endpoint. */
  predicate IsVertex(c: nat, n: nat, l: nat)
  {
    (l + 1 < c && n >= 1) || (l + 1 == c && c >= 2 && n >= 2)
  }

  /** Where such a corner lands: the first point of its segment, or the axis's last point. */
  function VertexPosition(c: nat, n: nat, l: nat): (p: nat)
    requires IsVertex(c, n, l)
    ensures p < SegmentedLength(c, n)
  {
    if l + 1 < c then
      FlatIndexBound(l, 0, c - 1, n);
      l * n
    else SegmentedLength(c, n) - 1
  }

  /** Every corner of the first `d` axes moved to its vertex position; the other axes unchanged. */
  predicate AllVertices(shape: seq<nat>, counts: seq<nat>, idx: seq<nat>, d: nat)
  {
    d <= |shape| && d <= |counts| && d <= |idx|
    && forall j :: 0 <= j < d ==> IsVertex(shape[j], counts[j], idx[j])
  }

  function VertexIndex(shape: seq<nat>, counts: seq<nat>, idx: seq<nat>, d: nat): (r: seq<nat>)
    requires |shape| == |idx| && AllVertices(shape, counts, idx, d)
    ensures |r| == |idx|
  {
    seq(|idx|, j requires 0 <= j < |idx| => if j < d then VertexPosition(shape[j], counts[j], idx[j]) else idx[j])
  }

  /** A multi-index seen along axis `d`: the position among the axes before it, its index on the
      axis, and the position among the axes after it. */
  lemma AxisSplit(shape: seq<nat>, idx: seq<nat>, d: nat)
    requires WithinShape(shape, idx) && d < |shape|
    ensures RowMajor(shape[..d], idx[..d]) < Outer(shape, d)
    ensures RowMajor(shape[d + 1..], idx[d + 1..]) < Inner(shape, d)
    ensures RowMajor(shape, idx)
            == Flat3(RowMajor(shape[..d], idx[..d]), idx[d], RowMajor(shape[d + 1..], idx[d + 1..]), shape[d], Inner(shape, d))
  {
    AxisSplitBounds(shape, idx, d);
    AxisSplitPosition(shape, idx, d);
  }

  lemma AxisSplitPosition(shape: seq<nat>, idx: seq<nat>, d: nat)
    requires |idx| == |shape| && d < |shape|
    ensures RowMajor(shape, idx)
            == Flat3(RowMajor(shape[..d], idx[..d]), idx[d], RowMajor(shape[d + 1..], idx[d + 1..]), shape[d], Inner(shape, d))
  {
    assert shape == shape[..d] + [shape[d]] + shape[d + 1..];
    assert idx == idx[..d] + [idx[d]] + idx[d + 1..];
    AxisParts(shape[..d], idx[..d], shape[d], idx[d], shape[d + 1..], idx[d + 1..], Inner(shape, d));
  }

  /** The position in a shape made of the axes before, one axis, and the axes after. */
  lemma AxisParts(pre: seq<nat>, ipre: seq<nat>, c: nat, x: nat, post: seq<nat>, ipost: seq<nat>, inner: nat)
    requires |ipre| == |pre| && |ipost| == |post| && inner == Prod(post)
    ensures RowMajor(pre + [c] + post, ipre + [x] + ipost)
            == Flat3(RowMajor(pre, ipre), x, RowMajor(post, ipost), c, inner)
  {
    RowMajorAppend(pre, ipre, c, x);
    RowMajorConcat(pre + [c], ipre + [x], post, ipost);
    Flat3Compose(RowMajor(pre, ipre), c, x, inner, RowMajor(post, ipost),
                 RowMajor(pre + [c], ipre + [x]), RowMajor(pre + [c] + post, ipre + [x] + ipost));
  }

  lemma Flat3Compose(o: nat, mid: nat, m: nat, inner: nat, i: nat, head: nat, total: nat)
    requires head == o * mid + m && total == head * inner + i
    ensures total == Flat3(o, m, i, mid, inner)
  {
  }

  lemma AxisSplitBounds(shape: seq<nat>, idx: seq<nat>, d: nat)
    requires WithinShape(shape, idx) && d < |shape|
    ensures RowMajor(shape[..d], idx[..d]) < Outer(shape, d)
    ensures RowMajor(shape[d + 1..], idx[d + 1..]) < Inner(shape, d)
  {
    var post, ipost := shape[d + 1..], idx[d + 1..];
    assert WithinShape(shape[..d], idx[..d]);
    assert WithinShape(post, ipost) by {
      forall j | 0 <= j < |post| ensures ipost[j] < post[j] {
        assert ipost[j] == idx[d + 1 + j] && post[j] == shape[d + 1 + j];
      }
    }
    RowMajorBound(shape[..d], idx[..d]);
    RowMajorBound(post, ipost);
  }

  lemma RowMajorAppend(shape: seq<nat>, idx: seq<nat>, c: nat, x: nat)
    requires |idx| == |shape|
    ensures RowMajor(shape + [c], idx + [x]) == RowMajor(shape, idx) * c + x
  {
    assert (shape + [c])[..|shape|] == shape && (idx + [x])[..|idx|] == idx;
  }

  /** One pass moves corner `idx[d]` of axis `d` to its vertex position, keeping its value. */
  lemma InterpolateAxisVertex(prev: NdArray, d: nat, n: nat, idx: seq<nat>)
    requires d < |prev.shape| && WithinShape(prev.shape, idx) && IsVertex(prev.shape[d], n, idx[d])
    ensures InterpolateAxis(prev, d, n).Ok?
    ensures var r := InterpolateAxis(prev, d, n).value;
      var moved := idx[d := VertexPosition(prev.shape[d], n, idx[d])];
      WithinShape(r.shape, moved) && RowMajor(r.shape, moved) < |r.data| && RowMajor(prev.shape, idx) < |prev.data|
      && r.data[RowMajor(r.shape, moved)] == prev.data[RowMajor(prev.shape, idx)]
  {
    var c, len := prev.shape[d], SegmentedLength(prev.shape[d], n);
    var r := InterpolateAxis(prev, d, n).value;
    var moved := idx[d := VertexPosition(c, n, idx[d])];
    assert r.shape == prev.shape[d := len];
    assert r.shape[..d] == prev.shape[..d] && r.shape[d + 1..] == prev.shape[d + 1..];
    assert moved[..d] == idx[..d] && moved[d + 1..] == idx[d + 1..];
    ReplaceAxis(prev.shape, d, len);
    AxisSplit(prev.shape, idx, d);
    AxisSplit(r.shape, moved, d);
    RowMajorBound(prev.shape, idx);
    RowMajorBound(r.shape, moved);
    var o, i, inner := RowMajor(prev.shape[..d], idx[..d]), RowMajor(prev.shape[d + 1..], idx[d + 1..]), Inner(prev.shape, d);
    assert RowMajor(r.shape, moved) == Flat3(o, VertexPosition(c, n, idx[d]), i, len, inner);
    assert RowMajor(prev.shape, idx) == Flat3(o, idx[d], i, c, inner);
    VertexKept(prev, d, n, o, idx[d], i);
  }

  /** In `outer x axis x inner` terms: a vertex corner's value reappears at its vertex position. */
  lemma VertexKept(prev: NdArray, d: nat, n: nat, o: nat, l: nat, i: nat)
    requires d < |prev.shape| && o < Outer(prev.shape, d) && l < prev.shape[d] && i < Inner(prev.shape, d)
    requires IsVertex(prev.shape[d], n, l)
    ensures var c, inner := prev.shape[d], Inner(prev.shape, d);
      var r := InterpolateAxis(prev, d, n).value;
      var f := Flat3(o, VertexPosition(c, n, l), i, SegmentedLength(c, n), inner);
      InterpolateAxis(prev, d, n).Ok? && f < |r.data| && Flat3(o, l, i, c, inner) < |prev.data|
      && r.data[f] == prev.data[Flat3(o, l, i, c, inner)]
  {
    if l + 1 < prev.shape[d] {
      SegmentStartsAtCorner(prev, d, n, o, l, i);
    } else {
      LastSegmentEndsAtCorner(prev, d, n, o, i);
    }
  }

  /** The finished lattice passes through the corners: corner `idx` sits at its vertex position on
      every interpolated axis, with its value unchanged. */
  lemma {:induction false} BuildHyperVolumeVertex(a: NdArray, counts: seq<nat>, d: nat, idx: seq<nat>)
    requires d <= |a.shape| && d <= |counts| && WithinShape(a.shape, idx) && AllVertices(a.shape, counts, idx, d)
    ensures BuildHyperVolume(a, counts, d).Ok?
    ensures var v := BuildHyperVolume(a, counts, d).value;
      var pos := VertexIndex(a.shape, counts, idx, d);
      WithinShape(v.shape, pos) && RowMajor(v.shape, pos) < |v.data| && RowMajor(a.shape, idx) < |a.data|
      && v.data[RowMajor(v.shape, pos)] == a.data[RowMajor(a.shape, idx)]
    decreases d
  {
    if d == 0 {
      assert VertexIndex(a.shape, counts, idx, d) == idx;
      RowMajorBound(a.shape, idx);
    } else {
      var n := counts[d - 1];
      InterpolateAxisVertex(a, d - 1, n, idx);
      var next := InterpolateAxis(a, d - 1, n).value;
      var moved := idx[d - 1 := VertexPosition(a.shape[d - 1], n, idx[d - 1])];
      VertexIndexStep(a.shape, next.shape, counts, idx, d);
      BuildHyperVolumeVertex(next, counts, d - 1, moved);
      BuildHyperVolumeStep(a, counts, d);
    }
  }

  /** The loop's first pass, then the rest. */
  lemma BuildHyperVolumeStep(a: NdArray, counts: seq<nat>, d: nat)
    requires 0 < d <= |a.shape| && d <= |counts| && InterpolateAxis(a, d - 1, counts[d - 1]).Ok?
    ensures BuildHyperVolume(a, counts, d) == BuildHyperVolume(InterpolateAxis(a, d - 1, counts[d - 1]).value, counts, d - 1)
  {
  }

  /** Moving the corner on axis `d - 1` first, on a shape that differs only on that axis, leaves
      the same vertex positions to reach on the axes before it. */
  lemma VertexIndexStep(s1: seq<nat>, s2: seq<nat>, counts: seq<nat>, idx: seq<nat>, d: nat)
    requires 0 < d <= |s1| && |s2| == |s1| == |idx| && d <= |counts| && AllVertices(s1, counts, idx, d)
    requires forall j :: 0 <= j < |s1| && j != d - 1 ==> s2[j] == s1[j]
    ensures var moved := idx[d - 1 := VertexPosition(s1[d - 1], counts[d - 1], idx[d - 1])];
      AllVertices(s2, counts, moved, d - 1)
      && VertexIndex(s2, counts, moved, d - 1) == VertexIndex(s1, counts, idx, d)
  {
  }

  // ---------------------------------------------------------------------------------------------
  // Orders, counts and knots.

  /** `tuple(np.tile(t, dims))` when the tuple's length is not the number of parametric axes. */
  function TileToDims(t: seq<nat>, dims: nat): (r: seq<nat>)
    ensures |t| == dims ==> r == t
    ensures |t| != dims ==> |r| == |t| * dims
  {
    if |t| == dims then t else Tile(t, dims)
  }

  /** Entry `i` of a tiled tuple is entry `i mod |t|` of the tuple. */
  lemma TileToDimsAt(t: seq<nat>, dims: nat, i: nat)
    requires |t| != dims && i < |TileToDims(t, dims)|
    ensures |t| > 0 && TileToDims(t, dims)[i] == t[i % |t|]
  {
    TileIndex(t, dims, i);
  }

  /** Knot vectors tiled as numpy tiles a tuple of equal-length arrays: each vector repeated along
      its own axis; vectors of different lengths cannot form an array and raise. */
  function TileKnotVectors(kv: seq<seq<real>>, dims: nat): (r: Result<seq<seq<real>>, Error>)
    ensures r.Ok? <==> forall i :: 0 <= i < |kv| ==> |kv[i]| == |kv[0]|
    ensures r.Ok? ==> |r.value| == |kv| && forall i :: 0 <= i < |kv| ==> r.value[i] == Tile(kv[i], dims)
  {
    if exists i :: 0 <= i < |kv| && |kv[i]| != |kv[0]| then Err(InhomogeneousShape)
    else Ok(seq(|kv|, i requires 0 <= i < |kv| => Tile(kv[i], dims)))
  }

  /** The generated knots when none are given: the open-uniform vector of every axis, end to end. */
  function GenerateKnots(order: seq<nat>, counts: seq<nat>, dims: nat, k: Kernels): (r: Result<seq<real>, Error>)
    ensures r.Ok? <==> dims <= |counts| && dims <= |order|
    ensures r.Ok? ==> |r.value| == KnotCount(order, counts, dims)
    decreases dims
  {
    if dims == 0 then Ok([])
    else
      var head :- GenerateKnots(order, counts, dims - 1, k);
      if dims - 1 >= |counts| || dims - 1 >= |order| then Err(IndexOutOfRange)
      else
        var axis := GenerateOpenUniformKnotVector(counts[dims - 1], order[dims - 1], k).value;
        Ok(head + axis)
  }

  /** Axis `d`'s knots sit between the knot counts of the axes before it and of the axes up to and
      including it, and they are that axis's open-uniform vector: the axes' vectors in axis order. */
  lemma {:induction false} GenerateKnotsAxis(order: seq<nat>, counts: seq<nat>, dims: nat, k: Kernels, d: nat)
    requires d < dims && GenerateKnots(order, counts, dims, k).Ok?
    ensures var r := GenerateKnots(order, counts, dims, k).value;
      d < |counts| && d < |order|
      && KnotCount(order, counts, d) <= KnotCount(order, counts, d + 1) <= |r|
      && r[KnotCount(order, counts, d)..KnotCount(order, counts, d + 1)]
         == GenerateOpenUniformKnotVector(counts[d], order[d], k).value
    decreases dims
  {
    var r := GenerateKnots(order, counts, dims, k).value;
    var head := GenerateKnots(order, counts, dims - 1, k).value;
    var axis := GenerateOpenUniformKnotVector(counts[dims - 1], order[dims - 1], k).value;
    assert r == head + axis;
    if d == dims - 1 {
      assert r[|head|..] == axis;
    } else {
      GenerateKnotsAxis(order, counts, dims - 1, k, d);
      var lo, hi := KnotCount(order, counts, d), KnotCount(order, counts, d + 1);
      assert r[lo..hi] == head[lo..hi];
    }
  }

  /** The total knot count: for every axis, coefficient count plus order. */
  function KnotCount(order: seq<nat>, counts: seq<nat>, dims: nat): nat
    requires dims <= |counts| && dims <= |order|
  {
    if dims == 0 then 0 else KnotCount(order, counts, dims - 1) + counts[dims - 1] + order[dims - 1]
  }

  /** Whether the knots can be formed: given vectors either one per axis or all of one length;
      generated ones need an order and a count for every axis. */
  predicate KnotsUsable(knots: Wrappers.Option<seq<seq<real>>>, order: seq<nat>, counts: seq<nat>, dims: nat)
  {
    match knots
    case Some(kv) => |kv| == dims || forall i :: 0 <= i < |kv| ==> |kv[i]| == |kv[0]|
    case None => dims <= |counts| && dims <= |order|
  }

  /** The knot vectors of the lattice's space, end to end: the given ones, tiled when there is not
      one per axis, or the generated ones. */
  function SpaceKnots(knots: Wrappers.Option<seq<seq<real>>>, order: seq<nat>, counts: seq<nat>, dims: nat, k: Kernels)
    : (r: Result<seq<real>, Error>)
    ensures r.Ok? <==> KnotsUsable(knots, order, counts, dims)
    ensures knots.Some? && |knots.value| == dims ==> r == Ok(Concat(knots.value))
    ensures knots.Some? && |knots.value| != dims && r.Ok? ==>
      r == Ok(Concat(seq(|knots.value|, i requires 0 <= i < |knots.value| => Tile(knots.value[i], dims))))
    ensures knots.None? ==> r == GenerateKnots(order, counts, dims, k)
    ensures knots.None? && r.Ok? ==> |r.value| == KnotCount(order, counts, dims)
  {
    match knots
    case Some(kv) =>
      if |kv| != dims then
        var tiled :- TileKnotVectors(kv, dims);
        Ok(Concat(tiled))
      else Ok(Concat(kv))
    case None => GenerateKnots(order, counts, dims, k)
  }

  /** `create_b_spline_from_corners`: the corner array has one axis per parametric dimension plus
      the physical axis. Orders and counts of the wrong length are tiled; given knot vectors of the
      wrong number are tiled; missing knots are generated. The space's knots are the axes' knot
      vectors end to end. */
  function CreateFromCorners(name: string, corners: NdArray, order: seq<nat>, counts: seq<nat>,
                             knots: Wrappers.Option<seq<seq<real>>>, k: Kernels): (r: Result<BSpline, Error>)
    ensures |corners.shape| == 0 ==> r == Err(NegativeDimension)
    ensures r.Ok? <==>
      |corners.shape| > 0
      && (var dims := |corners.shape| - 1;
          var counts' := TileToDims(counts, dims);
          KnotsUsable(knots, TileToDims(order, dims), counts', dims)
          && dims <= |counts'|
          && forall j :: 0 <= j < dims ==> corners.shape[j] >= 1 || counts'[j] == 0)
    ensures r.Ok? ==>
      var dims := |corners.shape| - 1;
      var counts' := TileToDims(counts, dims);
      dims <= |counts'|
      && r.value.coefficients.data == BuildHyperVolume(corners, counts', dims).value.data
      && r.value.name == name
      && r.value.numPhysicalDimensions == corners.shape[dims]
      && r.value.space.order == TileToDims(order, dims)
      && |r.value.space.coefficientShape| == dims
      && (forall j :: 0 <= j < dims ==> r.value.space.coefficientShape[j] == ExpectedLength(corners.shape[j], counts'[j]))
      && r.value.space.name == name + "_space"
      && SpaceKnots(knots, TileToDims(order, dims), counts', dims, k).Ok?
      && r.value.space.knots == Some(SpaceKnots(knots, TileToDims(order, dims), counts', dims, k).value)
  {
    if |corners.shape| == 0 then Err(NegativeDimension)
    else
      var dims := |corners.shape| - 1;
      var order', counts' := TileToDims(order, dims), TileToDims(counts, dims);
      var flatKnots :- SpaceKnots(knots, order', counts', dims, k);
      if |counts'| < dims then Err(IndexOutOfRange)
      else LatticeSpline(name, corners, order', counts', flatKnots, dims)
  }

  /** The interpolation loop and the lattice built from its result, once the knots are known. */
  function LatticeSpline(name: string, corners: NdArray, order: seq<nat>, counts: seq<nat>, flatKnots: seq<real>,
                         dims: nat): (r: Result<BSpline, Error>)
    requires dims + 1 == |corners.shape| && dims <= |counts|
    ensures r.Ok? <==> forall j :: 0 <= j < dims ==> corners.shape[j] >= 1 || counts[j] == 0
    ensures r.Ok? ==>
      r.value.coefficients.data == BuildHyperVolume(corners, counts, dims).value.data
      && r.value.name == name
      && r.value.numPhysicalDimensions == corners.shape[dims]
      && r.value.space == Space(name + "_space", order, Some(flatKnots), r.value.space.coefficientShape)
      && |r.value.space.coefficientShape| == dims
      && (forall j :: 0 <= j < dims ==> r.value.space.coefficientShape[j] == ExpectedLength(corners.shape[j], counts[j]))
  {
    var volume :- BuildHyperVolume(corners, counts, dims);
    var space := Space(name + "_space", order, Some(flatKnots), volume.shape[..dims]);
    NewBSplineFromVolume(name, space, volume, dims)
  }

  /** The lattice spline passes through its corners: a corner that starts a segment on every
      parametric axis, or is the last corner of an axis with at least two points per segment,
      reappears at its vertex position of the coefficient array, each physical coordinate kept. */
  lemma LatticeSplineKeepsCorners(name: string, corners: NdArray, order: seq<nat>, counts: seq<nat>,
                                  flatKnots: seq<real>, dims: nat, s: BSpline, idx: seq<nat>)
    requires dims + 1 == |corners.shape| && dims <= |counts|
    requires LatticeSpline(name, corners, order, counts, flatKnots, dims) == Ok(s)
    requires WithinShape(corners.shape, idx) && AllVertices(corners.shape, counts, idx, dims)
    ensures var lattice: seq<nat> := s.space.coefficientShape + [s.numPhysicalDimensions];
      var pos := VertexIndex(corners.shape, counts, idx, dims);
      WithinShape(lattice, pos) && RowMajor(lattice, pos) < |s.coefficients.data|
      && RowMajor(corners.shape, idx) < |corners.data|
      && s.coefficients.data[RowMajor(lattice, pos)] == corners.data[RowMajor(corners.shape, idx)]
  {
    LatticeSplineVolume(name, corners, order, counts, flatKnots, dims, s);
    BuildHyperVolumeVertex(corners, counts, dims, idx);
  }

  /** The lattice spline holds the built lattice: its elements, under the coefficient shape with
      the physical axis appended. */
  lemma LatticeSplineVolume(name: string, corners: NdArray, order: seq<nat>, counts: seq<nat>,
                            flatKnots: seq<real>, dims: nat, s: BSpline)
    requires dims + 1 == |corners.shape| && dims <= |counts|
    requires LatticeSpline(name, corners, order, counts, flatKnots, dims) == Ok(s)
    ensures BuildHyperVolume(corners, counts, dims).Ok?
    ensures var v := BuildHyperVolume(corners, counts, dims).value;
      s.coefficients.data == v.data && v.shape == s.space.coefficientShape + [s.numPhysicalDimensions]
  {
    var v := BuildHyperVolume(corners, counts, dims).value;
    assert s.space.coefficientShape == v.shape[..dims] && s.numPhysicalDimensions == v.shape[dims];
    assert v.shape == v.shape[..dims] + [v.shape[dims]];
  }

  /** The lattice as a B-spline: its coefficient count always matches the volume, so construction
      only flattens it. */
  function NewBSplineFromVolume(name: string, space: Space, volume: NdArray, dims: nat): (r: Result<BSpline, Error>)
    requires |volume.shape| == dims + 1 && space.coefficientShape == volume.shape[..dims]
    ensures r.Ok? && r == NewBSpline(name, space, volume, volume.shape[dims])
    ensures r.value.space == space && r.value.numPhysicalDimensions == volume.shape[dims]
    ensures r.value.coefficients.data == volume.data
  {
    assert volume.shape == volume.shape[..dims] + [volume.shape[dims]];
    assert NumCoefficients(space, volume.shape[dims]) == |volume.data|;
    NewBSpline(name, space, volume, volume.shape[dims])
  }
}

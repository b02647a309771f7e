/** Dense n-dimensional arrays in numpy's row-major layout, and the numpy helpers the model needs. */
module NdArrays {

  /** `np.prod` of a shape tuple: the number of elements; 1 for the empty tuple. */
  function Prod(s: seq<int>): int
  {
    if |s| == 0 then 1 else s[0] * Prod(s[1..])
  }

  lemma {:induction false} ProdOfNaturals(s: seq<nat>)
    ensures Prod(s) >= 0
  {
    if |s| > 0 {
      ProdOfNaturals(s[1..]);
    }
  }

  /** Appending an axis multiplies the element count by its length. */
  lemma {:induction false} ProdAppend(s: seq<int>, x: int)
    ensures Prod(s + [x]) == Prod(s) * x
  {
    if |s| == 0 {
      assert s + [x] == [x];
    } else {
      assert (s + [x])[1..] == s[1..] + [x];
      ProdAppend(s[1..], x);
    }
  }

  lemma ProdOne(a: int)
    ensures Prod([a]) == a
  {
    assert [a][1..] == [];
  }

  lemma ProdTwo(a: int, b: int)
    ensures Prod([a, b]) == a * b
  {
    assert [a, b][1..] == [b];
    ProdOne(b);
  }

  /** The element count of shapes end to end is the product of their counts. */
  lemma {:induction false} ProdConcat(a: seq<int>, b: seq<int>)
    ensures Prod(a + b) == Prod(a) * Prod(b)
  {
    if |a| == 0 {
      assert a + b == b;
    } else {
      assert (a + b)[1..] == a[1..] + b;
      ProdConcat(a[1..], b);
    }
  }

  /** Splitting a shape at axis `d`: the axes before it, the axis itself, and the axes after it. */
  lemma ProdSplitAt(s: seq<int>, d: nat)
    requires d < |s|
    ensures Prod(s) == Prod(s[..d]) * s[d] * Prod(s[d + 1..])
  {
    var before, rest := s[..d], [s[d]] + s[d + 1..];
    assert s == before + rest;
    ProdConcat(before, rest);
    assert rest[1..] == s[d + 1..];
    var a, b, c := Prod(before), s[d], Prod(s[d + 1..]);
    assert Prod(rest) == b * c;
    MulAssociates(a, b, c);
  }

  lemma MulAssociates(a: int, b: int, c: int)
    ensures a * (b * c) == a * b * c
  {
  }

  /** The array as numpy holds it: a shape and its elements in row-major order. */
  datatype RawNdArray = RawNdArray(shape: seq<nat>, data: seq<real>)

  type NdArray = a: RawNdArray | |a.data| == Prod(a.shape) witness RawNdArray([], [0.0])

  /** `a.reshape((-1,))`: the same elements as a one-dimensional array. */
  function Flatten(a: NdArray): (r: NdArray)
    ensures r.shape == [|a.data|] && r.data == a.data
  {
    ProdOne(|a.data|);
    RawNdArray([|a.data|], a.data)
  }

  /** `(x,)*n`, `np.full(n, x)`. */
  function Repeat<T>(x: T, n: nat): (r: seq<T>)
    ensures |r| == n
    ensures forall i :: 0 <= i < n ==> r[i] == x
  {
    seq(n, _ => x)
  }

  /** `np.tile(s, k)` of a one-dimensional `s`, and `s * k` of a tuple: `k` copies of `s` end to end. */
  function Tile<T>(s: seq<T>, k: nat): (r: seq<T>)
    ensures |r| == |s| * k
  {
    if k == 0 then [] else s + Tile(s, k - 1)
  }

  /** Entry `i` of a tiling is entry `i mod |s|` of the tiled sequence. */
  lemma {:induction false} TileIndex<T>(s: seq<T>, k: nat, i: nat)
    requires i < |s| * k
    ensures |s| > 0 && Tile(s, k)[i] == s[i % |s|]
  {
    if |s| == 0 {
      assert false;
    } else if i < |s| {
      DivModUnique(i, |s|, 0, i);
    } else {
      var n, j := |s|, i - |s|;
      assert n * k == n + n * (k - 1);
      var rest := Tile(s, k - 1);
      assert Tile(s, k) == s + rest;
      assert Tile(s, k)[i] == rest[j];
      TileIndex(s, k - 1, j);
      var q, m := j / n, j % n;
      DivModUnique(j, n, q, m);
      DivModUnique(i, n, q + 1, m);
    }
  }

  /** Quotient and remainder are determined by any decomposition `x == q * n + r` with `0 <= r < n`;
      every index computation of the row-major layouts rests on this. */
  lemma DivModUnique(x: int, n: int, q: int, r: int)
    requires n > 0 && 0 <= r < n && x == q * n + r
    ensures x / n == q && x % n == r
  {
    var q', r' := x / n, x % n;
    assert x == q' * n + r';
    assert (q - q') * n == r' - r;
    if q' < q {
      MulAtLeast(q - q', n);
      assert false;
    } else if q < q' {
      MulAtLeast(q' - q, n);
      assert false;
    }
  }

  lemma MulAtLeast(a: int, n: int)
    requires a >= 1 && n >= 0
    ensures a * n >= n
  {
  }

  /** Row-major flat position of `(i, j)` in an `rows x width` block lies inside the block. */
  lemma FlatIndexBound(i: int, j: int, rows: int, width: int)
    requires 0 <= i < rows && 0 <= j < width
    ensures 0 <= i * width + j < rows * width
  {
    MulAtLeast(rows - i, width);
    assert (rows - i) * width == rows * width - i * width;
  }

  /** The row-major position of multi-index `idx` in an array of shape `shape`, the last axis
      varying fastest. */
  function RowMajor(shape: seq<nat>, idx: seq<nat>): nat
    requires |idx| == |shape|
  {
    if |shape| == 0 then 0
    else RowMajor(shape[..|shape| - 1], idx[..|idx| - 1]) * shape[|shape| - 1] + idx[|idx| - 1]
  }

  /** `idx` names an element of an array of shape `shape`. */
  predicate WithinShape(shape: seq<nat>, idx: seq<nat>)
  {
    |idx| == |shape| && forall j :: 0 <= j < |shape| ==> idx[j] < shape[j]
  }

  /** A multi-index inside the shape names one of its `Prod(shape)` elements. */
  lemma {:induction false} RowMajorBound(shape: seq<nat>, idx: seq<nat>)
    requires WithinShape(shape, idx)
    ensures RowMajor(shape, idx) < Prod(shape)
  {
    if |shape| > 0 {
      var k := |shape| - 1;
      assert WithinShape(shape[..k], idx[..k]);
      RowMajorBound(shape[..k], idx[..k]);
      FlatIndexBound(RowMajor(shape[..k], idx[..k]), idx[k], Prod(shape[..k]), shape[k]);
      assert shape[..k] + [shape[k]] == shape;
      ProdAppend(shape[..k], shape[k]);
    }
  }

  /** The position in a shape made of two parts is the position in the first part, scaled by the
      size of the second, plus the position in the second. */
  lemma {:induction false} RowMajorConcat(s1: seq<nat>, i1: seq<nat>, s2: seq<nat>, i2: seq<nat>)
    requires |i1| == |s1| && |i2| == |s2|
    ensures RowMajor(s1 + s2, i1 + i2) == RowMajor(s1, i1) * Prod(s2) + RowMajor(s2, i2)
  {
    if |s2| == 0 {
      assert s1 + s2 == s1 && i1 + i2 == i1;
    } else {
      var k := |s2| - 1;
      var s, i := s1 + s2, i1 + i2;
      assert s[..|s| - 1] == s1 + s2[..k] && s[|s| - 1] == s2[k];
      assert i[..|i| - 1] == i1 + i2[..k] && i[|i| - 1] == i2[k];
      RowMajorConcat(s1, i1, s2[..k], i2[..k]);
      assert s2[..k] + [s2[k]] == s2;
      ProdAppend(s2[..k], s2[k]);
      var a, p, b := RowMajor(s1, i1), Prod(s2[..k]), RowMajor(s2[..k], i2[..k]);
      assert RowMajor(s, i) == (a * p + b) * s2[k] + i2[k];
      assert RowMajor(s2, i2) == b * s2[k] + i2[k];
      MulAddRegroups(a, p, b, s2[k], i2[k]);
    }
  }

  lemma MulAddRegroups(a: int, p: int, b: int, c: int, x: int)
    ensures (a * p + b) * c + x == a * (p * c) + (b * c + x)
  {
  }

  /** All sequences of `ss` end to end. */
  function Concat<T>(ss: seq<seq<T>>): seq<T>
  {
    if |ss| == 0 then [] else Concat(ss[..|ss| - 1]) + ss[|ss| - 1]
  }

  /** Entry `k` of `np.linspace(start, stop, n, endpoint)`, elementwise as numpy computes it: the
      step is the span over `n - 1` (with the endpoint) or `n` (without), a single sample is `start`,
      and with the endpoint the last sample is set to `stop` exactly. */
  function LinspaceAt(start: real, stop: real, n: nat, endpoint: bool, k: nat): real
    requires k < n
  {
    var divisions := if endpoint then n - 1 else n;
    if endpoint && n > 1 && k == n - 1 then stop
    else if divisions == 0 then start
    else start + (k as real) * ((stop - start) / (divisions as real))
  }

  function Linspace(start: real, stop: real, n: nat, endpoint: bool): (r: seq<real>)
    ensures |r| == n
    ensures forall k :: 0 <= k < n ==> r[k] == LinspaceAt(start, stop, n, endpoint, k)
  {
    seq(n, k requires 0 <= k < n => LinspaceAt(start, stop, n, endpoint, k))
  }

  /** A linspace starts at `start`, and with the endpoint and two or more samples ends at `stop`;
      without the endpoint every sample stays strictly short of `stop` when `start < stop`. */
  lemma LinspaceEnds(start: real, stop: real, n: nat, endpoint: bool)
    ensures n >= 1 ==> Linspace(start, stop, n, endpoint)[0] == start
    ensures endpoint && n >= 2 ==> Linspace(start, stop, n, endpoint)[n - 1] == stop
    ensures !endpoint && start < stop ==>
      forall k :: 0 <= k < n ==> start <= Linspace(start, stop, n, endpoint)[k] < stop
  {
    if !endpoint && start < stop {
      forall k | 0 <= k < n
        ensures start <= Linspace(start, stop, n, endpoint)[k] < stop
      {
        var step := (stop - start) / (n as real);
        assert step * (n as real) == stop - start;
        assert (k as real) * step < (n as real) * step;
      }
    }
  }

  /** `np.linspace(0., 1., n)`, the sample positions of the refitting grid; a negative count raises. */
  function UnitLinspace(n: nat): (r: seq<real>)
    ensures |r| == n
  {
    Linspace(0.0, 1.0, n, true)
  }

  /** The unit linspace is non-decreasing and stays inside [0, 1]. */
  lemma UnitLinspaceInUnitInterval(n: nat)
    ensures forall k :: 0 <= k < n ==> 0.0 <= UnitLinspace(n)[k] <= 1.0
    ensures forall j, k :: 0 <= j <= k < n ==> UnitLinspace(n)[j] <= UnitLinspace(n)[k]
  {
    var r := UnitLinspace(n);
    forall k | 0 <= k < n
      ensures 0.0 <= r[k] <= 1.0
    {
      if n > 1 && k < n - 1 {
        var step := 1.0 / ((n - 1) as real);
        assert (k as real) * step <= ((n - 1) as real) * step;
      }
    }
    forall j, k | 0 <= j <= k < n
      ensures r[j] <= r[k]
    {
      if j == k {
      } else if k == n - 1 {
        assert r[j] <= 1.0;
      } else {
        var step := 1.0 / ((n - 1) as real);
        assert step > 0.0;
        assert r[j] == (j as real) * step;
        assert r[k] == (k as real) * step;
        assert (j as real) * step <= (k as real) * step;
      }
    }
  }
}

/** The array primitives the helpers are built from: a floating-point cell
    that may be NaN, latitude-by-longitude grids of such cells, NaN-propagating
    elementwise arithmetic and the NaN-skipping means that xarray's `mean`
    performs by default. Floating point is modelled by `real`; a NaN cell is
    `None`. */
module NanArrays {

  datatype Option<+T> = None | Some(value: T)

  /** One cell of a field; `None` stands for NaN (missing). */
  type Value = Option<real>

  /** The cells of one latitude, along longitude. */
  type Row = seq<Value>

  /** A field indexed first by latitude, then by longitude. */
  type Grid = seq<Row>

  /** A row of `n` NaN cells. */
  function Missing(n: nat): (r: Row)
    ensures |r| == n && AllMissing(r)
  {
    seq(n, _ => None)
  }

  predicate SameShape(a: Grid, b: Grid) {
    |a| == |b| && forall i :: 0 <= i < |a| ==> |a[i]| == |b[i]|
  }

  predicate AllMissing(r: Row) {
    forall j :: 0 <= j < |r| ==> r[j].None?
  }

  predicate GridAllMissing(g: Grid) {
    forall i :: 0 <= i < |g| ==> AllMissing(g[i])
  }

  predicate NoneMissing(r: Row) {
    forall j :: 0 <= j < |r| ==> r[j].Some?
  }

  /** `g` with the cell at row `i`, column `j` replaced by `v`. */
  function SetCell(g: Grid, i: int, j: int, v: Value): (r: Grid)
    requires 0 <= i < |g| && 0 <= j < |g[i]|
    ensures SameShape(r, g)
    ensures forall k, l :: 0 <= k < |r| && 0 <= l < |r[k]| ==>
      r[k][l] == if k == i && l == j then v else g[k][l]
  {
    g[i := g[i][j := v]]
  }

  /** Floating-point multiplication: NaN if either operand is NaN. */
  function Mul(x: Value, y: Value): Value {
    if x.Some? && y.Some? then Some(x.value * y.value) else None
  }

  /** Floating-point division: NaN if either operand is NaN, and NaN for a
      zero divisor (IEEE gives NaN for 0/0 and an infinity otherwise; see the
      README for where that difference could show). */
  function Div(x: Value, y: Value): Value {
    if x.Some? && y.Some? && y.value != 0.0 then Some(x.value / y.value) else None
  }

  /** `a * b` for two grids of the same shape. */
  function Product(a: Grid, b: Grid): (r: Grid)
    requires SameShape(a, b)
    ensures SameShape(r, a)
  {
    seq(|a|, i requires 0 <= i < |a| =>
      seq(|a[i]|, j requires 0 <= j < |a[i]| => Mul(a[i][j], b[i][j])))
  }

  /** The non-NaN values of a row, in order: what a NaN-skipping reduction
      sees. */
  function Present(r: Row): (p: seq<real>)
    ensures |p| <= |r|
    ensures |p| == 0 <==> AllMissing(r)
  {
    if |r| == 0 then []
    else (if r[0].Some? then [r[0].value] else []) + Present(r[1..])
  }

  /** The non-NaN values of a whole grid, row after row. */
  function GridPresent(g: Grid): (p: seq<real>)
    ensures |p| == 0 <==> GridAllMissing(g)
  {
    if |g| == 0 then []
    else Present(g[0]) + GridPresent(g[1..])
  }

  function Sum(s: seq<real>): real {
    if |s| == 0 then 0.0 else s[0] + Sum(s[1..])
  }

  /** The arithmetic mean; NaN for no values at all ("mean of empty slice"). */
  function Mean(s: seq<real>): Value {
    if |s| == 0 then None else Some(Sum(s) / |s| as real)
  }

  /** `mean` over one dimension with NaNs skipped: NaN exactly when every
      cell is NaN. */
  function RowMean(r: Row): (m: Value)
    ensures m.None? <==> AllMissing(r)
  {
    Mean(Present(r))
  }

  /** `mean` over both dimensions jointly with NaNs skipped: the sum of the
      non-NaN cells over their number, and NaN exactly when every cell is
      NaN. */
  function GridMean(g: Grid): (m: Value)
    ensures m.None? <==> GridAllMissing(g)
  {
    Mean(GridPresent(g))
  }

  function Scaled(s: seq<real>, k: real): (r: seq<real>)
    ensures |r| == |s|
  {
    seq(|s|, i requires 0 <= i < |s| => s[i] * k)
  }

  function Divided(s: seq<real>, m: real): (r: seq<real>)
    requires m != 0.0
    ensures |r| == |s|
  {
    seq(|s|, i requires 0 <= i < |s| => s[i] / m)
  }

  /** The values of a row none of whose cells is NaN. */
  function Values(r: Row): (s: seq<real>)
    requires NoneMissing(r)
    ensures |s| == |r|
  {
    seq(|r|, j requires 0 <= j < |r| => r[j].value)
  }

  lemma {:induction false} SumConcat(a: seq<real>, b: seq<real>)
    ensures Sum(a + b) == Sum(a) + Sum(b)
  {
    if |a| == 0 {
      assert a + b == b;
    } else {
      assert (a + b)[1..] == a[1..] + b;
      SumConcat(a[1..], b);
    }
  }

  lemma {:induction false} SumScaled(s: seq<real>, k: real)
    ensures Sum(Scaled(s, k)) == Sum(s) * k
  {
    if |s| > 0 {
      var t := Scaled(s, k);
      assert t[1..] == Scaled(s[1..], k) by {
        forall i | 0 <= i < |s| - 1 ensures t[1..][i] == Scaled(s[1..], k)[i] {
          assert t[1..][i] == s[i + 1] * k;
        }
      }
      SumScaled(s[1..], k);
      assert Sum(t) == s[0] * k + Sum(s[1..]) * k;
    }
  }

  lemma {:induction false} ScaledConcat(a: seq<real>, b: seq<real>, k: real)
    ensures Scaled(a + b, k) == Scaled(a, k) + Scaled(b, k)
  {
    var l, r := Scaled(a + b, k), Scaled(a, k) + Scaled(b, k);
    forall i | 0 <= i < |l| ensures l[i] == r[i] {
      if i < |a| {
        assert (a + b)[i] == a[i];
      } else {
        assert (a + b)[i] == b[i - |a|];
      }
    }
  }

  lemma {:induction false} SumDivided(s: seq<real>, m: real)
    requires m != 0.0
    ensures Sum(Divided(s, m)) == Sum(s) / m
  {
    if |s| > 0 {
      var t := Divided(s, m);
      assert t[1..] == Divided(s[1..], m) by {
        forall i | 0 <= i < |s| - 1 ensures t[1..][i] == Divided(s[1..], m)[i] {
          assert t[1..][i] == s[i + 1] / m;
        }
      }
      SumDivided(s[1..], m);
      assert Sum(t) == s[0] / m + Sum(s[1..]) / m;
    }
  }

  lemma {:induction false} DividedConcat(a: seq<real>, b: seq<real>, m: real)
    requires m != 0.0
    ensures Divided(a + b, m) == Divided(a, m) + Divided(b, m)
  {
    var l, r := Divided(a + b, m), Divided(a, m) + Divided(b, m);
    forall i | 0 <= i < |l| ensures l[i] == r[i] {
      if i < |a| {
        assert (a + b)[i] == a[i];
      } else {
        assert (a + b)[i] == b[i - |a|];
      }
    }
  }

  /** A row with no NaN cell is seen whole by a NaN-skipping reduction. */
  lemma {:induction false} PresentOfComplete(r: Row)
    requires NoneMissing(r)
    ensures Present(r) == Values(r)
  {
    if |r| > 0 {
      PresentOfComplete(r[1..]);
      assert Values(r) == [r[0].value] + Values(r[1..]);
    }
  }

  /** The sum of `n` copies of `c`. */
  lemma {:induction false} SumConstant(s: seq<real>, c: real)
    requires forall k :: 0 <= k < |s| ==> s[k] == c
    ensures Sum(s) == c * |s| as real
  {
    if |s| > 0 {
      SumConstant(s[1..], c);
    }
  }

  /** The NaN-skipping mean of a row whose present cells all equal `c` is
      `c`, whatever the number of NaN cells. */
  lemma RowMeanConstant(r: Row, c: real)
    requires !AllMissing(r)
    requires forall j :: 0 <= j < |r| && r[j].Some? ==> r[j].value == c
    ensures RowMean(r) == Some(c)
  {
    PresentAllEqual(r, c);
    var p := Present(r);
    SumConstant(p, c);
    assert |p| != 0;
    assert Sum(p) / |p| as real == c by {
      assert Sum(p) == c * |p| as real;
    }
  }

  lemma {:induction false} PresentAllEqual(r: Row, c: real)
    requires forall j :: 0 <= j < |r| && r[j].Some? ==> r[j].value == c
    ensures forall k :: 0 <= k < |Present(r)| ==> Present(r)[k] == c
  {
    if |r| > 0 {
      PresentAllEqual(r[1..], c);
    }
  }

  /** `mean(dim='lon')`: the NaN-skipping mean of every row. */
  function RowMeans(g: Grid): (r: Row)
    ensures |r| == |g|
  {
    seq(|g|, i requires 0 <= i < |g| => RowMean(g[i]))
  }

  /** The value sums of the rows of a grid, NaNs skipped. */
  function RowSums(g: Grid): (s: seq<real>)
    ensures |s| == |g|
  {
    seq(|g|, i requires 0 <= i < |g| => Sum(Present(g[i])))
  }

  lemma {:induction false} GridPresentSum(g: Grid)
    ensures Sum(GridPresent(g)) == Sum(RowSums(g))
  {
    if |g| > 0 {
      GridPresentSum(g[1..]);
      SumConcat(Present(g[0]), GridPresent(g[1..]));
      assert RowSums(g)[1..] == RowSums(g[1..]);
    }
  }

  lemma {:induction false} GridPresentCount(g: Grid, n: nat)
    requires forall i :: 0 <= i < |g| ==> |Present(g[i])| == n
    ensures |GridPresent(g)| == |g| * n
  {
    if |g| > 0 {
      var rest := GridPresent(g[1..]);
      GridPresentCount(g[1..], n);
      assert |GridPresent(g)| == |Present(g[0])| + |rest|;
      assert (|g| - 1) * n + n == |g| * n;
    }
  }

  /** When every row has `n > 0` non-NaN cells, no row mean is NaN and the
      row means are the row sums divided by `n`. */
  lemma RowMeansOfEqualCountRows(g: Grid, n: nat)
    requires n > 0
    requires forall i :: 0 <= i < |g| ==> |Present(g[i])| == n
    ensures Present(RowMeans(g)) == Divided(RowSums(g), n as real)
  {
    var means := RowMeans(g);
    var sums := RowSums(g);
    assert NoneMissing(means) by {
      forall i | 0 <= i < |g| ensures means[i].Some? {
        assert |Present(g[i])| != 0;
      }
    }
    assert Values(means) == Divided(sums, n as real) by {
      forall i | 0 <= i < |g| ensures Values(means)[i] == Divided(sums, n as real)[i] {
        assert means[i] == Some(sums[i] / n as real);
      }
    }
    PresentOfComplete(means);
  }

  /** When every row has the same number `n > 0` of non-NaN cells, the joint
      NaN-skipping mean over both dimensions equals the mean over latitude of
      the per-row means. */
  lemma MeanOfRowMeans(g: Grid, n: nat)
    requires |g| > 0 && n > 0
    requires forall i :: 0 <= i < |g| ==> |Present(g[i])| == n
    ensures GridMean(g) == RowMean(RowMeans(g))
  {
    GridPresentSum(g);
    GridPresentCount(g, n);
    RowMeansOfEqualCountRows(g, n);
    MeansAgree(GridPresent(g), Present(RowMeans(g)), RowSums(g), |g|, n);
  }

  /** `a * b` values with the same sum as the `a` values `s` have the mean
      of `s` divided by `b`. */
  lemma MeansAgree(p: seq<real>, q: seq<real>, s: seq<real>, a: nat, b: nat)
    requires a > 0 && b > 0
    requires |p| == a * b && |s| == a
    requires Sum(p) == Sum(s) && q == Divided(s, b as real)
    ensures Mean(p) == Mean(q)
  {
    SumDivided(s, b as real);
    CastProduct(|p|, a, b);
    QuotientOfProduct(Mean(p), Mean(q), Sum(p), Sum(s), Sum(q), |p| as real, |q| as real, a as real, b as real);
  }

  /** A count that is the product of two positive counts is positive, and
      converts to the product of their conversions. */
  lemma CastProduct(n: nat, a: nat, b: nat)
    requires n == a * b && a > 0 && b > 0
    ensures n > 0 && n as real == (a as real) * (b as real)
  {
  }

  /** `s / (a * b) == (s / b) / a`, with every term passed in so that the
      solver only has to relate them. */
  lemma QuotientOfProduct(mp: Value, mq: Value, sp: real, s: real, t: real, dp: real, dq: real, a: real, b: real)
    requires a > 0.0 && b > 0.0
    requires sp == s && t == s / b && dp == a * b && dq == a
    requires mp == Some(sp / dp) && mq == Some(t / dq)
    ensures mp == mq
  {
    var x, y := s / dp, t / a;
    assert x * dp == s;
    assert t * b == s;
    assert y * a == t;
    assert y * dp == s;
    assert (x - y) * dp == 0.0;
    assert mp.value == mq.value;
  }

  /** The mean of a nonempty sequence of copies of `c` is `c`. */
  lemma MeanConstant(s: seq<real>, c: real)
    requires s != [] && forall k :: 0 <= k < |s| ==> s[k] == c
    ensures Mean(s) == Some(c)
  {
    SumConstant(s, c);
    assert Sum(s) / |s| as real == c by {
      assert Sum(s) == c * |s| as real;
    }
  }

  lemma {:induction false} GridPresentAllEqual(g: Grid, c: real)
    requires forall i, j :: 0 <= i < |g| && 0 <= j < |g[i]| && g[i][j].Some? ==> g[i][j].value == c
    ensures forall k :: 0 <= k < |GridPresent(g)| ==> GridPresent(g)[k] == c
  {
    if |g| > 0 {
      PresentAllEqual(g[0], c);
      GridPresentAllEqual(g[1..], c);
    }
  }

  /** Scaling every value scales the mean, and keeps an empty mean NaN. */
  lemma MeanScaled(s: seq<real>, k: real)
    ensures Mean(Scaled(s, k)) == Mul(Mean(s), Some(k))
  {
    SumScaled(s, k);
    if s != [] {
      ScaledQuotient(Mean(Scaled(s, k)), Mean(s), Sum(s), Sum(Scaled(s, k)), |s| as real, k);
    }
  }

  lemma ScaledQuotient(scaled: Value, mean: Value, s: real, t: real, n: real, k: real)
    requires n > 0.0 && t == s * k && scaled == Some(t / n) && mean == Some(s / n)
    ensures scaled == Mul(mean, Some(k))
  {
    var y, z := s / n, t / n;
    assert y * n == s;
    assert z * n == t;
    assert (y * k) * n == t;
    assert (z - y * k) * n == 0.0;
    assert Mul(mean, Some(k)).value == scaled.value;
  }
}

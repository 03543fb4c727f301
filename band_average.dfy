/** `weighted_average` of climate_data_science_functions.py: the weighted
    spatial mean of a latitude/longitude field over a half-open latitude band,
    with zero-weight, out-of-band and NaN cells left out of both the sum and
    the count. */
module BandAverage {
  import opened NanArrays

  /** The default `lat_bnds`, the whole globe. */
  const SouthPole: real := -90.0
  const NorthPole: real := 90.0

  /** `lat_bnds == [-90, 90]`. */
  predicate IsDefaultBand(lo: real, hi: real) {
    lo == SouthPole && hi == NorthPole
  }

  /** `(lat >= lat_bnds[0]) & (lat < lat_bnds[1])`: lower bound included,
      upper bound excluded. */
  predicate InBand(lat: real, lo: real, hi: real) {
    lo <= lat < hi
  }

  /** A field and its weights on one grid whose latitudes are `lat`. */
  predicate Conformable(da: Grid, w: Grid, lat: seq<real>) {
    |lat| == |da| && SameShape(da, w)
  }

  /** `g.where((g.lat >= lo) & (g.lat < hi))`: every row outside the band
      becomes NaN. */
  function WhereInBand(g: Grid, lat: seq<real>, lo: real, hi: real): (r: Grid)
    requires |lat| == |g|
    ensures SameShape(r, g)
  {
    seq(|g|, i requires 0 <= i < |g| =>
      if InBand(lat[i], lo, hi) then g[i] else Missing(|g[i]|))
  }

  /** `w / w.mean(dim=['lon','lat'])`, the mean skipping NaNs. */
  function Renormalised(w: Grid): (r: Grid)
    ensures SameShape(r, w)
  {
    var m := GridMean(w);
    seq(|w|, i requires 0 <= i < |w| =>
      seq(|w[i]|, j requires 0 <= j < |w[i]| => Div(w[i][j], m)))
  }

  /** The weights the average uses: as given for the default band, and
      otherwise restricted to the band and divided by their in-band mean. */
  function EffectiveWeights(w: Grid, lat: seq<real>, lo: real, hi: real): (r: Grid)
    requires |lat| == |w|
    ensures SameShape(r, w)
  {
    if IsDefaultBand(lo, hi) then w else Renormalised(WhereInBand(w, lat, lo, hi))
  }

  /** `g.where(w != 0)`: a NaN weight compares unequal to zero, so only an
      exact zero weight blanks its cell. */
  function WhereNonzero(g: Grid, w: Grid): (r: Grid)
    requires SameShape(g, w)
    ensures SameShape(r, g)
  {
    seq(|g|, i requires 0 <= i < |g| =>
      seq(|g[i]|, j requires 0 <= j < |g[i]| => if w[i][j] == Some(0.0) then None else g[i][j]))
  }

  /** The product `da * w` with zero-weight and out-of-band cells made NaN. */
  function Masked(da: Grid, w: Grid, lat: seq<real>, lo: real, hi: real): (r: Grid)
    requires Conformable(da, w, lat)
    ensures SameShape(r, da)
  {
    WhereInBand(WhereNonzero(Product(da, w), w), lat, lo, hi)
  }

  /** Whether a cell with value `x` and weight `w` at latitude `lat` counts
      toward the average. */
  predicate Survives(x: Value, w: Value, lat: real, lo: real, hi: real) {
    InBand(lat, lo, hi) && x.Some? && w.Some? && w.value != 0.0
  }

  predicate AnySurvivor(da: Grid, w: Grid, lat: seq<real>, lo: real, hi: real)
    requires Conformable(da, w, lat)
  {
    exists i, j :: 0 <= i < |da| && 0 <= j < |da[i]| && Survives(da[i][j], w[i][j], lat[i], lo, hi)
  }

  /** What a cell of `Masked` holds. */
  function MaskCell(x: Value, w: Value, lat: real, lo: real, hi: real): Value {
    if Survives(x, w, lat, lo, hi) then Some(x.value * w.value) else None
  }

  lemma MaskedCells(da: Grid, w: Grid, lat: seq<real>, lo: real, hi: real)
    requires Conformable(da, w, lat)
    ensures forall i, j :: 0 <= i < |da| && 0 <= j < |da[i]| ==>
      Masked(da, w, lat, lo, hi)[i][j] == MaskCell(da[i][j], w[i][j], lat[i], lo, hi)
  {
    var p := Product(da, w);
    var nz := WhereNonzero(p, w);
    forall i, j | 0 <= i < |da| && 0 <= j < |da[i]|
      ensures Masked(da, w, lat, lo, hi)[i][j] == MaskCell(da[i][j], w[i][j], lat[i], lo, hi)
    {
      assert p[i][j] == Mul(da[i][j], w[i][j]);
      assert nz[i][j] == if w[i][j] == Some(0.0) then None else p[i][j];
      if !InBand(lat[i], lo, hi) {
        assert Masked(da, w, lat, lo, hi)[i] == Missing(|nz[i]|);
      }
    }
  }

  /** `weighted_average(da, weights, lat_bnds=[lo, hi])` on one
      latitude/longitude slice. The result is NaN exactly when no cell
      survives the masking. */
  function WeightedAverage(da: Grid, w: Grid, lat: seq<real>, lo: real, hi: real): (r: Value)
    requires Conformable(da, w, lat)
    ensures r.None? <==> !AnySurvivor(da, EffectiveWeights(w, lat, lo, hi), lat, lo, hi)
  {
    var weights := EffectiveWeights(w, lat, lo, hi);
    MaskedCells(da, weights, lat, lo, hi);
    GridMean(Masked(da, weights, lat, lo, hi))
  }

  // ---------------------------------------------------------------------
  // Reference definition: the products of the surviving cells, collected
  // directly, row after row.

  function RowContributions(x: Row, w: Row, lat: real, lo: real, hi: real): seq<real>
    requires |x| == |w|
  {
    if |x| == 0 then []
    else (if Survives(x[0], w[0], lat, lo, hi) then [x[0].value * w[0].value] else [])
         + RowContributions(x[1..], w[1..], lat, lo, hi)
  }

  /** value × weight for every surviving cell. */
  function Contributions(da: Grid, w: Grid, lat: seq<real>, lo: real, hi: real): seq<real>
    requires Conformable(da, w, lat)
  {
    if |da| == 0 then []
    else RowContributions(da[0], w[0], lat[0], lo, hi) + Contributions(da[1..], w[1..], lat[1..], lo, hi)
  }

  lemma {:induction false} PresentOfMaskedRow(r: Row, x: Row, w: Row, lat: real, lo: real, hi: real)
    requires |r| == |x| == |w|
    requires forall j :: 0 <= j < |r| ==> r[j] == MaskCell(x[j], w[j], lat, lo, hi)
    ensures Present(r) == RowContributions(x, w, lat, lo, hi)
  {
    if |r| > 0 {
      PresentOfMaskedRow(r[1..], x[1..], w[1..], lat, lo, hi);
    }
  }

  lemma {:induction false} PresentOfMaskedGrid(g: Grid, da: Grid, w: Grid, lat: seq<real>, lo: real, hi: real)
    requires Conformable(da, w, lat) && SameShape(g, da)
    requires forall i, j :: 0 <= i < |g| && 0 <= j < |g[i]| ==> g[i][j] == MaskCell(da[i][j], w[i][j], lat[i], lo, hi)
    ensures GridPresent(g) == Contributions(da, w, lat, lo, hi)
  {
    if |g| > 0 {
      PresentOfMaskedRow(g[0], da[0], w[0], lat[0], lo, hi);
      PresentOfMaskedGrid(g[1..], da[1..], w[1..], lat[1..], lo, hi);
    }
  }

  /** The average is the sum of value × weight over the surviving cells
      divided by the NUMBER of surviving cells (not by the sum of their
      weights), and NaN when none survives. */
  lemma AverageIsSumOverCount(da: Grid, w: Grid, lat: seq<real>, lo: real, hi: real)
    requires Conformable(da, w, lat)
    ensures WeightedAverage(da, w, lat, lo, hi)
         == Mean(Contributions(da, EffectiveWeights(w, lat, lo, hi), lat, lo, hi))
  {
    var weights := EffectiveWeights(w, lat, lo, hi);
    MaskedCells(da, weights, lat, lo, hi);
    PresentOfMaskedGrid(Masked(da, weights, lat, lo, hi), da, weights, lat, lo, hi);
  }

  /** With the default band the weights are used exactly as given: the
      result is sum(value × weight) / count over the surviving cells. */
  lemma DefaultBandAverage(da: Grid, w: Grid, lat: seq<real>)
    requires Conformable(da, w, lat)
    ensures WeightedAverage(da, w, lat, SouthPole, NorthPole)
         == Mean(Contributions(da, w, lat, SouthPole, NorthPole))
  {
    AverageIsSumOverCount(da, w, lat, SouthPole, NorthPole);
  }

  /** No cell survives exactly when no product is collected. */
  lemma ContributionsEmptyIff(da: Grid, w: Grid, lat: seq<real>, lo: real, hi: real)
    requires Conformable(da, w, lat)
    ensures Contributions(da, w, lat, lo, hi) == [] <==> !AnySurvivor(da, w, lat, lo, hi)
  {
    MaskedCells(da, w, lat, lo, hi);
    PresentOfMaskedGrid(Masked(da, w, lat, lo, hi), da, w, lat, lo, hi);
    var g: Grid := Masked(da, w, lat, lo, hi);
    if AnySurvivor(da, w, lat, lo, hi) {
      var i: int, j: int :| 0 <= i < |da| && 0 <= j < |da[i]| && Survives(da[i][j], w[i][j], lat[i], lo, hi);
      assert g[i][j].Some?;
    }
  }

  lemma {:induction false} OutOfBandRowContributesNothing(x: Row, w: Row, lat: real, lo: real, hi: real)
    requires |x| == |w| && !InBand(lat, lo, hi)
    ensures RowContributions(x, w, lat, lo, hi) == []
  {
    if |x| > 0 {
      OutOfBandRowContributesNothing(x[1..], w[1..], lat, lo, hi);
    }
  }

  // ---------------------------------------------------------------------
  // Renormalisation (lines 191-193)

  lemma {:induction false} PresentOfDividedRow(r: Row, x: Row, m: real)
    requires m != 0.0 && |r| == |x|
    requires forall j :: 0 <= j < |r| ==> r[j] == Div(x[j], Some(m))
    ensures Present(r) == Divided(Present(x), m)
  {
    if |r| > 0 {
      PresentOfDividedRow(r[1..], x[1..], m);
      var head := if x[0].Some? then [x[0].value] else [];
      DividedConcat(head, Present(x[1..]), m);
      assert Present(r) == (if r[0].Some? then [r[0].value] else []) + Present(r[1..]);
    }
  }

  lemma {:induction false} PresentOfDividedGrid(r: Grid, g: Grid, m: real)
    requires m != 0.0 && SameShape(r, g)
    requires forall i, j :: 0 <= i < |r| && 0 <= j < |r[i]| ==> r[i][j] == Div(g[i][j], Some(m))
    ensures GridPresent(r) == Divided(GridPresent(g), m)
  {
    if |r| > 0 {
      PresentOfDividedRow(r[0], g[0], m);
      PresentOfDividedGrid(r[1..], g[1..], m);
      DividedConcat(Present(g[0]), GridPresent(g[1..]), m);
    }
  }

  /** Values divided by their own nonzero mean have mean one. */
  lemma DividedByOwnMean(p: seq<real>, q: seq<real>, m: real)
    requires Mean(p) == Some(m) && m != 0.0 && q == Divided(p, m)
    ensures Mean(q) == Some(1.0)
  {
    SumDivided(p, m);
    UnitQuotient(Sum(p), Sum(q), |p| as real, m);
  }

  lemma UnitQuotient(s: real, t: real, n: real, m: real)
    requires n > 0.0 && m != 0.0 && m == s / n && t == s / m
    ensures t / n == 1.0
  {
    assert s == m * n;
    assert t == n;
  }

  /** Away from the default band the in-band weights are divided by their
      (NaN-skipping) mean, so that the weights used have mean one. */
  lemma RenormalisedMeanIsOne(w: Grid, lat: seq<real>, lo: real, hi: real, m: real)
    requires |lat| == |w| && !IsDefaultBand(lo, hi)
    requires GridMean(WhereInBand(w, lat, lo, hi)) == Some(m) && m != 0.0
    ensures GridMean(EffectiveWeights(w, lat, lo, hi)) == Some(1.0)
  {
    var b := WhereInBand(w, lat, lo, hi);
    PresentOfDividedGrid(Renormalised(b), b, m);
    DividedByOwnMean(GridPresent(b), GridPresent(Renormalised(b)), m);
  }

  lemma {:induction false} RowContributionsRenormalised(x: Row, v: Row, w: Row, lat: real, lo: real, hi: real, m: real)
    requires |x| == |v| == |w| && m != 0.0 && InBand(lat, lo, hi)
    requires forall j :: 0 <= j < |v| ==> v[j] == Div(w[j], Some(m))
    ensures RowContributions(x, v, lat, lo, hi) == Divided(RowContributions(x, w, lat, lo, hi), m)
  {
    if |x| > 0 {
      RowContributionsRenormalised(x[1..], v[1..], w[1..], lat, lo, hi, m);
      var head := if Survives(x[0], w[0], lat, lo, hi) then [x[0].value * w[0].value] else [];
      DividedConcat(head, RowContributions(x[1..], w[1..], lat, lo, hi), m);
      if Survives(x[0], w[0], lat, lo, hi) {
        NonzeroQuotient(w[0].value, m);
        assert v[0] == Some(w[0].value / m);
        MulDiv(x[0].value, w[0].value, v[0].value, m);
        var single := [x[0].value * v[0].value];
        assert Divided(head, m)[0] == single[0];
        assert Divided(head, m) == single;
        assert Survives(x[0], v[0], lat, lo, hi);
      } else if w[0].Some? {
        NonzeroQuotient(w[0].value, m);
      }
    }
  }

  lemma NonzeroQuotient(b: real, m: real)
    requires m != 0.0
    ensures b / m != 0.0 <==> b != 0.0
  {
    if b != 0.0 {
      assert (b / m) * m == b;
    }
  }

  lemma MulDiv(a: real, b: real, c: real, m: real)
    requires m != 0.0 && c == b / m
    ensures a * c == (a * b) / m
  {
  }

  lemma {:induction false} ContributionsRenormalised(da: Grid, v: Grid, w: Grid, lat: seq<real>, lo: real, hi: real, m: real)
    requires Conformable(da, w, lat) && SameShape(v, w) && m != 0.0
    requires forall i, j :: 0 <= i < |v| && 0 <= j < |v[i]| && InBand(lat[i], lo, hi) ==> v[i][j] == Div(w[i][j], Some(m))
    ensures Contributions(da, v, lat, lo, hi) == Divided(Contributions(da, w, lat, lo, hi), m)
  {
    if |da| > 0 {
      if InBand(lat[0], lo, hi) {
        RowContributionsRenormalised(da[0], v[0], w[0], lat[0], lo, hi, m);
      } else {
        OutOfBandRowContributesNothing(da[0], v[0], lat[0], lo, hi);
        OutOfBandRowContributesNothing(da[0], w[0], lat[0], lo, hi);
      }
      ContributionsRenormalised(da[1..], v[1..], w[1..], lat[1..], lo, hi, m);
      DividedConcat(RowContributions(da[0], w[0], lat[0], lo, hi), Contributions(da[1..], w[1..], lat[1..], lo, hi), m);
    }
  }

  /** Away from the default band, with `m` the mean of the in-band weights:
      the average is the plain mean of value × weight over the surviving
      cells divided by `m`. It equals the weighted mean
      sum(value × weight) / sum(weight) over the surviving cells when the
      surviving weights have mean `m`, the mean of all non-NaN in-band
      weights, and, if value × weight does not sum to zero over those cells,
      only then. With `m` nonzero and no in-band value NaN, a zero in-band
      weight always makes the surviving weights' mean differ from `m`, since
      it enters `m` but never survives. A NaN value drops its weight from the
      surviving cells, which can move that mean away from `m` or back to it. */
  lemma BandedAverage(da: Grid, w: Grid, lat: seq<real>, lo: real, hi: real, m: real)
    requires Conformable(da, w, lat) && !IsDefaultBand(lo, hi)
    requires GridMean(WhereInBand(w, lat, lo, hi)) == Some(m) && m != 0.0
    ensures WeightedAverage(da, w, lat, lo, hi) == Div(Mean(Contributions(da, w, lat, lo, hi)), Some(m))
  {
    var v := EffectiveWeights(w, lat, lo, hi);
    AverageIsSumOverCount(da, w, lat, lo, hi);
    ContributionsRenormalised(da, v, w, lat, lo, hi, m);
    MeanOfDivided(Contributions(da, w, lat, lo, hi), m);
  }

  lemma MeanOfDivided(c: seq<real>, m: real)
    requires m != 0.0
    ensures Mean(Divided(c, m)) == Div(Mean(c), Some(m))
  {
    SumDivided(c, m);
    if c != [] {
      DividedQuotient(Sum(c), Sum(Divided(c, m)), |c| as real, m);
    }
  }

  lemma DividedQuotient(s: real, t: real, n: real, m: real)
    requires n > 0.0 && m != 0.0 && t == s / m
    ensures t / n == (s / n) / m
  {
    var x, y := t / n, s / n;
    assert x * n == t;
    assert y * n == s;
    assert x * m * n == s;
    assert (x * m - y) * n == 0.0;
  }

  // ---------------------------------------------------------------------
  // Constant weights

  /** The non-NaN values of the in-band rows: what a plain NaN-skipping mean
      over the band averages. */
  function BandValues(da: Grid, lat: seq<real>, lo: real, hi: real): seq<real>
    requires |lat| == |da|
  {
    GridPresent(WhereInBand(da, lat, lo, hi))
  }

  lemma {:induction false} RowContributionsConstant(x: Row, w: Row, lat: real, lo: real, hi: real, k: real)
    requires |x| == |w| && k != 0.0 && InBand(lat, lo, hi)
    requires forall j :: 0 <= j < |w| ==> w[j] == Some(k)
    ensures RowContributions(x, w, lat, lo, hi) == Scaled(Present(x), k)
  {
    if |x| > 0 {
      RowContributionsConstant(x[1..], w[1..], lat, lo, hi, k);
      var head := if x[0].Some? then [x[0].value] else [];
      ScaledConcat(head, Present(x[1..]), k);
      if x[0].Some? {
        assert Scaled(head, k)[0] == x[0].value * w[0].value;
        assert Scaled(head, k) == [x[0].value * w[0].value];
      }
    }
  }

  /** When every in-band weight is `k`, the products collected are the
      in-band values scaled by `k`. */
  lemma {:induction false} ContributionsConstant(da: Grid, w: Grid, lat: seq<real>, lo: real, hi: real, k: real)
    requires Conformable(da, w, lat) && k != 0.0
    requires forall i, j :: 0 <= i < |w| && 0 <= j < |w[i]| && InBand(lat[i], lo, hi) ==> w[i][j] == Some(k)
    ensures Contributions(da, w, lat, lo, hi) == Scaled(BandValues(da, lat, lo, hi), k)
  {
    if |da| > 0 {
      var b := WhereInBand(da, lat, lo, hi);
      assert b[1..] == WhereInBand(da[1..], lat[1..], lo, hi);
      ContributionsConstant(da[1..], w[1..], lat[1..], lo, hi, k);
      if InBand(lat[0], lo, hi) {
        RowContributionsConstant(da[0], w[0], lat[0], lo, hi, k);
      } else {
        OutOfBandRowContributesNothing(da[0], w[0], lat[0], lo, hi);
        assert Present(b[0]) == [];
      }
      ScaledConcat(Present(b[0]), GridPresent(b[1..]), k);
    }
  }

  /** With the default band and every weight equal to `k`, the result is `k`
      times the plain NaN-skipping mean of the values with latitude below
      90: the weights are not normalised, so only `k == 1` gives the plain
      mean. */
  lemma DefaultBandConstantWeights(da: Grid, w: Grid, lat: seq<real>, k: real)
    requires Conformable(da, w, lat) && k != 0.0
    requires forall i, j :: 0 <= i < |w| && 0 <= j < |w[i]| ==> w[i][j] == Some(k)
    ensures WeightedAverage(da, w, lat, SouthPole, NorthPole)
         == Mul(Mean(BandValues(da, lat, SouthPole, NorthPole)), Some(k))
  {
    DefaultBandAverage(da, w, lat);
    ContributionsConstant(da, w, lat, SouthPole, NorthPole, k);
    MeanScaled(BandValues(da, lat, SouthPole, NorthPole), k);
  }

  /** Away from the default band, constant in-band weights cancel in the
      renormalisation: the result is the plain NaN-skipping mean of the
      in-band values. */
  lemma BandedConstantWeights(da: Grid, w: Grid, lat: seq<real>, lo: real, hi: real, k: real)
    requires Conformable(da, w, lat) && !IsDefaultBand(lo, hi) && k != 0.0
    requires forall i, j :: 0 <= i < |w| && 0 <= j < |w[i]| && InBand(lat[i], lo, hi) ==> w[i][j] == Some(k)
    ensures WeightedAverage(da, w, lat, lo, hi) == Mean(BandValues(da, lat, lo, hi))
  {
    var b := WhereInBand(w, lat, lo, hi);
    GridPresentAllEqual(b, k);
    WeightedBandCells(da, w, lat, lo, hi, k);
    if GridPresent(b) == [] {
      var v := EffectiveWeights(w, lat, lo, hi);
      assert !AnySurvivor(da, v, lat, lo, hi);
    } else {
      MeanConstant(GridPresent(b), k);
      BandedAverage(da, w, lat, lo, hi, k);
      ContributionsConstant(da, w, lat, lo, hi, k);
      MeanScaled(BandValues(da, lat, lo, hi), k);
      MulThenDiv(Mean(BandValues(da, lat, lo, hi)), k);
    }
  }

  /** Where every in-band weight is present, an in-band cell with no weight
      is an in-band cell with no value. */
  lemma WeightedBandCells(da: Grid, w: Grid, lat: seq<real>, lo: real, hi: real, k: real)
    requires Conformable(da, w, lat)
    requires forall i, j :: 0 <= i < |w| && 0 <= j < |w[i]| && InBand(lat[i], lo, hi) ==> w[i][j] == Some(k)
    ensures GridAllMissing(WhereInBand(w, lat, lo, hi)) ==> GridAllMissing(WhereInBand(da, lat, lo, hi))
  {
    var b, bd := WhereInBand(w, lat, lo, hi), WhereInBand(da, lat, lo, hi);
    if !GridAllMissing(bd) {
      var i: int, j: int :| 0 <= i < |bd| && 0 <= j < |bd[i]| && bd[i][j].Some?;
      assert b[i][j] == Some(k);
    }
  }

  lemma MulThenDiv(x: Value, k: real)
    requires k != 0.0
    ensures Div(Mul(x, Some(k)), Some(k)) == x
  {
    if x.Some? {
      Cancel(x.value, k, x.value * k);
      assert Div(Mul(x, Some(k)), Some(k)).value == x.value;
    }
  }

  lemma Cancel(a: real, k: real, p: real)
    requires k != 0.0 && p == a * k
    ensures p / k == a
  {
    assert (p / k) * k == p;
    assert (p / k - a) * k == 0.0;
  }

  // ---------------------------------------------------------------------
  // Empty domains

  /** A band with `lo >= hi` holds no latitude, so the result is NaN. */
  lemma EmptyBand(da: Grid, w: Grid, lat: seq<real>, lo: real, hi: real)
    requires Conformable(da, w, lat) && lo >= hi
    ensures WeightedAverage(da, w, lat, lo, hi) == None
  {
    assert !AnySurvivor(da, EffectiveWeights(w, lat, lo, hi), lat, lo, hi);
  }

  /** If every in-band weight is zero or NaN, no cell survives (away from
      the default band the renormalising mean is then zero or NaN, and
      dividing by it gives NaN weights), so the result is NaN. */
  lemma NoUsableWeight(da: Grid, w: Grid, lat: seq<real>, lo: real, hi: real)
    requires Conformable(da, w, lat)
    requires forall i, j :: 0 <= i < |w| && 0 <= j < |w[i]| && InBand(lat[i], lo, hi) ==>
      w[i][j] == None || w[i][j] == Some(0.0)
    ensures WeightedAverage(da, w, lat, lo, hi) == None
  {
    var v := EffectiveWeights(w, lat, lo, hi);
    if !IsDefaultBand(lo, hi) {
      var b := WhereInBand(w, lat, lo, hi);
      GridPresentAllEqual(b, 0.0);
      if GridPresent(b) != [] {
        MeanConstant(GridPresent(b), 0.0);
      }
      assert forall i, j :: 0 <= i < |v| && 0 <= j < |v[i]| ==> v[i][j] == Div(b[i][j], GridMean(b));
    }
    assert !AnySurvivor(da, v, lat, lo, hi);
  }

  // ---------------------------------------------------------------------
  // Cells that do not count

  /** Two inputs whose masked products agree cell by cell have the same
      average. */
  lemma SameMaskSameAverage(da: Grid, v: Grid, da2: Grid, v2: Grid, lat: seq<real>, lo: real, hi: real)
    requires Conformable(da, v, lat) && Conformable(da2, v2, lat)
    requires forall i :: 0 <= i < |da| ==> |da2[i]| == |da[i]|
    requires forall i, j :: 0 <= i < |da| && 0 <= j < |da[i]| ==>
      MaskCell(da[i][j], v[i][j], lat[i], lo, hi) == MaskCell(da2[i][j], v2[i][j], lat[i], lo, hi)
    ensures GridMean(Masked(da, v, lat, lo, hi)) == GridMean(Masked(da2, v2, lat, lo, hi))
  {
    MaskedCells(da, v, lat, lo, hi);
    MaskedCells(da2, v2, lat, lo, hi);
    var g, g2 := Masked(da, v, lat, lo, hi), Masked(da2, v2, lat, lo, hi);
    forall i | 0 <= i < |g| ensures g[i] == g2[i] {
      assert forall j :: 0 <= j < |g[i]| ==> g[i][j] == g2[i][j];
    }
    assert g == g2;
  }

  /** A row whose latitude is outside the band does not affect the result,
      whatever its values and weights. */
  lemma OutOfBandRowIgnored(da: Grid, w: Grid, lat: seq<real>, lo: real, hi: real, i: int, x: Row, y: Row)
    requires Conformable(da, w, lat) && 0 <= i < |da| && !InBand(lat[i], lo, hi)
    requires |x| == |da[i]| && |y| == |da[i]|
    ensures WeightedAverage(da[i := x], w[i := y], lat, lo, hi) == WeightedAverage(da, w, lat, lo, hi)
  {
    var da2, w2 := da[i := x], w[i := y];
    var v, v2 := EffectiveWeights(w, lat, lo, hi), EffectiveWeights(w2, lat, lo, hi);
    if !IsDefaultBand(lo, hi) {
      assert WhereInBand(w2, lat, lo, hi) == WhereInBand(w, lat, lo, hi);
    }
    SameMaskSameAverage(da, v, da2, v2, lat, lo, hi);
  }

  /** The band test excludes its upper bound even for the default band: a
      row at latitude 90 never affects the result when `hi <= 90`. */
  lemma NorthPoleRowIgnored(da: Grid, w: Grid, lat: seq<real>, lo: real, hi: real, i: int, x: Row, y: Row)
    requires Conformable(da, w, lat) && 0 <= i < |da| && lat[i] == NorthPole && hi <= NorthPole
    requires |x| == |da[i]| && |y| == |da[i]|
    ensures WeightedAverage(da[i := x], w[i := y], lat, lo, hi) == WeightedAverage(da, w, lat, lo, hi)
  {
    OutOfBandRowIgnored(da, w, lat, lo, hi, i, x, y);
  }

  /** With the default band, two inputs that differ in one cell only, a cell
      that survives in neither, have the same average. */
  lemma DefaultBandDroppedCell(da: Grid, w: Grid, da2: Grid, w2: Grid, lat: seq<real>, i: int, j: int)
    requires Conformable(da, w, lat) && Conformable(da2, w, lat) && SameShape(w2, w)
    requires 0 <= i < |da| && 0 <= j < |da[i]|
    requires forall k, l :: 0 <= k < |da| && 0 <= l < |da[k]| && (k != i || l != j) ==>
      da2[k][l] == da[k][l] && w2[k][l] == w[k][l]
    requires !Survives(da[i][j], w[i][j], lat[i], SouthPole, NorthPole)
    requires !Survives(da2[i][j], w2[i][j], lat[i], SouthPole, NorthPole)
    ensures WeightedAverage(da, w, lat, SouthPole, NorthPole) == WeightedAverage(da2, w2, lat, SouthPole, NorthPole)
  {
    forall k, l | 0 <= k < |da| && 0 <= l < |da[k]|
      ensures MaskCell(da[k][l], w[k][l], lat[k], SouthPole, NorthPole)
           == MaskCell(da2[k][l], w2[k][l], lat[k], SouthPole, NorthPole)
    {
    }
    SameMaskSameAverage(da, w, da2, w2, lat, SouthPole, NorthPole);
  }

  /** With the default band, a zero weight, a NaN weight and a NaN value
      each take their cell out of the sum and the count alike. */
  lemma ZeroWeightActsAsMissingValue(da: Grid, w: Grid, lat: seq<real>, i: int, j: int)
    requires Conformable(da, w, lat) && 0 <= i < |da| && 0 <= j < |da[i]|
    ensures WeightedAverage(da, SetCell(w, i, j, Some(0.0)), lat, SouthPole, NorthPole)
         == WeightedAverage(SetCell(da, i, j, None), w, lat, SouthPole, NorthPole)
    ensures WeightedAverage(da, SetCell(w, i, j, None), lat, SouthPole, NorthPole)
         == WeightedAverage(SetCell(da, i, j, None), w, lat, SouthPole, NorthPole)
  {
    DefaultBandDroppedCell(da, SetCell(w, i, j, Some(0.0)), SetCell(da, i, j, None), w, lat, i, j);
    DefaultBandDroppedCell(da, SetCell(w, i, j, None), SetCell(da, i, j, None), w, lat, i, j);
  }

  /** Away from the default band a zero weight is not the same as a NaN
      value, because the zero still lowers the renormalising mean. One row
      at the equator and the band [-30, 30): values (1, 1) with weights
      (1, 0) average to 2, while values (1, NaN) with weights (1, 1)
      average to 1. */
  lemma ZeroWeightSkewsBandedAverage()
    ensures WeightedAverage([[Some(1.0), Some(1.0)]], [[Some(1.0), Some(0.0)]], [0.0], -30.0, 30.0) == Some(2.0)
    ensures WeightedAverage([[Some(1.0), None]], [[Some(1.0), Some(1.0)]], [0.0], -30.0, 30.0) == Some(1.0)
  {
    ZeroWeightExample();
    MissingValueExample();
  }

  lemma ZeroWeightExample()
    ensures WeightedAverage([[Some(1.0), Some(1.0)]], [[Some(1.0), Some(0.0)]], [0.0], -30.0, 30.0) == Some(2.0)
  {
    var da, w: Grid := [[Some(1.0), Some(1.0)]], [[Some(1.0), Some(0.0)]];
    ExampleWeightMean(w, 1.0, 0.0, 0.5);
    ExampleContributions(da, w, 1.0);
    BandedAverage(da, w, [0.0], -30.0, 30.0, 0.5);
  }

  lemma MissingValueExample()
    ensures WeightedAverage([[Some(1.0), None]], [[Some(1.0), Some(1.0)]], [0.0], -30.0, 30.0) == Some(1.0)
  {
    var da, w: Grid := [[Some(1.0), None]], [[Some(1.0), Some(1.0)]];
    ExampleWeightMean(w, 1.0, 1.0, 1.0);
    ExampleContributions(da, w, 1.0);
    BandedAverage(da, w, [0.0], -30.0, 30.0, 1.0);
  }

  /** The in-band weight mean of one equatorial row of two weights. */
  lemma ExampleWeightMean(w: Grid, a: real, b: real, m: real)
    requires w == [[Some(a), Some(b)]] && m == (a + b) / 2.0
    ensures GridMean(WhereInBand(w, [0.0], -30.0, 30.0)) == Some(m)
  {
    assert WhereInBand(w, [0.0], -30.0, 30.0) == w;
    assert Present(w[0]) == [a, b] by {
      assert Present(w[0][1..]) == [b];
    }
    assert GridPresent(w) == [a, b] by {
      assert GridPresent(w[1..]) == [];
    }
    assert Sum([a, b]) == a + b by {
      assert [a, b][1..] == [b];
      assert Sum([b]) == b + Sum([]);
    }
  }

  /** One equatorial row of two cells in which only the first survives, with
      value × weight equal to `c`. */
  lemma ExampleContributions(da: Grid, w: Grid, c: real)
    requires |da| == |w| == 1 && |da[0]| == |w[0]| == 2
    requires Survives(da[0][0], w[0][0], 0.0, -30.0, 30.0) && da[0][0].value * w[0][0].value == c
    requires !Survives(da[0][1], w[0][1], 0.0, -30.0, 30.0)
    ensures Contributions(da, w, [0.0], -30.0, 30.0) == [c]
  {
    assert RowContributions(da[0], w[0], 0.0, -30.0, 30.0) == [c] by {
      assert RowContributions(da[0][1..], w[0][1..], 0.0, -30.0, 30.0) == [];
    }
  }
}

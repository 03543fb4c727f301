/** `coslat_weight` and `coslat_area_avg` of climate_data_science_functions.py.
    The cosine itself is not modelled: `factor` stands for
    `np.cos(np.deg2rad(lat))` and may be any function of the latitude alone,
    so what is captured is how the factor is applied and averaged. */
module CosLat {
  import opened NanArrays

  /** `factor(lat)` for every latitude. */
  function Factors(lat: seq<real>, factor: real -> real): (f: seq<real>)
    ensures |f| == |lat|
  {
    seq(|lat|, i requires 0 <= i < |lat| => factor(lat[i]))
  }

  /** `da * cos(lat)`: every cell multiplied by the factor of its own
      latitude; NaN cells stay NaN and the grid keeps its shape. */
  function CoslatWeight(da: Grid, lat: seq<real>, factor: real -> real): (r: Grid)
    requires |lat| == |da|
    ensures SameShape(r, da)
  {
    seq(|da|, i requires 0 <= i < |da| =>
      seq(|da[i]|, j requires 0 <= j < |da[i]| => Mul(da[i][j], Some(factor(lat[i])))))
  }

  /** A row whose cells are those of `x` times `k` holds the non-NaN values
      of `x` scaled by `k`, in the same order. */
  lemma {:induction false} PresentOfScaledRow(r: Row, x: Row, k: real)
    requires |r| == |x|
    requires forall j :: 0 <= j < |r| ==> r[j] == Mul(x[j], Some(k))
    ensures Present(r) == Scaled(Present(x), k)
  {
    if |r| > 0 {
      PresentOfScaledRow(r[1..], x[1..], k);
      var head := if x[0].Some? then [x[0].value] else [];
      ScaledConcat(head, Present(x[1..]), k);
      if x[0].Some? {
        assert r[0].value == x[0].value * k;
        assert Scaled(head, k)[0] == r[0].value;
        assert Scaled(head, k) == [r[0].value];
      }
    }
  }

  /** Each weighted row holds exactly the non-NaN values of the original row,
      each times the factor of that row's latitude. */
  lemma WeightedRow(da: Grid, lat: seq<real>, factor: real -> real, i: int)
    requires |lat| == |da| && 0 <= i < |da|
    ensures Present(CoslatWeight(da, lat, factor)[i]) == Scaled(Present(da[i]), factor(lat[i]))
  {
    PresentOfScaledRow(CoslatWeight(da, lat, factor)[i], da[i], factor(lat[i]));
  }

  /** A row whose latitude has factor one (the equator, for the cosine) is
      left as it is, whatever the factors of the other rows. */
  lemma UnitFactorLeavesRow(da: Grid, lat: seq<real>, factor: real -> real, i: int)
    requires |lat| == |da| && 0 <= i < |da|
    requires factor(lat[i]) == 1.0
    ensures CoslatWeight(da, lat, factor)[i] == da[i]
  {
    var r := CoslatWeight(da, lat, factor);
    forall j | 0 <= j < |da[i]| ensures r[i][j] == da[i][j] {
      if da[i][j].Some? {
        assert r[i][j].value == da[i][j].value * 1.0;
      }
    }
  }

  /** `da.mean(dim='lon') * cos(lat)`: the NaN-skipping mean of each row
      times the factor of its latitude. */
  function WeightedRowMeans(da: Grid, lat: seq<real>, factor: real -> real): (r: Row)
    requires |lat| == |da|
    ensures |r| == |da|
  {
    seq(|da|, i requires 0 <= i < |da| => Mul(RowMean(da[i]), Some(factor(lat[i]))))
  }

  /** `(da.mean(dim='lon') * cos(lat)).mean(dim='lat')`: the NaN-skipping
      mean over latitude of the weighted row means. The result is NaN
      exactly when every cell of the field is NaN. */
  function CoslatAreaAvg(da: Grid, lat: seq<real>, factor: real -> real): (r: Value)
    requires |lat| == |da|
    ensures r.None? <==> GridAllMissing(da)
  {
    var means := WeightedRowMeans(da, lat, factor);
    assert AllMissing(means) <==> GridAllMissing(da) by {
      assert forall i :: 0 <= i < |da| ==> (means[i].None? <==> AllMissing(da[i]));
    }
    RowMean(means)
  }

  /** For a field equal to `c` wherever it is not NaN, with no row entirely
      NaN, the area average is `c` times the plain mean of the factors: the
      sum is divided by the number of latitudes, not by the sum of the
      factors, so the result is not `c` unless the factors average to one. */
  lemma ConstantFieldAreaAvg(da: Grid, lat: seq<real>, factor: real -> real, c: real)
    requires |lat| == |da|
    requires forall i :: 0 <= i < |da| ==> !AllMissing(da[i])
    requires forall i, j :: 0 <= i < |da| && 0 <= j < |da[i]| && da[i][j].Some? ==> da[i][j].value == c
    ensures CoslatAreaAvg(da, lat, factor) == Mul(Mean(Factors(lat, factor)), Some(c))
  {
    var means := WeightedRowMeans(da, lat, factor);
    var f := Factors(lat, factor);
    forall i | 0 <= i < |da| ensures means[i] == Some(f[i] * c) {
      RowMeanConstant(da[i], c);
      assert means[i].value == c * f[i];
    }
    assert Values(means) == Scaled(f, c) by {
      forall i | 0 <= i < |da| ensures Values(means)[i] == Scaled(f, c)[i] {
        assert Values(means)[i] == means[i].value;
      }
    }
    PresentOfComplete(means);
    MeanScaled(f, c);
  }

  /** When every row has the same number `n > 0` of non-NaN cells, averaging
      the row means is the same as weighting the whole field and taking its
      joint NaN-skipping mean. */
  lemma AreaAvgIsMeanOfWeighted(da: Grid, lat: seq<real>, factor: real -> real, n: nat)
    requires |lat| == |da| && |da| > 0 && n > 0
    requires forall i :: 0 <= i < |da| ==> |Present(da[i])| == n
    ensures CoslatAreaAvg(da, lat, factor) == GridMean(CoslatWeight(da, lat, factor))
  {
    var w := CoslatWeight(da, lat, factor);
    forall i | 0 <= i < |da|
      ensures |Present(w[i])| == n && RowMean(w[i]) == Mul(RowMean(da[i]), Some(factor(lat[i])))
    {
      WeightedRow(da, lat, factor, i);
      MeanScaled(Present(da[i]), factor(lat[i]));
    }
    MeanOfRowMeans(w, n);
    assert RowMeans(w) == WeightedRowMeans(da, lat, factor);
  }
}

/** The level spacing of `symmetric_cf_levels` in
    climate_data_science_functions.py: `np.linspace(-lim, lim, nlevels)`.
    The limit `lim` (a NaN-skipping median of absolute values plus three
    NaN-skipping standard deviations) is taken as an input. */
module ContourLevels {

  datatype LinspaceError = NegativeSampleCount(num: int)

  datatype Result<T> = Ok(value: T) | Err(error: LinspaceError)

  /** `np.linspace(start, stop, num)` with its default `endpoint=True`:
      a negative count is an error; no samples give the empty array; one
      sample is `start` alone; otherwise sample `i` is `start + i * step`
      with `step = (stop - start) / (num - 1)`, and the last sample is set to
      `stop` itself. */
  function Linspace(start: real, stop: real, num: int): (r: Result<seq<real>>)
    ensures r.Err? <==> num < 0
    ensures r.Err? ==> r.error == NegativeSampleCount(num)
    ensures r.Ok? ==> |r.value| == num
    ensures r.Ok? && num >= 1 ==> r.value[0] == start
    ensures r.Ok? && num >= 2 ==> r.value[num - 1] == stop
  {
    if num < 0 then Err(NegativeSampleCount(num))
    else if num <= 1 then Ok(seq(num, i => start))
    else
      var step := Step(start, stop, num);
      Ok(seq(num, i requires 0 <= i < num => if i == num - 1 then stop else start + i as real * step))
  }

  /** The spacing of `num >= 2` samples. */
  function Step(start: real, stop: real, num: int): real
    requires num >= 2
  {
    (stop - start) / (num - 1) as real
  }

  /** Setting the last sample to `stop` changes nothing over the reals:
      every sample, the last one included, is `start + i * step`. */
  lemma LinspaceClosedForm(start: real, stop: real, num: int)
    requires num >= 2
    ensures forall i :: 0 <= i < num ==>
      Linspace(start, stop, num).value[i] == start + i as real * Step(start, stop, num)
  {
    var step := Step(start, stop, num);
    QuotientTimesDivisor(stop - start, (num - 1) as real, step);
  }

  lemma QuotientTimesDivisor(x: real, d: real, q: real)
    requires d > 0.0 && q == x / d
    ensures d * q == x
  {
  }

  /** Consecutive samples are exactly one step apart. */
  lemma LinspaceEvenlySpaced(start: real, stop: real, num: int)
    requires num >= 2
    ensures forall i :: 0 <= i < num - 1 ==>
      Linspace(start, stop, num).value[i + 1] - Linspace(start, stop, num).value[i] == Step(start, stop, num)
  {
    LinspaceClosedForm(start, stop, num);
    var v, step := Linspace(start, stop, num).value, Step(start, stop, num);
    forall i | 0 <= i < num - 1 ensures v[i + 1] - v[i] == step {
      assert (i + 1) as real * step == i as real * step + step;
    }
  }

  /** `symmetric_cf_levels` once `lim` is known. */
  function SymmetricCfLevels(lim: real, nlevels: int): (r: Result<seq<real>>)
    ensures r.Err? <==> nlevels < 0
    ensures r.Ok? ==> |r.value| == nlevels
  {
    Linspace(-lim, lim, nlevels)
  }

  /** The levels are symmetric about zero: level `i` is the negation of
      level `nlevels - 1 - i`. */
  lemma {:induction false} LevelsAntisymmetric(lim: real, nlevels: int)
    requires nlevels >= 2
    ensures forall i :: 0 <= i < nlevels ==>
      SymmetricCfLevels(lim, nlevels).value[i] == -SymmetricCfLevels(lim, nlevels).value[nlevels - 1 - i]
  {
    LinspaceClosedForm(-lim, lim, nlevels);
    var v, step := SymmetricCfLevels(lim, nlevels).value, Step(-lim, lim, nlevels);
    QuotientTimesDivisor(2.0 * lim, (nlevels - 1) as real, step);
    forall i | 0 <= i < nlevels ensures v[i] == -v[nlevels - 1 - i] {
      assert (nlevels - 1 - i) as real * step == (nlevels - 1) as real * step - i as real * step;
    }
  }

  /** For an odd number of levels the middle one is zero. */
  lemma MiddleLevelIsZero(lim: real, nlevels: int)
    requires nlevels >= 3 && nlevels % 2 == 1
    ensures SymmetricCfLevels(lim, nlevels).value[nlevels / 2] == 0.0
  {
    LevelsAntisymmetric(lim, nlevels);
    assert nlevels - 1 - nlevels / 2 == nlevels / 2;
  }

  /** With `lim >= 0` the levels never decrease, and with `lim > 0` they
      strictly increase, so they are valid contour levels. */
  lemma LevelsOrdered(lim: real, nlevels: int)
    requires nlevels >= 2 && lim >= 0.0
    ensures forall i, j :: 0 <= i < j < nlevels ==>
      SymmetricCfLevels(lim, nlevels).value[i] <= SymmetricCfLevels(lim, nlevels).value[j]
    ensures lim > 0.0 ==> forall i, j :: 0 <= i < j < nlevels ==>
      SymmetricCfLevels(lim, nlevels).value[i] < SymmetricCfLevels(lim, nlevels).value[j]
  {
    LinspaceClosedForm(-lim, lim, nlevels);
    var v, step := SymmetricCfLevels(lim, nlevels).value, Step(-lim, lim, nlevels);
    QuotientSign(2.0 * lim, (nlevels - 1) as real, step);
    forall i, j | 0 <= i < j < nlevels ensures v[i] <= v[j] && (lim > 0.0 ==> v[i] < v[j]) {
      ProductSign((j - i) as real, step);
      assert v[j] - v[i] == (j - i) as real * step;
    }
  }

  lemma QuotientSign(x: real, d: real, q: real)
    requires d > 0.0 && q == x / d
    ensures x >= 0.0 ==> q >= 0.0
    ensures x > 0.0 ==> q > 0.0
  {
    assert d * q == x;
  }

  lemma ProductSign(a: real, b: real)
    requires a > 0.0
    ensures b >= 0.0 ==> a * b >= 0.0
    ensures b > 0.0 ==> a * b > 0.0
  {
  }

  /** A single level is `-lim` alone, not a level symmetric about zero. */
  lemma SingleLevel(lim: real)
    ensures SymmetricCfLevels(lim, 1) == Ok([-lim])
  {
    var r := SymmetricCfLevels(lim, 1);
    assert r.value[0] == -lim;
    assert r.value == [-lim];
  }
}

# Weighted spatial averaging helpers, modelled in Dafny

This project models the array logic of `climate_data_science_functions.py`, a
helper module for latitude/longitude climate fields. It covers three pieces:

- `weighted_average` averages a field over a half-open latitude band with a
  grid of cell weights. Cells that are NaN, have a zero weight or lie
  outside the band are masked out.
- `coslat_weight` and `coslat_area_avg` multiply a field by the cosine of
  latitude, or average it with that factor.
- `symmetric_cf_levels` picks contour levels by evenly spacing values from
  `-lim` to `lim` with `np.linspace`.

## How the model represents the code

- **Values.** A field is a grid of cells indexed by latitude, then
  longitude. A cell is `Option<real>`, and `None` stands for NaN.
- **Latitudes.** The latitudes of the rows are a separate `seq<real>`.
- **Arithmetic.** It propagates NaN, like numpy's.
- **`mean`.** It skips NaN cells the way xarray's `mean` does by default. A
  mean of no values at all is NaN.
- **Modules.** There is one module per concern:
  - `NanArrays` (`nan_arrays.dfy`) holds the cells, the grids and the NaN-skipping means.
  - `BandAverage` (`band_average.dfy`) holds `weighted_average`.
  - `CosLat` (`coslat.dfy`) holds the cosine-latitude helpers.
  - `ContourLevels` (`contour_levels.dfy`) holds `np.linspace` and `symmetric_cf_levels`.

`WeightedAverage` is written as the same chain of whole-grid steps as the
code:

1. When `lat_bnds` differs from `[-90, 90]`, the weights are restricted to
   the band.
2. In that same case, they are then divided by their NaN-skipping mean.
3. Cells with a zero weight are masked (`where(weights != 0)`).
4. Cells outside the band are masked.
5. The result is the NaN-skipping mean of what is left.

Its partner is a reference definition, `Contributions`. It collects
value × weight for every surviving cell, directly. The lemmas show what this
chain amounts to:

- the result is sum over count of the surviving products, not a division by
  the sum of the weights;
- the band test is half-open, so latitude 90 never counts when the upper
  bound is at most 90, the default band included;
- away from the default band, the weights used have mean one when the
  in-band weight mean is nonzero;
- constant weights are not normalised under the default band, and they cancel
  away from it;
- a band that is empty or has no usable weight gives NaN.

Some properties one might expect of a "weighted average" do not hold of
this code. The model follows the code and proves what it actually does:

- **Uniform weights under the default band.** Weights all equal to `k`
  give `k` times the mean of the values below latitude 90
  (`DefaultBandConstantWeights`). So they give the plain mean when every
  weight is 1 and no row lies at latitude 90, but not in general.
- **A field of ones in a banded average.** Away from the default band the
  result is the mean of the surviving cells' weights divided by the mean of
  all non-NaN in-band weights (`BandedAverage`). A zero in-band weight counts
  in the second mean but not in the first. So, when the in-band weight mean is
  nonzero and no value is NaN, a zero in-band weight always makes the result
  differ from 1. A NaN value drops its weight from the first mean only. So NaN
  values leave the result at 1 whenever the surviving weights have the same
  mean as all the in-band weights, as constant weights do
  (`BandedConstantWeights`).
- **A zero weight compared with a NaN value.** Under the default band they
  are interchangeable (`ZeroWeightActsAsMissingValue`). In a narrower band
  they are not: the worked example in `ZeroWeightSkewsBandedAverage` gives 2
  for one and 1 for the other.

The contour levels are symmetric about zero (`LevelsAntisymmetric`), so an
odd number of levels has a middle level of exactly 0 (`MiddleLevelIsZero`).
A single contour level is `-lim` alone (`SingleLevel`).

## Model

| member | source | states |
|---|---|---|
| NanArrays.RowMean | climate_data_science_functions.py:122 | `mean(dim='lon')` on one row skips NaN cells and is NaN exactly when every cell of the row is NaN |
| NanArrays.GridMean | climate_data_science_functions.py:197 | `mean(dim=['lat','lon'])` skips NaN cells and is NaN exactly when every cell of the grid is NaN |
| BandAverage.MaskedCells | climate_data_science_functions.py:195-196 | after both `where` steps, a cell holds value × weight when its latitude is in `[lo, hi)`, its value and weight are not NaN and its weight is not zero, and is NaN otherwise |
| BandAverage.Renormalised | climate_data_science_functions.py:193 | every weight is divided by the NaN-skipping mean of the weights, keeping the shape; `RenormalisedMeanIsOne` and `BandedAverage` state what this does to the mean and to the average |
| BandAverage.EffectiveWeights | climate_data_science_functions.py:191-193 | the weights are used as given for `lat_bnds == [-90, 90]`, and otherwise restricted to the band and then renormalised, keeping the shape; `DefaultBandAverage`, `RenormalisedMeanIsOne` and `BandedAverage` carry the consequences |
| BandAverage.Masked | climate_data_science_functions.py:195-196 | `(da * weights).where(weights != 0)` followed by the band `where`, keeping the shape; `MaskedCells` states it cell by cell |
| BandAverage.WeightedAverage | climate_data_science_functions.py:168-198 | the average is NaN exactly when no cell survives the masking under the weights actually used |
| BandAverage.AverageIsSumOverCount | climate_data_science_functions.py:195-197 | the average is the sum of value × weight over the surviving cells divided by their number, with the weights actually used |
| BandAverage.DefaultBandAverage | climate_data_science_functions.py:191-197 | with `lat_bnds == [-90, 90]` the weights are used exactly as given |
| BandAverage.ContributionsEmptyIff | climate_data_science_functions.py:195-197 | no product is collected exactly when no cell survives |
| BandAverage.RenormalisedMeanIsOne | climate_data_science_functions.py:191-193 | away from the default band, when the in-band weight mean is nonzero, the weights used have NaN-skipping mean one |
| BandAverage.BandedAverage | climate_data_science_functions.py:191-197 | away from the default band, the average is the mean of value × (given weight) over the surviving cells divided by the in-band mean of the given weights |
| BandAverage.DefaultBandConstantWeights | climate_data_science_functions.py:191-197 | with the default band and every weight equal to `k != 0`, the average is `k` times the NaN-skipping mean of the values with latitude below 90 |
| BandAverage.BandedConstantWeights | climate_data_science_functions.py:191-197 | away from the default band, constant nonzero in-band weights give the NaN-skipping mean of the in-band values |
| BandAverage.EmptyBand | climate_data_science_functions.py:196-197 | `lo >= hi` gives NaN |
| BandAverage.NoUsableWeight | climate_data_science_functions.py:191-197 | if every in-band weight is zero or NaN the result is NaN rather than an error |
| BandAverage.OutOfBandRowIgnored | climate_data_science_functions.py:196 | replacing the values and weights of a row outside the band leaves the average unchanged |
| BandAverage.NorthPoleRowIgnored | climate_data_science_functions.py:196 | a row at latitude 90 never affects the average when `hi <= 90`, the default band included |
| BandAverage.DefaultBandDroppedCell | climate_data_science_functions.py:195-197 | under the default band, two inputs that differ only in one cell, a cell that survives in neither, have the same average |
| BandAverage.ZeroWeightActsAsMissingValue | climate_data_science_functions.py:195-197 | under the default band, a zero weight, a NaN weight and a NaN value give the same average |
| BandAverage.ZeroWeightSkewsBandedAverage | climate_data_science_functions.py:191-197 | in the band `[-30, 30)`, values (1, 1) with weights (1, 0) average to 2, while values (1, NaN) with weights (1, 1) average to 1 |
| CosLat.CoslatWeight | climate_data_science_functions.py:141-142 | `da * cos(lat)` keeps the shape of the field, and every cell is multiplied by the factor of its own row's latitude, NaN cells staying NaN; `WeightedRow` states this row by row |
| CosLat.WeightedRow | climate_data_science_functions.py:141-142 | each row of `coslat_weight` holds the non-NaN values of the original row, in order, each times the factor of that row's latitude |
| CosLat.UnitFactorLeavesRow | climate_data_science_functions.py:141-142 | a row whose latitude has factor one, as the equator row has, is unchanged, whatever the latitudes of the other rows |
| CosLat.WeightedRowMeans | climate_data_science_functions.py:122 | `da.mean(dim='lon') * cos(lat)` has one entry per latitude, the NaN-skipping row mean times that row's factor; `CoslatAreaAvg` and `ConstantFieldAreaAvg` carry its behaviour |
| CosLat.CoslatAreaAvg | climate_data_science_functions.py:121-122 | the area average is NaN exactly when every cell of the field is NaN |
| CosLat.ConstantFieldAreaAvg | climate_data_science_functions.py:121-122 | a field equal to `c` with no all-NaN row averages to `c` times the plain mean of the factors; it is divided by the number of latitudes, not the sum of the factors |
| CosLat.AreaAvgIsMeanOfWeighted | climate_data_science_functions.py:121-122 | when every row has the same number of non-NaN cells, the area average equals the joint NaN-skipping mean of `coslat_weight(da)` |
| ContourLevels.Linspace | climate_data_science_functions.py:164 | `np.linspace` fails exactly for a negative count, returns that many samples, and starts at `start` and ends at `stop` |
| ContourLevels.LinspaceClosedForm | climate_data_science_functions.py:164 | every sample, the last one included, is `start + i * (stop - start) / (num - 1)` |
| ContourLevels.LinspaceEvenlySpaced | climate_data_science_functions.py:164 | consecutive samples are exactly one step apart |
| ContourLevels.SymmetricCfLevels | climate_data_science_functions.py:164 | the levels fail exactly for a negative `nlevels` and otherwise number `nlevels` |
| ContourLevels.LevelsAntisymmetric | climate_data_science_functions.py:164 | for `nlevels >= 2`, level `i` is the negation of level `nlevels - 1 - i` |
| ContourLevels.MiddleLevelIsZero | climate_data_science_functions.py:164 | for an odd `nlevels >= 3` the middle level is exactly zero |
| ContourLevels.LevelsOrdered | climate_data_science_functions.py:163-164 | for `lim >= 0` the levels are nondecreasing, and for `lim > 0` strictly increasing |
| ContourLevels.SingleLevel | climate_data_science_functions.py:164 | one level is `[-lim]` |

## Left out

- `add_cartopy_gridlines`, `cyclic_contourf` and `symmetric_y_axis` (climate_data_science_functions.py:20-102) are not modelled. They only draw on a matplotlib/cartopy axis.
- The values of `np.cos(np.deg2rad(lat))` are not modelled. `CosLat` takes the factor as an arbitrary function of latitude.
- Because the cosine is not modelled, a fact about one latitude is stated with that latitude's factor as a hypothesis. `UnitFactorLeavesRow` does this for a factor of one, and `WeightedRow` does it for any factor, such as 0.5 at latitude 60.
- `np.nanmedian` and `np.nanstd` (climate_data_science_functions.py:163) are not modelled. `lim` is an input, and the ordering lemma assumes `lim >= 0`, which holds for a median of absolute values plus three standard deviations.
- An all-NaN field makes `lim` NaN. This is not modelled.
- Floating-point rounding is not modelled. Values are exact reals, so "the middle level is zero" holds exactly here but only up to rounding in numpy.
- BandAverage.WeightedAverage: dividing a nonzero weight by a zero in-band weight mean gives NaN here, where numpy gives an infinity. This needs weights of both signs summing to zero over the band, and area or cosine weights never do that. 0/0 is NaN in both.
- xarray's coordinate alignment and broadcasting are not modelled. The model takes one latitude/longitude slice, with weights on the same grid (`Conformable`).
- Weights given as a latitude-only vector or as a plain `np.array` are not modelled. For a plain `np.array` away from the default band, the code fails at `weights.where`, because a numpy array has no `where` method.
- Extra non-spatial axes, such as time, are not modelled. The rule would apply once per slice.
- `lat_bnds` is modelled as two reals, and only `[-90, 90]` counts as the default. In the code the test is a Python list comparison, so a tuple `(-90, 90)` compares unequal and still triggers renormalisation. The model does not distinguish the two.
- Python-level argument errors are not modelled. Examples are a non-integer `nlevels`, or `lat_bnds` with fewer than two entries.
- The unused imports (`os`, `pickle`, `scipy.signal`, `warnings`) are not modelled. They have no behaviour.

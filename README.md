# Seasonality peak search

This project models the peak search at the heart of `find_seasonality`, which
detects the seasonality period of a time series from its autocorrelation
vector `r[0..max_lag]`. The search ignores lag 0. Over lags `1..max_lag` it
builds a mask of the lags whose value is strictly above the fixed significance
threshold 0.1 and equal to the maximum over those lags. It returns the smallest
masked lag, or `None` when the mask is empty.

The autocorrelation vector is a parameter of the model: `Seasonality.PeakSearch`
takes it as a `seq<real>` with at least one lag beyond lag 0, and
`Seasonality.FindSeasonality` also covers the shorter vector, on which the
maximum over an empty lag range raises an error. Values are exact reals.

The model follows the source's own steps: `Max` is `np.max`, `Where` is the
ordered index list of `np.where` over the mask, and the result is the first
index plus one. `IsSeasonalPeriod` is an independent reference definition
("above the threshold, nothing larger, everything earlier strictly smaller"),
and the lemmas tie the search to it in both directions.

## Model

| member | source | states |
|---|---|---|
| Seasonality.Max | FindSeasonality.py:24 | the maximum bounds every value of the lag slice and is attained by one of them |
| Seasonality.IsPeak | FindSeasonality.py:23-24 | one element of the boolean mask: the value is strictly above 0.1 and equal to the maximum |
| Seasonality.Where | FindSeasonality.py:23-24 | the positions returned are in range, strictly increasing, and are exactly the positions whose value is above 0.1 and equal to the maximum |
| Seasonality.WhereFirst | FindSeasonality.py:23-28 | every position of the lag slice where the mask holds makes the reported list non-empty and comes at or after its first position |
| Seasonality.NoPeakIffMaxLow | FindSeasonality.py:23-26 | the mask over lags 1..max_lag is empty exactly when their maximum is at most 0.1 |
| Seasonality.FirstPeak | FindSeasonality.py:23-28 | when the mask is non-empty, its first position plus one is a lag whose value is the maximum above 0.1, and no earlier lag holds the maximum |
| Seasonality.Lags | FindSeasonality.py:22-24 | definition: the values at lags 1..max_lag, `autocorr_values[lag_indices]` with `lag_indices = np.arange(1, len(autocorr_values))` |
| Seasonality.LagMax | FindSeasonality.py:22-24 | the maximum over lags 1..max_lag bounds every such lag's value and is attained at one of them; lag 0 is not part of it |
| Seasonality.PeakSearch | FindSeasonality.py:21-29 | a returned lag lies in 1..max_lag, its value exceeds 0.1, equals the maximum over lags 1..max_lag, and no earlier lag reaches that maximum; `None` is returned exactly when the maximum is at most 0.1 |
| Seasonality.FindSeasonality | FindSeasonality.py:21-29 | fails exactly when the vector has no lag beyond lag 0; otherwise a returned lag meets the reference definition and `None` means the maximum is at most 0.1 |
| Seasonality.PeakIsSeasonalPeriod | FindSeasonality.py:23-28 | every returned lag meets the reference definition of the seasonality period |
| Seasonality.SeasonalPeriodUnique | FindSeasonality.py:26-28 | at most one lag meets the reference definition, so taking the first masked lag is deterministic |
| Seasonality.PeakSearchCharacterized | FindSeasonality.py:21-29 | the search returns lag k if and only if k meets the reference definition |
| Seasonality.NoneIffNoSeasonalPeriod | FindSeasonality.py:26-29 | the search returns `None` if and only if no lag meets the reference definition |
| Seasonality.ResultIndexesFullVector | FindSeasonality.py:22-28 | the value the mask picked at the first reported slice position is the full vector's value at the returned lag, and that value meets the mask |
| Seasonality.LagZeroIgnored | FindSeasonality.py:21-24 | changing the value at lag 0 leaves the result unchanged |
| Seasonality.SingleLag | FindSeasonality.py:22-29 | with max_lag = 1 the result is lag 1 when its value exceeds 0.1 and `None` otherwise |
| Seasonality.Detected | FindSeasonality.py:58 | Python truthiness of the returned value: `None` and `0` are false, every other lag is true |
| Seasonality.DetectedIffFound | FindSeasonality.py:28-58 | the caller's truthiness test on the result (line 58) reports detection exactly when a lag was returned, because the shift by one at line 28 keeps every returned lag at 1 or more |

## Left out

- The autocorrelation computation (`acf(..., fft=True)` from statsmodels, FindSeasonality.py:19): a foreign library working in floating point; its output is the model's input vector.
- Floating-point behaviour of the comparisons with the threshold and with `np.max` (NaN values, rounding): values are exact reals, so a constant series, whose autocorrelation is NaN, is not modelled.
- `generate_seasonal_data` (FindSeasonality.py:33-40): sine wave plus random noise.
- The `__main__` block (FindSeasonality.py:44-61): plotting and printing; only its truthiness test on the result is modelled, by `Detected`.
- ReadDataset.py: CSV reading, a column-presence check, plotting and printed error messages, all I/O with no algorithmic content.

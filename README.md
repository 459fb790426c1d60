# ARIMA grid search and evaluation pipeline, modelled in Dafny

The notebook `arima_timeseries_prediction_traintest.py` fits ARIMA models to a
monthly energy-consumption series. Its own logic, apart from plotting and
library calls, is:

- a grid search over the (p, d, q) orders of `itertools.product(p_values,
  d_values, q_values)` that keeps the first order with the smallest mean
  squared error, starting from a `float('inf')` sentinel;
- an 80/20 split of the series into a training prefix and a validation
  suffix, and three forecasts over inclusive label ranges;
- residuals computed by pandas' index-aligned subtraction followed by
  `dropna()`;
- the normality verdicts drawn from a Shapiro-Wilk p-value and from an
  Anderson-Darling statistic against a list of critical values.

The model has one module per concern:

- `series.dfy` (`TimeSeries`): a pandas Series with a contiguous integer
  index, `Series(start, values)`, and `Predict`, a forecast over an
  inclusive label range where the fitted model is an uninterpreted
  `forecast: int -> real`.
- `grid_search.dfy` (`GridSearch`): the candidate enumeration (`Product`),
  Python's float `<` on scores that may be +infinity or NaN, the running
  best score as a fold (`BestScore`), the reference meaning "first minimum"
  (`IsFirstMinimum`), and the search loop itself as the method `Search`,
  with fitting and scoring passed in as uninterpreted functions.
- `split.dfy` (`Split`): `int(len * 0.8)`, the two slices, and the lemmas on
  the three forecast ranges.
- `residuals.dfy` (`Residuals`): aligned pairs, the raw aligned subtraction
  with missing values, `dropna()`, and the residual series.
- `evaluation.dfy` (`Evaluation`): how the metric library pairs its two
  arguments (by position, with a length check), and the finding below.
- `normality.dfy` (`Normality`): the Shapiro-Wilk and Anderson-Darling
  verdicts.

The model follows the code as written:

- There is no exception handler around `fit()` (lines 299-300). An exception
  from a fit ends the run. The model treats fitting as a total function.
- The split (lines 326-331) checks nothing. With fewer than two points the
  training part is simply empty.
- `mean_squared_error` (lines 306, 471), `r2_score` (line 477) and
  `mean_absolute_error` (line 480) pair their arguments by position. They
  reject inputs of unequal lengths (checked first), then inputs with no
  samples, and values that are not finite (see Findings). MAPE (lines 492-493) is pandas
  arithmetic and aligns by label.

## Model

| member | source | states |
|---|---|---|
| TimeSeries.Predict | arima_timeseries_prediction_traintest.py:347-353 | `predict(start, end)` is inclusive: the result has exactly the labels start..end, end-start+1 points (none if end < start), each the model's forecast for its label |
| TimeSeries.PredictValue | arima_timeseries_prediction_traintest.py:347-353 | point k of the forecast over start..end (for start + k ≤ end) exists and is the forecast for label start + k |
| GridSearch.Product | arima_timeseries_prediction_traintest.py:289 | the candidate list has exactly \|P\|·\|D\|·\|Q\| orders |
| GridSearch.ProductAt | arima_timeseries_prediction_traintest.py:284-289 | the combination (P[i], D[j], Q[k]) sits at position (i·\|D\| + j)·\|Q\| + k: p varies slowest, q fastest |
| GridSearch.ProductMember | arima_timeseries_prediction_traintest.py:284-289 | an order is a candidate iff p is in P, d in D and q in Q |
| GridSearch.FlatIndexLexicographic | arima_timeseries_prediction_traintest.py:289 | one position precedes another iff its (i, j, k) is lexicographically smaller, so enumeration order is lexicographic with p outermost |
| GridSearch.NotebookGrid | arima_timeseries_prediction_traintest.py:284-289 | the notebook's grid is the eight orders (13,0,12), (13,0,24), (13,1,12), (13,1,24), (25,0,12), (25,0,24), (25,1,12), (25,1,24), in that order |
| GridSearch.Less | arima_timeseries_prediction_traintest.py:309 | Python's float `<` on scores: a comparison with NaN on either side is false, only a finite score is below anything, and no score is below itself (more in `GridSearch.LessFacts`) |
| GridSearch.ScoresOf | arima_timeseries_prediction_traintest.py:299-306 | one score per candidate, in candidate order: candidate i's score is the error measure applied to the model fitted with order i |
| GridSearch.BestScore | arima_timeseries_prediction_traintest.py:291-310 | the value of `best_mse` after the loop has seen a prefix of the scores: always +infinity or finite, never NaN; its meaning is stated in `GridSearch.BestScoreIsFirstMinimum` and `GridSearch.BestScoreNonIncreasing` |
| GridSearch.LessFacts | arima_timeseries_prediction_traintest.py:309 | Python's float `<`: only a finite score is below anything, nothing is below NaN or itself, every finite score is below the +infinity sentinel |
| GridSearch.FirstMinimumUnique | arima_timeseries_prediction_traintest.py:309-312 | the first minimum, if any, is unique, so the selection is deterministic |
| GridSearch.BestScoreIsFirstMinimum | arima_timeseries_prediction_traintest.py:291-312 | `best_mse` stays +infinity iff no candidate scores a finite error; otherwise it equals the score of the first candidate with the minimum finite score |
| GridSearch.BestScoreNonIncreasing | arima_timeseries_prediction_traintest.py:309-310 | `best_mse` never increases: after any longer prefix of the candidates it is equal to or strictly below its value after a shorter one |
| GridSearch.Search | arima_timeseries_prediction_traintest.py:291-317 | the loop returns no result iff no candidate's error is strictly below +infinity (empty grid, or all NaN/inf); otherwise it returns the params, fitted model and error of the first candidate attaining the minimum, and that error is the final `best_mse` |
| GridSearch.SoleFiniteIsSelected | arima_timeseries_prediction_traintest.py:309-312 | a grid where only one candidate scores a finite error selects that candidate, whatever its value |
| GridSearch.AllTiedSelectsFirst | arima_timeseries_prediction_traintest.py:309-312 | when every candidate has the same finite error, the first in enumeration order is selected and `best_mse` is that error |
| Split.TrainSize | arima_timeseries_prediction_traintest.py:326-329 | `int(n * 0.8)` truncates: it lies in 0..n and is the largest integer not above n·0.8 |
| Split.TrainSizeIsFourFifths | arima_timeseries_prediction_traintest.py:329 | the training size is ⌊4n/5⌋ |
| Split.SplitSeries | arima_timeseries_prediction_traintest.py:329-331 | training part followed by validation part is the series; the training part is the first train_size points; the lengths sum to n; each label of the series lies in exactly one part, with its value; the validation part keeps labels train_size..n-1 |
| Split.ValidationForecastMatchesValidation | arima_timeseries_prediction_traintest.py:353 | the validation forecast `predict(len(train_data), len-1)` has exactly the validation part's labels train_size..n-1, n - train_size points |
| Split.TrainingForecastLength | arima_timeseries_prediction_traintest.py:347 | the training forecast `predict(1, len(train_data))` has as many points as the training part, on labels shifted by one |
| Split.EntireForecastLength | arima_timeseries_prediction_traintest.py:350 | the full forecast `predict(1, len)` has as many points as the series, on labels 1..n against 0..n-1 |
| Residuals.AlignedPairs | arima_timeseries_prediction_traintest.py:554 | pairs exactly the labels both series have, ascending and consecutive from the first shared label, each with the observation and the forecast of that label |
| Residuals.Subtract | arima_timeseries_prediction_traintest.py:554 | pandas subtraction: the union of the labels; a difference where both sides have the label, a missing value where only one does |
| Residuals.DropNa | arima_timeseries_prediction_traintest.py:556 | `dropna()` keeps exactly the labels that carry a value, unchanged |
| Residuals.ResidualSeries | arima_timeseries_prediction_traintest.py:554-556 | the residual series has exactly the labels shared by observations and forecasts, each holding actual minus forecast at that label; nothing is imputed |
| Residuals.ResidualSeriesIsDropNa | arima_timeseries_prediction_traintest.py:554-556 | the residual series, as a map, equals `dropna()` applied to the raw aligned subtraction |
| Residuals.EntireResiduals | arima_timeseries_prediction_traintest.py:554-556 | for data labelled 0..N-1 and the forecast labelled 1..N, the residuals have exactly the labels 1..N-1, residual i being data[i] - forecast(i) |
| Residuals.EntireResidualsCount | arima_timeseries_prediction_traintest.py:554-556 | those residuals start at label 1 and there are N-1 of them |
| Evaluation.PositionalPairs | arima_timeseries_prediction_traintest.py:306 | the metric library pairs its arguments by position, ignoring labels; it raises the inconsistent-lengths error iff the lengths differ, and otherwise the zero-sample error iff both are empty |
| Evaluation.MetricCallsHaveConsistentLengths | arima_timeseries_prediction_traintest.py:506-516 | none of the metric calls (the grid-search score, and the full, training and validation metrics) fails on unequal lengths; each is paired exactly when its part of the series is non-empty |
| Evaluation.EntireScorePairsAreShifted | arima_timeseries_prediction_traintest.py:303-306 | as written, the grid-search score pairs the observation at label k with the forecast for label k+1, and is paired exactly when the series is non-empty |
| Evaluation.ExactForecastIsMispaired | arima_timeseries_prediction_traintest.py:303-306 | a forecast exact at every label of [10, 12] is still paired 10 against 12 |
| Evaluation.ExactForecastAlignedPairsAgree | arima_timeseries_prediction_traintest.py:554 | pairing by label, the same exact forecast yields the single pair (label 1, 12, 12) |
| Evaluation.EntireAlignedPairsMatchLabels | arima_timeseries_prediction_traintest.py:554-556 | pairing the series with the full forecast by label gives N-1 pairs, pair k joining the observation and the forecast of label k+1 |
| Normality.ShapiroAppearsNormal | arima_timeseries_prediction_traintest.py:614-617 | the Shapiro-Wilk verdict "appear to be normally distributed", true only for a p-value strictly above 0.05, so never for one at or below it (the exact float threshold is in `Normality.ShapiroThreshold`) |
| Normality.ShapiroThreshold | arima_timeseries_prediction_traintest.py:614-617 | "normal" iff p exceeds the float 0.05 (written out exactly); p equal to it is "not normal"; a larger p-value never reverses a "normal" verdict |
| Normality.AndersonVerdicts | arima_timeseries_prediction_traintest.py:631-635 | one verdict per critical value, in order, with the significance level of the same position; "may be normal" iff the statistic is strictly below that critical value |
| Normality.AndersonVerdictsMonotone | arima_timeseries_prediction_traintest.py:631-635 | with ascending critical values, a "may be normal" verdict at one level holds at every later level |

## Findings

| source | as written | input that shows it | evidently intended | confidence | as-written member | corrected member |
|---|---|---|---|---|---|---|
| arima_timeseries_prediction_traintest.py:303-306 | `mean_squared_error(Data, predict(start=1, end=len))` pairs the series (labels 0..N-1) with the forecast (labels 1..N) by position, so observation k is scored against the forecast for label k+1; the MSE, R² and MAE of the full-series and training metrics (lines 508, 512) do the same, while their MAPE (line 492) aligns by label | series [10, 12] with a forecast that is exact at both labels: position 0 pairs 10 with 12 | score each observation against the forecast for its own label, on the shared labels 1..N-1, as the residuals at lines 554-556 do | medium; not executed | Evaluation.ExactForecastIsMispaired | Residuals.AlignedPairs |

`Evaluation.EntireScorePairsAreShifted` states the as-written pairing for any
series. `Evaluation.EntireAlignedPairsMatchLabels` proves the intended
pairing for the full-series forecast. The residual series
(`Residuals.ResidualSeries`) is built on `Residuals.AlignedPairs`. In the
grid search the error measure stays an uninterpreted parameter, so the
selection proofs hold for either pairing.

## Left out

- Google Drive mounting, Excel loading, `describe()`, printing and all plots (lines 43-59, 88-110, 140-161, 358-386, 562-570, 588-598, 643-648): input, output and user interface.
- ARIMA fitting, `predict`'s values (including `typ='levels'`), the stationarity test, seasonal decomposition, the Shapiro-Wilk and Anderson-Darling statistics and ACF/PACF estimation: library internals outside the repository. Fitting, scoring and forecasting are uninterpreted functions; test results are inputs.
- GridSearch.Search: an exception raised by `fit()`, `predict()` or the metric would end the notebook. The model treats these calls as total, so it has no abort path.
- The metric formulas of `calculate_metrics_and_print` (lines 469-504): floating-point square roots, logarithms and MAPE's division by zero. Its parameter count is `len(model_order)`, which is 3 for every order (line 484). MAPE (lines 492-493) aligns by label: labels that only one side has give NaN, and the mean skips them. So in the calls at lines 508 and 512 it compares each observation with its own label's forecast, unlike the positional metrics; this pairing is not modelled as a member of its own.
- Random white-noise generation (lines 582-585): nondeterministic and illustrative only.
- Log and differencing transforms (lines 164, 169): thin library calls used only for plots and tests.
- Split.TrainSize: the product `len * 0.8` is computed on exact reals. The double nearest 0.8 lies slightly above 4/5, so for any realistic length the float product truncates to the same ⌊4n/5⌋.
- TimeSeries.Predict: for an empty range (end < start) the model returns an empty forecast; what the library does there is not modelled.
- Normality.ShapiroThreshold: p-values are exact reals. Any double the library returns is such a real, and the threshold is the exact value of the double 0.05, so the verdicts agree on every possible p-value.
- Observations and forecasts are exact reals. NaN inside the data, and so extra rows dropped by `dropna()`, is not modelled. A NaN p-value or Anderson statistic is not modelled either; it would compare false and give the "not normal" verdict.
- GridSearch.Score: has no negative infinity, since a mean squared error is never below zero.

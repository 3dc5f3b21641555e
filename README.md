# NTC thermistor calibrator — a verified model

The NTC Thermistor Calibrator is a desktop tool. It takes three
resistance–temperature pairs from a thermistor and fits two models to them:

- the Steinhart–Hart model `1/T = A + B ln R + C (ln R)^3`, with T in kelvin;
- the β model `R(T) = R25 · exp(β (1/T − 1/T25))`.

A small calculator then evaluates either model in both directions, from
resistance to temperature and back. This project models the computational core
of `python/ntc_calibrator.py` in Dafny and proves properties of it. Six modules
make up the model:

- `Results`: the error-or-value datatype. Every Python exception the core can
  raise becomes one constructor of `Error`. `Collect` is the list comprehension
  that stops at the first failing element.
- `Numerics`: `c_to_k`/`k_to_c`, the float library, and Python's checked
  `math.log` and `/`. Here `ln` and `exp` are uninterpreted function values,
  and `Log` demands a positive argument. numpy's elementwise `log` and `1/x`
  return a non-finite stand-in instead of raising. `Sum` and `Mean` are also here.
- `LocaleNumber`: `norm_float`. This covers `str.strip()` and the separator
  rewrite before `float()`. A separate corrected separator rule is also here
  (see "Findings").
- `SteinhartHart`: the three-point fit, `sh_T_from_R`, and the Newton iteration
  of `sh_R_from_T`. The iteration appears twice: as a function (`Newton`) and
  as the loop in `ComputeRFromT`, which is proved equal to the function.
- `BetaModel`: the two-point β, and R25 as the mean of the per-pair estimates.
  The R25 accumulation loop (`ComputeBetaR25`) is proved equal to `BetaFit`.
  Also here are `beta_R_from_T` and `beta_T_from_R`, with round trips between them.
- `CalibratorApp`: the window's state as a class `App`:
  - its fields are the three resistance entries, the three temperature entries
    and the `_coeffs` cache of five optional reals;
  - its methods are `on_compute`, `on_reset`, `ensure_coeffs` and the two
    calculator buttons.

The model leaves these to its parameters:

- `Platform.toFloat` is Python's `float()` on the normalised text. It returns
  `None` where `float()` raises.
- `Platform.la` holds `numpy.linalg.solve` and `lstsq`. `solve` returns `None`
  where it raises `LinAlgError`.
- `Platform.lib` holds `math.log` and `math.exp`.
- The calculator methods take the radio button's value `choice` and the
  calculator entry's text.

Notes on the code:

- The fits themselves do not check `R > 0`. `parse_inputs` does, and so does
  `calc_T_from_R`.
- `on_compute` runs the Steinhart–Hart fit first. If it fails, the β fit is not
  attempted, and the first error is reported.
- A calculator button pressed before Compute does not fail for want of
  coefficients. `ensure_coeffs` recomputes them from the current entries.
- Every entry is read through `norm_float`. When both separators appear, it
  takes ',' as the decimal mark. The model reads entries exactly this way; the
  rule the docstring describes is modelled beside it (see "Findings").

## Model

| member | source | states |
|---|---|---|
| Numerics.CToK | python/ntc_calibrator.py:37 | c_to_k gives a positive kelvin temperature exactly for temperatures above −273.15 °C |
| Numerics.KToC | python/ntc_calibrator.py:37-38 | k_to_c is the inverse of c_to_k: converting its result back with c_to_k gives the input |
| Numerics.KelvinRoundTrip | python/ntc_calibrator.py:37-38 | k_to_c(c_to_k(t)) == t and c_to_k(k_to_c(t)) == t for every real |
| Numerics.CheckedLog | python/ntc_calibrator.py:74 | math.log raises (MathDomain) exactly when its argument is ≤ 0; otherwise it is ln of the argument |
| Numerics.Div | python/ntc_calibrator.py:59 | float division raises ZeroDivision exactly when the divisor is 0; otherwise the quotient times the divisor is the dividend |
| Numerics.NpReciprocal | python/ntc_calibrator.py:48 | numpy's 1.0 / T_k is a true reciprocal wherever T_k ≠ 0 and never raises |
| Numerics.MeanWithinBounds | python/ntc_calibrator.py:95 | the mean of a non-empty list lies between any lower and upper bound of its elements |
| Numerics.MeanPositive | python/ntc_calibrator.py:95 | the mean of positive values is positive |
| Results.Collect | python/ntc_calibrator.py:230-231 | a list comprehension succeeds exactly when every element does, yielding every element's value in order; otherwise it reports the error of the first failing element |
| LocaleNumber.TrimStart | python/ntc_calibrator.py:28 | the result is a suffix of the input; everything removed is whitespace, and the result does not start with whitespace |
| LocaleNumber.TrimEnd | python/ntc_calibrator.py:28 | the result is a prefix of the input; everything removed is whitespace, and the result does not end with whitespace |
| LocaleNumber.Strip | python/ntc_calibrator.py:28 | the stripped text neither starts nor ends with whitespace |
| LocaleNumber.StripIsSlice | python/ntc_calibrator.py:28 | str.strip() returns the slice of s between a whitespace-only prefix and a whitespace-only suffix |
| LocaleNumber.StripEmptyIffBlank | python/ntc_calibrator.py:28-30 | the stripped string is empty exactly when every character of s is whitespace |
| LocaleNumber.Replace | python/ntc_calibrator.py:32-34 | str.replace of one character keeps the length and changes exactly the positions holding that character |
| LocaleNumber.Delete | python/ntc_calibrator.py:32 | s.replace(c, '') leaves no c and is never longer than s |
| LocaleNumber.DeleteRemoves | python/ntc_calibrator.py:32 | after s.replace('.', '') no '.' is left |
| LocaleNumber.DeleteLength | python/ntc_calibrator.py:32 | deleting a character shortens the string by its number of occurrences |
| LocaleNumber.NormalizeNumber | python/ntc_calibrator.py:28-34 | the text norm_float hands to float() is missing, with the empty-number error, exactly when the stripped entry is empty; otherwise it contains no ',' and is no longer than the stripped entry |
| LocaleNumber.NormFloat | python/ntc_calibrator.py:24-35 | norm_float fails only with the empty-number error or with float()'s rejection |
| LocaleNumber.NormFloatReadsNormalizedText | python/ntc_calibrator.py:28-35 | norm_float reports an empty number exactly on blank input; otherwise it fails exactly where float() rejects the text the code as written produces, and its value is float()'s reading of that text |
| LocaleNumber.NormalizeFailsExactlyOnBlank | python/ntc_calibrator.py:28-30 | the rewrite as written fails, with the empty-number error, exactly when the input is all whitespace |
| LocaleNumber.NormalizeRemovesCommas | python/ntc_calibrator.py:28-34 | the text the code as written hands to float() is non-empty and contains no ',' |
| LocaleNumber.NormalizeBothSeparators | python/ntc_calibrator.py:31-32 | with both separators present, the result holds as many '.' as the stripped input held ','; its length drops by the number of '.'; every other character is kept in order |
| LocaleNumber.NormalizeCommaOnly | python/ntc_calibrator.py:33-34 | with only ',' present, the result has the stripped input's length and differs from it exactly where ',' became '.' |
| LocaleNumber.NormalizeWithoutComma | python/ntc_calibrator.py:33-35 | without ',' the stripped input reaches float() unchanged |
| LocaleNumber.NormalizeKeepsOtherCharacters | python/ntc_calibrator.py:31-34 | in every case the characters other than ',' and '.' are those of the stripped input, in the same order |
| LocaleNumber.AsWrittenMisreadsThousandsComma | python/ntc_calibrator.py:26-32 | the code as written reads '1.234,56' as 1234.56 but its mirror image '1,234.56', which the docstring lists, as 1.23456 |
| LocaleNumber.NormalizeNumberLastSeparator | python/ntc_calibrator.py:26-34 | the corrected rewrite fails exactly where the code does, on an empty stripped entry; otherwise its text contains no ',' and is no longer than the stripped entry |
| LocaleNumber.LastSeparatorReadsBothConventions | python/ntc_calibrator.py:26 | the corrected rule reads both of the docstring's spellings '1.234,56' and '1,234.56' as 1234.56 |
| LocaleNumber.LastSeparatorConventionFree | python/ntc_calibrator.py:26 | the corrected rule gives the same text for a number and for the number with ',' and '.' exchanged |
| LocaleNumber.LastSeparatorAgreesUnlessDotIsLast | python/ntc_calibrator.py:31-35 | the corrected rule and the code agree on every input outside the case where both separators occur and '.' comes last; inside it they can differ, as on "1,234.56" |
| LocaleNumber.LastSeparatorDotLast | python/ntc_calibrator.py:26 | with both separators and '.' last, the corrected rule deletes every ',' and keeps the '.' count and all other characters in order |
| LocaleNumber.CorrectedFailsExactlyOnBlank | python/ntc_calibrator.py:28-30 | the corrected rule fails, with the empty-number error, exactly on blank input, as the code does |
| LocaleNumber.CorrectedNormalForm | python/ntc_calibrator.py:26-34 | the text the corrected rule hands to float() contains no ',' and keeps all non-separator characters in order |
| SteinhartHart.Fit | python/ntc_calibrator.py:41-55 | the fit fails (WrongPairCount) exactly when either list does not have length 3; otherwise it is solve's answer on the [1, ln R, (ln R)^3] system with targets 1/T_k, or lstsq's answer when solve reports a singular matrix |
| SteinhartHart.FitReproducesCalibration | python/ntc_calibrator.py:41-78 | when solve solved the system exactly, evaluating the fitted model at each calibration resistance gives back that pair's temperature |
| SteinhartHart.TFromR | python/ntc_calibrator.py:72-78 | R ≤ 0 raises in math.log; otherwise the evaluation fails (NonPhysical) exactly when A + B ln R + C (ln R)^3 ≤ 0; a result T satisfies c_to_k(T) > 0 and c_to_k(T) · invT = 1 |
| SteinhartHart.Clamp | python/ntc_calibrator.py:62 | each pass replaces R ≤ 0 by a positive value and leaves a positive R alone, so every math.log argument is positive |
| SteinhartHart.Step | python/ntc_calibrator.py:66 | the step is f/df when df ≠ 0 and f·1e-6 when df = 0; it is zero exactly when f is |
| SteinhartHart.Newton | python/ntc_calibrator.py:61-69 | the R the loop ends on is positive whenever the loop breaks; only a loop that runs all passes can end on a non-positive R, namely the last unclamped iterate |
| SteinhartHart.NewtonPass | python/ntc_calibrator.py:61-69 | one pass stops at the clamped R when the move is below 1e-9, and otherwise continues from R_new with one pass fewer |
| SteinhartHart.NewtonOutcome | python/ntc_calibrator.py:61-69 | with at most n passes, the loop ends either after all n passes or at a clamped iterate where the move was below the tolerance |
| SteinhartHart.NewtonRunsOut | python/ntc_calibrator.py:61-69 | when no clamped iterate before pass n settles, the loop runs all n passes and returns the n-th iterate |
| SteinhartHart.NewtonStopsAtFirst | python/ntc_calibrator.py:61-69 | the loop returns the first clamped iterate (within the n passes) where the move was below the tolerance, never a later one |
| SteinhartHart.RootIsFixedPoint | python/ntc_calibrator.py:63-69 | a positive root of the residual stops the loop at once and is returned |
| SteinhartHart.SettledResidualBound | python/ntc_calibrator.py:64-68 | where the loop stopped at a point with non-zero slope, the residual is below 1e-9 times the slope |
| SteinhartHart.RFromT | python/ntc_calibrator.py:57-70 | sh_R_from_T raises exactly at T = −273.15 °C; otherwise the result is max(R, 1e-9) for the R the 60-pass iteration from 10000 Ω ended on: at least both, and equal to one of them |
| SteinhartHart.ComputeRFromT | python/ntc_calibrator.py:57-70 | the loop with its clamp, substitute step and early break computes exactly RFromT |
| SteinhartHart.RootEvaluates | python/ntc_calibrator.py:72-78 | at a root of the residual for temperature T, sh_T_from_R gives back T |
| SteinhartHart.RootRoundTrip | python/ntc_calibrator.py:57-78 | wherever the iteration ended on a root, T → R → T is the identity |
| BetaModel.TwoPointBeta | python/ntc_calibrator.py:87-89 | β = ln(R1/R2) / (1/T1 − 1/T2), with the errors in evaluation order: R2 = 0, then R1/R2 ≤ 0, then a zero kelvin temperature, then T1 = T2 (ZeroDivision); β times the denominator is ln(R1/R2) |
| BetaModel.R25Terms | python/ntc_calibrator.py:90-94 | one estimate per element of zip(R, T), each R_i · exp(−β (1/T_i − 1/T25)); fails exactly when a zipped temperature is −273.15 °C |
| BetaModel.BetaFit | python/ntc_calibrator.py:81-96 | fewer than two pairs fail (TooFewPairs); with two or more, the fit succeeds exactly when the two-point β and every per-pair estimate are defined, and otherwise reports the first of their errors (a logarithm or a division); β is the two-point β of the first two pairs and R25 the mean of exactly one estimate per zipped pair |
| BetaModel.ComputeBetaR25 | python/ntc_calibrator.py:81-96 | the accumulation loop over zip(R, T) returns exactly BetaFit |
| BetaModel.BetaIgnoresLaterPairs | python/ntc_calibrator.py:87-89 | two fits that agree on the first two pairs have the same β whatever the later pairs are |
| BetaModel.BetaR25WithinEstimates | python/ntc_calibrator.py:95 | R25 lies between any bounds of the per-pair estimates |
| BetaModel.BetaR25Positive | python/ntc_calibrator.py:90-95 | with positive resistances and a positive exponential, R25 is positive |
| BetaModel.BetaFitRecoversCurve | python/ntc_calibrator.py:81-96 | pairs lying exactly on a β curve at distinct temperatures give back that curve's β and R25 |
| BetaModel.RFromT | python/ntc_calibrator.py:98-100 | beta_R_from_T raises exactly at T = −273.15 °C (ZeroDivision) |
| BetaModel.RFromTPositive | python/ntc_calibrator.py:98-100 | with R25 > 0 and a positive exponential the predicted resistance is positive |
| BetaModel.TFromR | python/ntc_calibrator.py:102-106 | β = 0 or R25 = 0 raise ZeroDivision and R/R25 ≤ 0 raises in math.log; otherwise it fails (NonPhysical) exactly when 1/T25 + ln(R/R25)/β ≤ 0; a result satisfies the model equation β (1/T − 1/T25) = ln(R/R25) with T > 0 K |
| BetaModel.RoundTripFromTemperature | python/ntc_calibrator.py:98-106 | T → R → T is the identity for β ≠ 0, R25 > 0 and T above absolute zero, wherever ln undoes exp |
| BetaModel.RoundTripFromResistance | python/ntc_calibrator.py:98-106 | R → T → R is the identity wherever the evaluation succeeds and exp undoes ln |
| CalibratorApp.FromFits | python/ntc_calibrator.py:241 | storing both fits sets all five coefficients: A, B, C are the Steinhart–Hart fit's and β, R25 the β fit's |
| CalibratorApp.ParsedEntry | python/ntc_calibrator.py:230-231 | a parsed column has one value per entry, and each is norm_float's reading of that entry |
| CalibratorApp.ParseFailure | python/ntc_calibrator.py:230-231 | a column that fails to parse reports the error of its first entry that norm_float rejects |
| CalibratorApp.ParseInputs | python/ntc_calibrator.py:229-234 | the resistance column parses first and its error wins, then the temperature column's; with both parsed, the result fails, with NonPositiveResistance, exactly when some resistance is ≤ 0; a result holds the two parsed columns and its resistances are all positive |
| CalibratorApp.NotCountErrors | python/ntc_calibrator.py:229-234 | parse_inputs only ever fails with an empty number, a float() rejection or a non-positive resistance |
| CalibratorApp.Calibrate | python/ntc_calibrator.py:236-241 | a successful Compute comes from three and three parsed entries and sets all five coefficients |
| CalibratorApp.CalibrateStoresBothFits | python/ntc_calibrator.py:236-241 | Compute succeeds exactly when parsing and both fits succeed; A, B, C are then the Steinhart–Hart fit of the parsed pairs and β, R25 their β fit; otherwise the first error in the order parse, Steinhart–Hart, β is reported |
| CalibratorApp.FitPairs | python/ntc_calibrator.py:239-240 | the pair of fits succeeds exactly when both fits do, only on three pairs, and then holds their values; otherwise it reports the Steinhart–Hart error, or else the β error; on three pairs it can only fail on a logarithm or a division |
| CalibratorApp.ComputeCoefficients | python/ntc_calibrator.py:238-241 | parse, then the Steinhart–Hart fit, then the β loop, compute exactly Calibrate |
| CalibratorApp.CalibrateNeverMiscounts | python/ntc_calibrator.py:238-240 | with the window's three rows, Compute never fails for a wrong number of pairs |
| CalibratorApp.TemperatureAt | python/ntc_calibrator.py:269-273 | R ≤ 0 is refused before either model; a positive R is evaluated by sh_T_from_R when the choice is "SH" and by beta_T_from_R otherwise; the Steinhart–Hart branch never hits a log domain error and its result satisfies c_to_k(T) · invT = 1; the β branch satisfies the β model equation |
| CalibratorApp.TemperatureOf | python/ntc_calibrator.py:268-273 | the calculator entry's norm_float error is reported as is; a parsed entry is evaluated by TemperatureAt |
| CalibratorApp.ResistanceAt | python/ntc_calibrator.py:282-285 | either branch fails only at −273.15 °C; the Steinhart–Hart branch is sh_R_from_T, at least 1e-9 and at least the R the iteration ended on; the β branch returns R25 · exp(β (1/T − 1/T25)) |
| CalibratorApp.ResistanceOf | python/ntc_calibrator.py:281-285 | the calculator entry's norm_float error is reported as is; a parsed entry is evaluated by ResistanceAt |
| CalibratorApp.CalculatorReproducesCalibration | python/ntc_calibrator.py:265-273 | after an exact Steinhart–Hart calibration, entering one of the calibration resistances in the calculator yields that row's temperature |
| CalibratorApp.App.constructor | python/ntc_calibrator.py:117-135 | the window starts with the entries 25000/10000/4000 Ω and 5/25/45 °C and no coefficients |
| CalibratorApp.App.OnCompute | python/ntc_calibrator.py:236-246 | on success all five coefficients are replaced by the fits of the current entries; on failure the error is reported and _coeffs is left as it was; the entries never change |
| CalibratorApp.App.Store | python/ntc_calibrator.py:241 | a successful result replaces all five coefficients and clears the error; a failure is reported and _coeffs is left as it was; the entries never change |
| CalibratorApp.App.OnReset | python/ntc_calibrator.py:248-254 | the entries go back to the defaults and all five coefficients become None |
| CalibratorApp.App.EnsureCoeffs | python/ntc_calibrator.py:256-263 | with all five coefficients set, nothing changes; otherwise Compute runs on the current entries; afterwards no error is reported exactly when all five are set |
| CalibratorApp.App.CalcTFromR | python/ntc_calibrator.py:265-276 | a complete cache is kept; an incomplete one is replaced by Calibrate's value, or kept and the error reported when that fails; otherwise the result is norm_float of the calculator entry followed by TemperatureAt with the cached coefficients |
| CalibratorApp.App.CalcRFromT | python/ntc_calibrator.py:278-288 | a complete cache is kept; an incomplete one is replaced by Calibrate's value, or kept and the error reported when that fails; otherwise the result is norm_float of the calculator entry followed by ResistanceAt with the cached coefficients, computed for Steinhart–Hart by the Newton loop |

## Left out

- Floating point: values are exact reals. Rounding, overflow in `math.exp` and
  `**` (OverflowError) and infinities are not modelled. NaN appears only as
  numpy's non-finite stand-in in the fit. The constants 1e-9, 1e-6 and 273.15
  are exact decimals.
- Convergence of the Newton iteration and the accuracy of the fits. The model
  says which value the loop ends on, not how close it is to a root.
- `numpy.linalg.solve` and `lstsq` are uninterpreted. `lstsq` never fails in
  the model, although numpy's can raise when its SVD does not converge.
- Python's `float()` is the parameter `toFloat`.
- The tkinter window is left out: widgets, the `messagebox` display of an error
  (the error is returned instead), the formatting of the coefficients and
  results into label texts, `redraw_plot`, `save_coeffs` with its file dialog
  and JSON output, and the Enter-key bindings.
- Error messages are left out. Each exception is one constructor of `Error`.
- The entry texts are plain public fields. Typing into an entry is an
  assignment, with no widget in between.
- src/leituraNTC_esp.cpp, src/leituraNTC_uno.cpp and include/ads1115_c.h are
  not part of this model. They contain the microcontroller sampling loop and
  the ADC driver.
- CalibratorApp.App.OnCompute: does not model the label updates or the plot
  redraw that follow a successful fit.

## Findings

| source | as written | input that shows it | evidently intended | confidence | as-written member | corrected member |
|---|---|---|---|---|---|---|
| python/ntc_calibrator.py:26-32 | When both ',' and '.' occur, every '.' is deleted and every ',' becomes '.', so ',' is always taken as the decimal mark. | '1,234.56', which the docstring lists as an accepted form, reaches float() as '1.23456', not '1234.56'. | The separator that occurs last is the decimal mark and the other one is a thousands mark. Then '1.234,56' and '1,234.56' both read as 1234.56. | not executed | LocaleNumber.AsWrittenMisreadsThousandsComma | LocaleNumber.LastSeparatorReadsBothConventions |

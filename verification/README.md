# Dividend dashboard: parsing, allocation and display rules

This project models three small pieces of logic from a Streamlit dividend
dashboard and proves properties of them in Dafny. Quantities are exact
`real`s, not IEEE doubles. Dates are integer day numbers.

- **Market-cap parser** (`parse_market_cap` on the home page). A data-set
  cell is missing, a number, or text such as `"$911.47B"`. Text is trimmed
  with Python's white-space set, upper-cased and stripped of every `$`. The
  parser then removes at most one magnitude letter, tried in the order T, B,
  M, K, and reads the rest with `float()`. The result is in billions of
  dollars, or `None`. Modules: `Text` (strip, upper, replace),
  `FloatLiteral` (the decimal grammar of `float()`) and `MarketCap`.
- **Portfolio composition on the backtest page** (module `Allocation`). It
  covers the stock-count cap and the empty-selection guard. It covers the
  four allocation methods: equal weight; yield weight with its equal-weight
  fallback; market-cap weight, which is equal weight for now; and custom
  integer-percent sliders. It covers the `np.isclose(sum, 1, atol=0.01)`
  gate in front of the backtester, and the DRIP and rebalancing fee inputs
  converted from percent to fraction.
- **Stock-details page** (module `StockDetails`). It covers the dividend-yield
  series: for each price date, the last payment on or before it, times 4,
  over the close. It also covers the market-cap label bands, the 20-row
  newest-first payment table, and the guards that decide whether a
  financial-health metric is shown.

Three behaviours that the code's comments do not suggest are
proved:

- A `$` is deleted only after trimming. So `"5B $"` keeps its inner space and
  is rejected, while `"5B "` parses to 5 (`MarketCap.TrailingDollarAfterSpace`).
- `str.strip()` removes the information separators U+001C to U+001F, but
  `float()` does not trim them. Right after a leading `$` such a separator is
  no longer at the end of the text, so `"$\x1c5"` gives `None` while
  `"\x1c5"` parses (`MarketCap.SeparatorAfterDollar`).
- On the backtest page the default slider positions are `100 // n` percent.
  With 6, 7 or 8 stocks they fall outside the gate, so an untouched custom
  allocation is refused (`Allocation.UntouchedSlidersAcceptedIff`).

## Model

| member | source | states |
|---|---|---|
| MarketCap.Parse | app.py:288-292 | A missing cell gives `None`; a number `x` gives a value whose billion-fold is exactly `x` |
| MarketCap.ParseNeedsDigit | app.py:294-296 | Any text that parses contains a digit, so blank text, `-`, `N/A` and a lone `$` all give `None` |
| MarketCap.GuardRedundant | app.py:295-296 | The two texts turned away up front (empty and `-`) would also be rejected by the suffix-and-number stage |
| MarketCap.SpaceInsensitive | app.py:294 | White space of any kind around the text does not change the result |
| MarketCap.CaseInsensitive | app.py:294 | Two texts with the same upper-case form give the same result |
| MarketCap.DollarParse | app.py:294-299 | Behind a leading `$` the empty/`-` guard never fires; the suffix stage receives the white space between the `$` and the first other character, followed by what the text without the `$` normalises to |
| MarketCap.DollarSkipsGuard | app.py:294-299 | When that white space holds no separator U+001C-U+001F, the rest is scaled exactly as the text without the `$` |
| MarketCap.LeadingDollarIgnored | app.py:294-320 | `"$" + s` and `s` give the same result whenever the white space between the `$` and the rest of `s` holds no separator U+001C-U+001F |
| MarketCap.LeadingDollarBeforeSeparator | app.py:294-320 | When that white space does hold a separator, `"$" + s` gives `None`: trimming no longer sees it and `float()` cannot read it |
| MarketCap.SeparatorAfterDollar | app.py:294-320 | For a separator `c` and a literal `x`, `c + x` parses to `x` over one billion while `"$" + c + x` gives `None` |
| MarketCap.DollarsIgnored | app.py:299 | In text without white space, deleting every `$` wherever it stands leaves the result unchanged |
| MarketCap.TrailingDollarAfterSpace | app.py:294-299 | Because trimming comes before `$` removal, `"5B "` parses to 5 billion while `"5B $"` gives `None` |
| MarketCap.PlainLiteral | app.py:302-318 | A decimal without a magnitude letter is a number of dollars, reported divided by one billion |
| MarketCap.Suffixed | app.py:302-318 | A magnitude letter of either case after a clean number scales the number `float()` reads by that letter's multiplier over 1e9, and rejects what `float()` rejects |
| MarketCap.TrillionsSuffix | app.py:303-318 | `xT` or `xt` is `1000·x` billions; an `x` that `float()` rejects gives `None` |
| MarketCap.BillionsSuffix | app.py:306-318 | `xB` or `xb` is `x` billions; an `x` that `float()` rejects gives `None` |
| MarketCap.MillionsSuffix | app.py:309-318 | `xM` or `xm` is `x/1000` billions; an `x` that `float()` rejects gives `None` |
| MarketCap.ThousandsSuffix | app.py:312-318 | `xK` or `xk` is `x/10^6` billions; an `x` that `float()` rejects gives `None` |
| MarketCap.SplitSuffix | app.py:302-314 | Removes exactly one character when the text ends in T, B, M or K and reports that letter's multiplier; otherwise the text is kept and the multiplier is 1 |
| MarketCap.SecondSuffixRejected | app.py:303-320 | A number followed by two magnitude letters (`5BB`) gives `None`: only one letter is removed and `float()` rejects the other |
| MarketCap.LiteralBillions | app.py:306-318 | A decimal literal followed by `B` or `b` parses to that literal's exact value |
| MarketCap.ExampleMarketCaps | app.py:286-320 | `"$911.47B"` and `" 911.47b "` both parse to 911.47 |
| FloatLiteral.ScanIffSpelled | app.py:317 | The decimal scanner accepts a text exactly when the text is the spelling of a well-formed literal, and returns that literal |
| FloatLiteral.ScanSound | app.py:317 | Whatever the scanner accepts is well formed and spells the text it came from |
| FloatLiteral.ParseSpelled | app.py:317 | `float()` on a literal with white space other than the separators U+001C-U+001F around it returns the literal's exact value |
| FloatLiteral.ParseLeadingSpaces | app.py:317 | Leading white space without separators never changes what `float()` returns |
| FloatLiteral.ParseFloatRejectsSeparator | app.py:317 | `float()` fails on any text that holds a separator U+001C-U+001F, even at either end |
| FloatLiteral.ParseFloatNeedsDigit | app.py:316-320 | `float()` fails on any text without a digit |
| FloatLiteral.ParseFloatRejectsForeign | app.py:316-320 | `float()` fails on text without any white space that holds a character outside digits, point and sign |
| FloatLiteral.ParseExampleSpaced | app.py:317 | `float(" -5. ")` is -5 |
| Text.StripSpec | app.py:294 | `strip()` returns a contiguous middle part of the text: everything cut off in front and behind is white space, and the kept part neither starts nor ends with white space |
| Text.StripSurroundingSpaces | app.py:294 | Adding white space at either end of a text does not change what `strip()` returns |
| Text.StripUpper | app.py:294 | Trimming and upper-casing commute |
| Text.DeleteSpec | app.py:299 | `replace(c, '')` leaves no `c`, keeps every other character exactly as often as it occurs, and adds none |
| Allocation.Truncate | pages/4_Portfolio_Backtest.py:71-73 | The kept selection is a prefix of the original, of length `min(n, 20)` |
| Allocation.Allocate | pages/4_Portfolio_Backtest.py:234-266 | An empty selection is refused with the no-stocks error; any other selection runs exactly when the chosen method's weights sum to 1 within the gate's tolerance, and then exactly those weights, keyed by the selected stocks, are handed on; otherwise the failure carries their sum, which is not close to 1 |
| Allocation.EqualWeights | pages/4_Portfolio_Backtest.py:240-241 | Keys are the selected stocks; all weights are equal and positive |
| Allocation.EqualWeightsShare | pages/4_Portfolio_Backtest.py:241 | Each of `n` selected stocks gets exactly `1/n` |
| Allocation.EqualWeightsSumToOne | pages/4_Portfolio_Backtest.py:241 | The equal weights sum to exactly 1 |
| Allocation.FilledYields | pages/4_Portfolio_Backtest.py:245-246 | Every selected stock has a yield, and a missing yield counts as 0 |
| Allocation.YieldWeightsProportional | pages/4_Portfolio_Backtest.py:249-250 | With a positive total yield, each weight is that stock's yield over the total |
| Allocation.YieldWeightsFallback | pages/4_Portfolio_Backtest.py:251-253 | With no positive total yield the weights are the equal weights |
| Allocation.NoYieldDataGivesEqualWeights | pages/4_Portfolio_Backtest.py:246-253 | When every yield is missing or zero the weights are the equal weights |
| Allocation.YieldWeightsSumToOne | pages/4_Portfolio_Backtest.py:243-253 | Yield weights sum to exactly 1 in both branches |
| Allocation.YieldWeightsAreFractions | pages/4_Portfolio_Backtest.py:243-253 | With non-negative yields every yield weight lies in [0, 1] |
| Allocation.DefaultPercent | pages/4_Portfolio_Backtest.py:92 | The default slider position `p` is the largest with `n·p <= 100` |
| Allocation.CustomWeights | pages/4_Portfolio_Backtest.py:83-94 | Keys are the selected stocks; each weight lies in [0, 1] and is its slider position over 100 |
| Allocation.CustomSumIsPercentTotal | pages/4_Portfolio_Backtest.py:97 | The custom weights sum to the integer slider total over 100 |
| Allocation.CustomAcceptedIff | pages/4_Portfolio_Backtest.py:97-98 | The gate passes custom weights exactly when the sliders total 99, 100 or 101 percent |
| Allocation.UntouchedSlidersAcceptedIff | pages/4_Portfolio_Backtest.py:88-98 | Untouched sliders pass the gate exactly when `100 mod n <= 1` |
| Allocation.ComputedMethodsAlwaysRun | pages/4_Portfolio_Backtest.py:239-266 | Equal, Yield and Market Cap weighting always pass the gate on a non-empty selection, with a sum of exactly 1 |
| Allocation.MarketCapIsEqualWeight | pages/4_Portfolio_Backtest.py:255-257 | Market Cap Weight gives the same outcome as Equal Weight |
| Allocation.CustomRunsIff | pages/4_Portfolio_Backtest.py:235-266 | A custom allocation runs exactly when the selection is non-empty and the sliders total 99-101% |
| Allocation.SevenUntouchedRejected | pages/4_Portfolio_Backtest.py:83-98 | Seven stocks with untouched sliders (14% each) stop the run |
| Allocation.DripFee | pages/4_Portfolio_Backtest.py:151-160 | The DRIP fee is 0 when DRIP is off, and otherwise the entered percent as a fraction |
| Allocation.DripFeeRange | pages/4_Portfolio_Backtest.py:153-160 | Within the input's 0-5% range the DRIP fee is a fraction in [0, 0.05] |
| Allocation.RebalancingFee | pages/4_Portfolio_Backtest.py:211-220 | The rebalancing fee is 0 for "No Rebalancing", and otherwise the entered percent as a fraction |
| Allocation.RebalancingFeeRange | pages/4_Portfolio_Backtest.py:213-220 | Within the input's 0-2% range the rebalancing fee is a fraction in [0, 0.02] |
| StockDetails.OnOrBefore | pages/3_Stock_Details.py:166 | The filtered payments are exactly the payments dated on or before the date |
| StockDetails.LastDividendNone | pages/3_Stock_Details.py:166-167 | The lookup finds nothing exactly when no payment is dated on or before the date |
| StockDetails.LastDividendAt | pages/3_Stock_Details.py:166-168 | The lookup returns the last payment, in series order, dated on or before the date |
| StockDetails.LastIsLatestWhenSorted | pages/3_Stock_Details.py:166-168 | On a date-ordered series that payment is also the most recent one |
| StockDetails.YieldAt | pages/3_Stock_Details.py:164-173 | The yield is 0 when no payment precedes the date; it is undefined exactly when a payment precedes it and the close is 0 |
| StockDetails.YieldAtLastPayment | pages/3_Stock_Details.py:168-171 | With a preceding payment and a non-zero close, the yield is 4 times that payment over the close |
| StockDetails.SameDayPaymentCounts | pages/3_Stock_Details.py:166 | A payment dated on the price date itself is used |
| StockDetails.YieldSeries | pages/3_Stock_Details.py:162-164 | One yield per price date, in price order |
| StockDetails.BeforeFirstPaymentIsZero | pages/3_Stock_Details.py:172-173 | Every price dated before the first payment has yield 0 |
| StockDetails.PriceAndYieldTab | pages/3_Stock_Details.py:147-188 | No price data gives the warning; a failed dividend fetch gives the error; no payments skip the chart; otherwise the chart is the yield series of the fetched payments over the price bars, one point per price date |
| StockDetails.Label | pages/3_Stock_Details.py:251-257 | Above 1e9 the label is in billions, above 1e6 and up to 1e9 in millions, and otherwise unavailable; the shown amounts scale back to the market cap |
| StockDetails.LabelMonotone | pages/3_Stock_Details.py:252-257 | A larger market cap never gets a lower band |
| StockDetails.OneBillionIsMillions | pages/3_Stock_Details.py:252-255 | Exactly one billion is shown as 1000 millions |
| StockDetails.MissingCapUnavailable | pages/3_Stock_Details.py:251-257 | A missing market cap reads as 0 and is unavailable |
| StockDetails.Tail | pages/3_Stock_Details.py:219 | `tail(n)` keeps the last `min(n, len)` payments in order |
| StockDetails.RecentDividends | pages/3_Stock_Details.py:219 | The table has at most 20 rows, and exactly the history's length when it is shorter |
| StockDetails.RecentDividendsSpec | pages/3_Stock_Details.py:219 | The rows are a rearrangement of the last 20 payments, newest first |
| StockDetails.RecentDividendsOfOrderedHistory | pages/3_Stock_Details.py:219 | For a strictly date-ordered history the rows are its last 20 payments in reverse |
| StockDetails.DividendHistoryTab | pages/3_Stock_Details.py:212-226 | The table is shown exactly when a non-empty history was fetched; its rows are then the most recent payments, newest first, 1 to 20 of them |
| StockDetails.FcfDisplay | pages/3_Stock_Details.py:77-85 | The FCF/dividend ratio is shown exactly when it is a number above 0, as that number |
| StockDetails.DebtToEquityDisplay | pages/3_Stock_Details.py:87-96 | Debt-to-equity is shown exactly when absent (as 0) or a number at least 0 |
| StockDetails.RoeDisplay | pages/3_Stock_Details.py:98-107 | ROE is hidden exactly when absent or 0, and a NaN is shown as NaN |
| StockDetails.AbsentMetrics | pages/3_Stock_Details.py:77-107 | A missing metric reads as 0: hidden for FCF and ROE, shown as 0 for D/E |

## Left out

- The backtest engine (DRIP purchases, tax lots, rebalancing trades, risk metrics) lives in `modules/portfolio_backtester.py`, which is not part of this model. Nothing here describes what it does with the weights and fees.
- The screener pages are left out. They hand filtering and scoring to `modules/data_processor`, which is not part of this model, and the rest is display.
- Streamlit widgets, `st.stop`, session state, the data-crawl flow, `yfinance` calls, file loading and caching are all I/O. Their results become parameters: the selection, the slider positions, the entered fees, the price bars and the dividend series.
- Charts and text formatting (`:.2f`, `round(4)`, date strings) are left out. The model returns the numbers a chart or card would show.
- The percent-column ×100 conversion on the home page (app.py:280-284) is not modelled; it is a pointwise multiplication with coercion of bad values to NaN.
- FloatLiteral.ParseFloat: models only the decimal part of `float()`'s grammar. Python also accepts exponents (`1e3`), `inf`, `nan` and digit-group underscores, so texts such as `"1E3B"` parse in Python but give `None` here. `float()` also reads decimal digits of other scripts (such as the Arabic-Indic five) as ASCII digits; the model rejects them, so such a digit followed by `B` is 5 billion in Python and `None` here.
- MarketCap.LeadingDollarIgnored: holds only when no separator U+001C-U+001F stands between the `$` and the number, because `float()` keeps such a separator; `MarketCap.LeadingDollarBeforeSeparator` states the other case. `MarketCap.DollarSkipsGuard` has the same condition.
- FloatLiteral.ParseSpelled: holds only for white space without the separators U+001C-U+001F, which `float()` does not trim; `FloatLiteral.ParseFloatRejectsSeparator` states the other case. `FloatLiteral.ParseLeadingSpaces` has the same condition.
- Text.Upper: upper-cases ASCII letters only. Python's `str.upper()` also maps other letters, which can change a string's length.
- IEEE rounding is not modelled. All arithmetic is exact, so `1/3 + 1/3 + 1/3` is exactly 1 and the gate's tolerance is never needed for equal or yield weights.
- MarketCap.Parse: a number cell that is NaN is modelled as a missing cell, and a boolean cell (an `int` in Python) is not modelled.
- Allocation.Allocate: requires every selected stock to have a yield entry under Yield Weight. In the source a selected symbol missing from the data set raises `KeyError` at pages/4_Portfolio_Backtest.py:250; that crash is not modelled. Duplicate rows for one symbol, which would make `yields.sum()` count a stock twice, are not modelled either.
- Allocation.MaxPortfolioStocks: the cap comes from a configuration class that is not part of this model. It is taken as 20, from the widget's "max 20" label.
- StockDetails.YieldAt: a zero close is reported as `Undefined` in place of the infinity or NaN that pandas would store. Negative closes are not excluded.
- StockDetails.SortNewestFirst: keeps payments with the same date in their listed order. `sort_index(ascending=False)` gives no stability promise for equal dates, so only the newest-first order and the permutation are stated for the general case.
- The metric guards take a metric as absent, NaN or a number. Non-numeric values in the data set are not modelled.

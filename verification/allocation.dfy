/**
 Portfolio composition on the backtest page: the stock selection and its cap,
 the four allocation methods that turn a selection into a weight map, the
 "weights must sum to 100%" gate in front of the backtester, and the two
 percent-to-fraction fee inputs.
 */
module Allocation {
  import opened Wrappers

  type Symbol = string

  predicate Distinct(s: seq<Symbol>)
  {
    forall i, j :: 0 <= i < j < |s| ==> s[i] != s[j]
  }

  /** A multiselect never returns the same option twice. */
  type Selection = s: seq<Symbol> | Distinct(s)

  /** A weight map: symbol to fraction of the portfolio. */
  type Weights = map<Symbol, real>

  // ---------------------------------------------------------------------
  // Selection cap
  // ---------------------------------------------------------------------

  /** The cap the selection widget advertises ("max 20"). */
  const MaxPortfolioStocks: nat := 20

  /** Keeps the first `MaxPortfolioStocks` symbols when there are more. */
  function Truncate(sel: Selection): (r: Selection)
    ensures r <= sel
    ensures |r| <= MaxPortfolioStocks
    ensures |r| == if |sel| <= MaxPortfolioStocks then |sel| else MaxPortfolioStocks
  {
    if |sel| > MaxPortfolioStocks then sel[..MaxPortfolioStocks] else sel
  }

  // ---------------------------------------------------------------------
  // Sums over a selection
  // ---------------------------------------------------------------------

  predicate Covers(w: Weights, sel: seq<Symbol>)
  {
    forall s :: s in sel ==> s in w
  }

  /** The total of the weights of `sel`; the whole map's total when its keys are exactly the (distinct) selection. */
  function SumOver(sel: seq<Symbol>, w: Weights): real
    requires Covers(w, sel)
  {
    if sel == [] then 0.0 else w[sel[0]] + SumOver(sel[1..], w)
  }

  lemma {:induction false} SumOverConstant(sel: seq<Symbol>, w: Weights, c: real)
    requires Covers(w, sel)
    requires forall s :: s in sel ==> w[s] == c
    ensures SumOver(sel, w) == |sel| as real * c
  {
    if sel != [] {
      SumOverConstant(sel[1..], w, c);
    }
  }

  lemma {:induction false} SumOverScaled(sel: seq<Symbol>, w: Weights, v: Weights, t: real)
    requires Covers(w, sel) && Covers(v, sel) && t != 0.0
    requires forall s :: s in sel ==> w[s] == v[s] / t
    ensures SumOver(sel, w) == SumOver(sel, v) / t
  {
    if sel != [] {
      SumOverScaled(sel[1..], w, v, t);
    }
  }

  lemma {:induction false} SumOverNonNegative(sel: seq<Symbol>, w: Weights)
    requires Covers(w, sel)
    requires forall s :: s in sel ==> w[s] >= 0.0
    ensures SumOver(sel, w) >= 0.0
  {
    if sel != [] {
      SumOverNonNegative(sel[1..], w);
    }
  }

  // ---------------------------------------------------------------------
  // The sum gate: NumPy's closeness test against 1 with an absolute tolerance of 0.01
  // ---------------------------------------------------------------------

  const AbsoluteTolerance: real := 0.01
  const RelativeTolerance: real := 0.00001

  function Abs(x: real): real
  {
    if x < 0.0 then -x else x
  }

  /** `|total - 1| <= atol + rtol * |1|`. */
  predicate IsCloseToOne(total: real)
  {
    Abs(total - 1.0) <= AbsoluteTolerance + RelativeTolerance * 1.0
  }

  // ---------------------------------------------------------------------
  // Equal weights (also the Market Cap stand-in and the Yield fallback)
  // ---------------------------------------------------------------------

  /** Every selected stock gets the same share, one over the number of stocks. */
  function EqualWeights(sel: seq<Symbol>): (w: Weights)
    requires |sel| > 0
    ensures w.Keys == set s | s in sel
    ensures forall s, t :: s in w && t in w ==> w[s] == w[t] > 0.0
  {
    map s | s in sel :: 1.0 / |sel| as real
  }

  /** Each of `n` selected stocks gets exactly `1/n`. */
  lemma EqualWeightsShare(sel: seq<Symbol>)
    requires |sel| > 0
    ensures forall s :: s in sel ==> EqualWeights(sel)[s] == 1.0 / |sel| as real
  {
  }

  lemma SharesSumToOne(sel: seq<Symbol>, w: Weights, n: real)
    requires |sel| > 0 && n == |sel| as real
    requires Covers(w, sel)
    requires forall s :: s in sel ==> w[s] == 1.0 / n
    ensures SumOver(sel, w) == 1.0
  {
    SumOverConstant(sel, w, 1.0 / n);
    EqualShares(SumOver(sel, w), n);
  }

  lemma EqualShares(total: real, n: real)
    requires n > 0.0 && total == n * (1.0 / n)
    ensures total == 1.0
  {
  }

  /** Equal weights sum to 1. */
  lemma EqualWeightsSumToOne(sel: seq<Symbol>)
    requires |sel| > 0
    ensures SumOver(sel, EqualWeights(sel)) == 1.0
  {
    EqualWeightsShare(sel);
    SharesSumToOne(sel, EqualWeights(sel), |sel| as real);
  }

  // ---------------------------------------------------------------------
  // Yield weights
  // ---------------------------------------------------------------------

  /** A stock's dividend yield, with a missing yield counted as 0. */
  function FilledYield(y: Option<real>): real
  {
    if y.None? then 0.0 else y.value
  }

  /** The filled divYields of the selected stocks. */
  function FilledYields(sel: seq<Symbol>, divYields: map<Symbol, Option<real>>): (f: Weights)
    requires forall s :: s in sel ==> s in divYields
    ensures f.Keys == set s | s in sel
    ensures forall s :: s in f ==> f[s] == FilledYield(divYields[s])
  {
    map s | s in sel :: FilledYield(divYields[s])
  }

  /** Each value of `f` divided by the positive `total`. */
  function Proportional(sel: seq<Symbol>, f: Weights, total: real): (w: Weights)
    requires Covers(f, sel) && total > 0.0
    ensures w.Keys == set s | s in sel
  {
    map s | s in sel :: f[s] / total
  }

  /** Proportional to yield when the total yield is positive, otherwise equal weights. */
  function YieldWeights(sel: seq<Symbol>, divYields: map<Symbol, Option<real>>): (w: Weights)
    requires |sel| > 0
    requires forall s :: s in sel ==> s in divYields
    ensures w.Keys == set s | s in sel
  {
    var filled := FilledYields(sel, divYields);
    var total := SumOver(sel, filled);
    if total > 0.0 then Proportional(sel, filled, total) else EqualWeights(sel)
  }

  /** With a positive total, each weight is that stock's yield over the total yield. */
  lemma YieldWeightsProportional(sel: seq<Symbol>, divYields: map<Symbol, Option<real>>, s: Symbol)
    requires |sel| > 0
    requires forall s :: s in sel ==> s in divYields
    requires SumOver(sel, FilledYields(sel, divYields)) > 0.0
    requires s in sel
    ensures YieldWeights(sel, divYields)[s]
            == FilledYield(divYields[s]) / SumOver(sel, FilledYields(sel, divYields))
  {
  }

  /** With no positive total the method falls back to equal weights. */
  lemma YieldWeightsFallback(sel: seq<Symbol>, divYields: map<Symbol, Option<real>>)
    requires |sel| > 0
    requires forall s :: s in sel ==> s in divYields
    requires SumOver(sel, FilledYields(sel, divYields)) <= 0.0
    ensures YieldWeights(sel, divYields) == EqualWeights(sel)
  {
  }

  /** Missing or zero divYields everywhere give equal weights. */
  lemma NoYieldDataGivesEqualWeights(sel: seq<Symbol>, divYields: map<Symbol, Option<real>>)
    requires |sel| > 0
    requires forall s :: s in sel ==> s in divYields && FilledYield(divYields[s]) == 0.0
    ensures YieldWeights(sel, divYields) == EqualWeights(sel)
  {
    SumOverConstant(sel, FilledYields(sel, divYields), 0.0);
  }

  lemma YieldWeightsSumToOne(sel: seq<Symbol>, divYields: map<Symbol, Option<real>>)
    requires |sel| > 0
    requires forall s :: s in sel ==> s in divYields
    ensures SumOver(sel, YieldWeights(sel, divYields)) == 1.0
  {
    var filled := FilledYields(sel, divYields);
    var total := SumOver(sel, filled);
    if total > 0.0 {
      ProportionalSumsToOne(sel, filled);
    } else {
      EqualWeightsSumToOne(sel);
    }
  }

  lemma ProportionalSumsToOne(sel: seq<Symbol>, f: Weights)
    requires Covers(f, sel) && SumOver(sel, f) > 0.0
    ensures SumOver(sel, Proportional(sel, f, SumOver(sel, f))) == 1.0
  {
    var total := SumOver(sel, f);
    SumOverScaled(sel, Proportional(sel, f, total), f, total);
    DivSelf(total);
  }

  lemma DivSelf(t: real)
    requires t > 0.0
    ensures t / t == 1.0
  {
  }

  lemma FractionBound(x: real, t: real)
    requires 0.0 <= x <= t && t > 0.0
    ensures 0.0 <= x / t <= 1.0
  {
  }

  /** Non-negative yields give weights in [0, 1]. */
  lemma YieldWeightsAreFractions(sel: seq<Symbol>, divYields: map<Symbol, Option<real>>, s: Symbol)
    requires |sel| > 0
    requires forall s :: s in sel ==> s in divYields && FilledYield(divYields[s]) >= 0.0
    requires s in sel
    ensures 0.0 <= YieldWeights(sel, divYields)[s] <= 1.0
  {
    var filled := FilledYields(sel, divYields);
    var total := SumOver(sel, filled);
    if total > 0.0 {
      SumAtLeastEach(sel, filled, s);
      FractionBound(filled[s], total);
    } else {
      FractionBound(1.0, |sel| as real);
    }
  }

  lemma {:induction false} SumAtLeastEach(sel: seq<Symbol>, w: Weights, s: Symbol)
    requires Covers(w, sel)
    requires forall t :: t in sel ==> w[t] >= 0.0
    requires s in sel
    ensures w[s] <= SumOver(sel, w)
  {
    SumOverNonNegative(sel[1..], w);
    if sel[0] != s {
      SumAtLeastEach(sel[1..], w, s);
    }
  }

  // ---------------------------------------------------------------------
  // Custom weights: integer percent sliders
  // ---------------------------------------------------------------------

  type Percent = p: int | 0 <= p <= 100

  /** A slider's starting position: 100 divided by the number of stocks, rounded down. */
  function DefaultPercent(n: nat): (p: Percent)
    requires n > 0
    ensures n * p <= 100 < n * (p + 1)
  {
    100 / n
  }

  /** The position a stock's slider shows: where the user moved it, else its default. */
  function SliderPercent(n: nat, moved: map<Symbol, Percent>, s: Symbol): Percent
    requires n > 0
  {
    if s in moved then moved[s] else DefaultPercent(n)
  }

  /** Every selected stock's slider position read as a fraction of 1. */
  function CustomWeights(sel: seq<Symbol>, moved: map<Symbol, Percent>): (w: Weights)
    ensures w.Keys == set s | s in sel
    ensures forall s :: s in w ==> 0.0 <= w[s] <= 1.0
    ensures forall s :: s in w ==> w[s] * 100.0 == SliderPercent(|sel|, moved, s) as real
  {
    map s | s in sel :: SliderPercent(|sel|, moved, s) as real / 100.0
  }

  /** The integer total of the slider positions of `part`, out of a selection of `n` stocks. */
  function PercentTotal(part: seq<Symbol>, n: nat, moved: map<Symbol, Percent>): int
    requires n > 0
  {
    if part == [] then 0
    else SliderPercent(n, moved, part[0]) + PercentTotal(part[1..], n, moved)
  }

  lemma {:induction false} CustomSumIsPercentTotal(sel: seq<Symbol>, part: seq<Symbol>, moved: map<Symbol, Percent>)
    requires |sel| > 0
    requires forall s :: s in part ==> s in sel
    ensures Covers(CustomWeights(sel, moved), part)
    ensures SumOver(part, CustomWeights(sel, moved)) * 100.0 == PercentTotal(part, |sel|, moved) as real
  {
    if part != [] {
      CustomSumIsPercentTotal(sel, part[1..], moved);
    }
  }

  /** The custom-weight gate passes exactly when the sliders total 99, 100 or 101 percent. */
  lemma CustomAcceptedIff(sel: seq<Symbol>, moved: map<Symbol, Percent>)
    requires |sel| > 0
    ensures Covers(CustomWeights(sel, moved), sel)
    ensures IsCloseToOne(SumOver(sel, CustomWeights(sel, moved)))
            <==> 99 <= PercentTotal(sel, |sel|, moved) <= 101
  {
    CustomSumIsPercentTotal(sel, sel, moved);
    var p := PercentTotal(sel, |sel|, moved);
    var total := SumOver(sel, CustomWeights(sel, moved));
    assert total == p as real / 100.0;
    if 99 <= p <= 101 {
      assert Abs(total - 1.0) <= 0.01;
    } else if p < 99 {
      assert p as real <= 98.0;
    } else {
      assert p as real >= 102.0;
    }
  }

  lemma {:induction false} UntouchedPercentTotal(part: seq<Symbol>, n: nat)
    requires n > 0
    ensures PercentTotal(part, n, map[]) == |part| * DefaultPercent(n)
  {
    if part != [] {
      UntouchedPercentTotal(part[1..], n);
    }
  }

  /**
   Untouched sliders pass the gate exactly when `100 % n <= 1`: for 6, 7 or 8
   stocks the default positions alone are rejected.
   */
  lemma UntouchedSlidersAcceptedIff(sel: seq<Symbol>)
    requires |sel| > 0
    ensures Covers(CustomWeights(sel, map[]), sel)
    ensures IsCloseToOne(SumOver(sel, CustomWeights(sel, map[]))) <==> 100 % |sel| <= 1
  {
    CustomAcceptedIff(sel, map[]);
    UntouchedPercentTotal(sel, |sel|);
    DefaultShortfall(|sel|);
  }

  /** `n` default positions fall short of 100 by `100 % n`. */
  lemma DefaultShortfall(n: nat)
    requires n > 0
    ensures n * DefaultPercent(n) == 100 - 100 % n
  {
  }

  // ---------------------------------------------------------------------
  // Running the backtest: empty-selection guard, weights, sum gate
  // ---------------------------------------------------------------------

  datatype Method = EqualWeight | YieldWeight | MarketCapWeight | CustomWeight

  datatype AllocationError = NoStocksSelected | WeightsDoNotSumToOne(total: real)

  /** The weights the chosen method computes for a non-empty selection. */
  function MethodWeights(m: Method, sel: Selection, divYields: map<Symbol, Option<real>>,
                         moved: map<Symbol, Percent>): (w: Weights)
    requires |sel| > 0
    requires m == YieldWeight ==> forall s :: s in sel ==> s in divYields
    ensures w.Keys == set s | s in sel
  {
    match m
    case EqualWeight => EqualWeights(sel)
    case YieldWeight => YieldWeights(sel, divYields)
    case MarketCapWeight => EqualWeights(sel)
    case CustomWeight => CustomWeights(sel, moved)
  }

  /** The weights handed to the backtester, or why the run stops. */
  function Allocate(m: Method, sel: Selection, divYields: map<Symbol, Option<real>>,
                    moved: map<Symbol, Percent>): (r: Result<Weights, AllocationError>)
    requires m == YieldWeight ==> forall s :: s in sel ==> s in divYields
    ensures r == Failure(NoStocksSelected) <==> sel == []
    ensures sel != [] ==>
              (r.Success? <==> IsCloseToOne(SumOver(sel, MethodWeights(m, sel, divYields, moved))))
    ensures r.Success? ==> r.value == MethodWeights(m, sel, divYields, moved)
    ensures r.Success? ==> r.value.Keys == set s | s in sel
    ensures r.Success? ==> IsCloseToOne(SumOver(sel, r.value))
    ensures r.Failure? && r.error.WeightsDoNotSumToOne? ==>
              r.error.total == SumOver(sel, MethodWeights(m, sel, divYields, moved))
              && !IsCloseToOne(r.error.total)
  {
    if sel == [] then Failure(NoStocksSelected)
    else
      var w := MethodWeights(m, sel, divYields, moved);
      var total := SumOver(sel, w);
      if IsCloseToOne(total) then Success(w) else Failure(WeightsDoNotSumToOne(total))
  }

  /** Every method other than Custom runs on any non-empty selection, with weights summing to 1. */
  lemma ComputedMethodsAlwaysRun(m: Method, sel: Selection, divYields: map<Symbol, Option<real>>,
                                 moved: map<Symbol, Percent>)
    requires m != CustomWeight && |sel| > 0
    requires m == YieldWeight ==> forall s :: s in sel ==> s in divYields
    ensures Allocate(m, sel, divYields, moved).Success?
    ensures SumOver(sel, Allocate(m, sel, divYields, moved).value) == 1.0
  {
    if m == YieldWeight {
      YieldWeightsSumToOne(sel, divYields);
    } else {
      EqualWeightsSumToOne(sel);
    }
  }

  /** Market Cap Weight is equal weighting. */
  lemma MarketCapIsEqualWeight(sel: Selection, divYields: map<Symbol, Option<real>>,
                               moved: map<Symbol, Percent>)
    requires |sel| > 0
    ensures Allocate(MarketCapWeight, sel, divYields, moved)
            == Allocate(EqualWeight, sel, divYields, moved)
  {
  }

  /** A custom allocation runs exactly when the selection is non-empty and the sliders total 99-101%. */
  lemma CustomRunsIff(sel: Selection, divYields: map<Symbol, Option<real>>, moved: map<Symbol, Percent>)
    ensures Allocate(CustomWeight, sel, divYields, moved).Success?
            <==> |sel| > 0 && 99 <= PercentTotal(sel, |sel|, moved) <= 101
  {
    if |sel| > 0 {
      CustomAcceptedIff(sel, moved);
    }
  }

  /** Seven stocks with untouched sliders (14% each, 98% in all) stop the run. */
  lemma SevenUntouchedRejected(sel: Selection, divYields: map<Symbol, Option<real>>)
    requires |sel| == 7
    ensures Allocate(CustomWeight, sel, divYields, map[]).Failure?
  {
    UntouchedSlidersAcceptedIff(sel);
  }

  // ---------------------------------------------------------------------
  // Fee inputs
  // ---------------------------------------------------------------------

  /** Upper bounds of the fee inputs, in percent. */
  const MaxDripFeePercent: real := 5.0
  const MaxRebalancingFeePercent: real := 2.0

  const NoRebalancing: string := "No Rebalancing"

  /** The DRIP fee as a fraction: 0 unless DRIP is on, else the entered percent / 100. */
  function DripFee(enabled: bool, percent: real): (fee: real)
    ensures !enabled ==> fee == 0.0
    ensures enabled ==> fee * 100.0 == percent
  {
    if enabled then percent / 100.0 else 0.0
  }

  /** The rebalancing fee as a fraction: 0 for "No Rebalancing", else the entered percent / 100. */
  function RebalancingFee(frequency: string, percent: real): (fee: real)
    ensures frequency == NoRebalancing ==> fee == 0.0
    ensures frequency != NoRebalancing ==> fee * 100.0 == percent
  {
    if frequency != NoRebalancing then percent / 100.0 else 0.0
  }

  /** Within the input's range the DRIP fee is a fraction of at most 5%. */
  lemma DripFeeRange(enabled: bool, percent: real)
    requires 0.0 <= percent <= MaxDripFeePercent
    ensures 0.0 <= DripFee(enabled, percent) <= 0.05
  {
  }

  /** Within the input's range the rebalancing fee is a fraction of at most 2%. */
  lemma RebalancingFeeRange(frequency: string, percent: real)
    requires 0.0 <= percent <= MaxRebalancingFeePercent
    ensures 0.0 <= RebalancingFee(frequency, percent) <= 0.02
  {
  }
}

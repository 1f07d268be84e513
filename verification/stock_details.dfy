/**
 The stock-details page: the dividend-yield series drawn over a price history,
 the market-cap label of the company panel, the recent-payments table, and the
 guards that decide whether a financial-health metric is shown.
 Dates are day numbers; amounts and prices are exact reals.
 */
module StockDetails {
  import opened Wrappers

  datatype Dividend = Dividend(date: int, amount: real)
  datatype PriceBar = PriceBar(date: int, close: real)

  predicate SortedByDate(divs: seq<Dividend>)
  {
    forall i, j :: 0 <= i < j < |divs| ==> divs[i].date <= divs[j].date
  }

  // ---------------------------------------------------------------------
  // Last known dividend
  // ---------------------------------------------------------------------

  /** Position `k` holds the last payment, in series order, dated on or before `d`. */
  predicate IsLastOnOrBefore(divs: seq<Dividend>, d: int, k: int)
  {
    0 <= k < |divs| && divs[k].date <= d
    && forall j :: k < j < |divs| ==> divs[j].date > d
  }

  /** No payment is dated on or before `d`. */
  predicate NoneOnOrBefore(divs: seq<Dividend>, d: int)
  {
    forall j :: 0 <= j < |divs| ==> divs[j].date > d
  }

  /** The payments dated on or before `d`, in their listed order. */
  function OnOrBefore(divs: seq<Dividend>, d: int): (r: seq<Dividend>)
    ensures |r| <= |divs|
    ensures forall x :: x in r ==> x in divs && x.date <= d
    ensures forall j :: 0 <= j < |divs| && divs[j].date <= d ==> divs[j] in r
  {
    if divs == [] then []
    else
      var last := divs[|divs| - 1];
      OnOrBefore(divs[..|divs| - 1], d) + (if last.date <= d then [last] else [])
  }

  /** The amount of the last payment dated on or before `d`, if there is one. */
  function LastDividend(divs: seq<Dividend>, d: int): Option<real>
  {
    var recent := OnOrBefore(divs, d);
    if |recent| > 0 then Some(recent[|recent| - 1].amount) else None
  }

  /** The lookup comes back empty exactly when no payment is dated on or before `d`. */
  lemma LastDividendNone(divs: seq<Dividend>, d: int)
    ensures LastDividend(divs, d).None? <==> NoneOnOrBefore(divs, d)
  {
    var recent := OnOrBefore(divs, d);
    if |recent| > 0 {
      assert recent[0] in recent;
    }
  }

  /** The filter-then-last lookup returns the last payment dated on or before `d`. */
  lemma {:induction false} LastDividendAt(divs: seq<Dividend>, d: int, k: int)
    requires IsLastOnOrBefore(divs, d, k)
    ensures LastDividend(divs, d) == Some(divs[k].amount)
  {
    var n := |divs| - 1;
    var prefix := divs[..n];
    if k < n {
      assert OnOrBefore(divs, d) == OnOrBefore(prefix, d) + [];
      assert IsLastOnOrBefore(prefix, d, k);
      LastDividendAt(prefix, d, k);
    }
  }

  /** On a date-sorted series, the last payment on or before `d` is also the latest one. */
  lemma LastIsLatestWhenSorted(divs: seq<Dividend>, d: int, k: int)
    requires SortedByDate(divs) && IsLastOnOrBefore(divs, d, k)
    ensures forall j :: 0 <= j < |divs| && divs[j].date <= d ==> divs[j].date <= divs[k].date
  {
  }

  // ---------------------------------------------------------------------
  // Yield series
  // ---------------------------------------------------------------------

  /** A yield value; `Undefined` is a payment divided by a zero close. */
  datatype YieldPoint = Finite(value: real) | Undefined

  /** Payments are taken to be quarterly. */
  const PaymentsPerYear: real := 4.0

  /** The yield on one price date: the last payment annualised over the close, or 0. */
  function YieldAt(divs: seq<Dividend>, bar: PriceBar): (y: YieldPoint)
    ensures y == Finite(0.0) <== NoneOnOrBefore(divs, bar.date)
    ensures y == Undefined <==> !NoneOnOrBefore(divs, bar.date) && bar.close == 0.0
  {
    LastDividendNone(divs, bar.date);
    match LastDividend(divs, bar.date)
    case None => Finite(0.0)
    case Some(amount) =>
      if bar.close == 0.0 then Undefined else Finite(PaymentsPerYear * amount / bar.close)
  }

  /** With a payment on or before the date and a non-zero close, the yield is four payments over the close. */
  lemma YieldAtLastPayment(divs: seq<Dividend>, bar: PriceBar, k: int)
    requires IsLastOnOrBefore(divs, bar.date, k) && bar.close != 0.0
    ensures YieldAt(divs, bar) == Finite(PaymentsPerYear * divs[k].amount / bar.close)
  {
    LastDividendAt(divs, bar.date, k);
  }

  /** One yield per price date, in price order. */
  function YieldSeries(divs: seq<Dividend>, bars: seq<PriceBar>): (ys: seq<YieldPoint>)
    ensures |ys| == |bars|
    ensures forall i :: 0 <= i < |bars| ==> ys[i] == YieldAt(divs, bars[i])
  {
    seq(|bars|, i requires 0 <= i < |bars| => YieldAt(divs, bars[i]))
  }

  /** A payment on the price date itself counts. */
  lemma SameDayPaymentCounts(divs: seq<Dividend>, bar: PriceBar)
    requires |divs| > 0 && divs[|divs| - 1].date == bar.date && bar.close != 0.0
    ensures YieldAt(divs, bar) == Finite(PaymentsPerYear * divs[|divs| - 1].amount / bar.close)
  {
    YieldAtLastPayment(divs, bar, |divs| - 1);
  }

  /** Every price dated before the first payment gets yield 0. */
  lemma BeforeFirstPaymentIsZero(divs: seq<Dividend>, bars: seq<PriceBar>, i: int)
    requires SortedByDate(divs) && |divs| > 0
    requires 0 <= i < |bars| && bars[i].date < divs[0].date
    ensures YieldSeries(divs, bars)[i] == Finite(0.0)
  {
    assert NoneOnOrBefore(divs, bars[i].date);
  }

  /** What the price-and-yield tab shows. */
  datatype PriceTab =
    | NoPriceData
    | LoadError
    | NoDividendData
    | YieldChart(series: seq<YieldPoint>)

  /**
   An empty or missing price history shows a warning; a failed dividend fetch
   (`None`) makes taking its length raise, which the tab reports as an error; no
   payments at all skip the yield chart.
   */
  function PriceAndYieldTab(bars: Option<seq<PriceBar>>, divs: Option<seq<Dividend>>): (t: PriceTab)
    ensures t.NoPriceData? <==> bars.None? || bars.value == []
    ensures t.LoadError? <==> !t.NoPriceData? && divs.None?
    ensures t.YieldChart? <==> bars.Some? && bars.value != [] && divs.Some? && divs.value != []
    ensures t.YieldChart? ==> t.series == YieldSeries(divs.value, bars.value)
    ensures t.YieldChart? ==> |t.series| == |bars.value|
  {
    if bars.None? || bars.value == [] then NoPriceData
    else if divs.None? then LoadError
    else if divs.value == [] then NoDividendData
    else YieldChart(YieldSeries(divs.value, bars.value))
  }

  // ---------------------------------------------------------------------
  // Market-cap label
  // ---------------------------------------------------------------------

  const OneBillion: real := 1_000_000_000.0
  const OneMillion: real := 1_000_000.0

  datatype CapLabel = Billions(amount: real) | Millions(amount: real) | CapUnavailable

  /** The reported market cap, with a missing one read as 0. */
  function CapValue(marketCap: Option<real>): real
  {
    if marketCap.None? then 0.0 else marketCap.value
  }

  /** Billions above one billion, millions above one million, otherwise unavailable. */
  function Label(marketCap: Option<real>): (l: CapLabel)
    ensures l.Billions? <==> CapValue(marketCap) > OneBillion
    ensures l.Millions? <==> OneMillion < CapValue(marketCap) <= OneBillion
    ensures l.Billions? ==> l.amount * OneBillion == CapValue(marketCap)
    ensures l.Millions? ==> l.amount * OneMillion == CapValue(marketCap) && 1.0 < l.amount <= 1000.0
  {
    var m := CapValue(marketCap);
    if m > OneBillion then Billions(m / OneBillion)
    else if m > OneMillion then Millions(m / OneMillion)
    else CapUnavailable
  }

  function Rank(l: CapLabel): nat
  {
    match l
    case CapUnavailable => 0
    case Millions(_) => 1
    case Billions(_) => 2
  }

  /** A larger market cap never gets a smaller band. */
  lemma LabelMonotone(a: real, b: real)
    requires a <= b
    ensures Rank(Label(Some(a))) <= Rank(Label(Some(b)))
  {
  }

  /** Exactly one billion is labelled as 1000 millions, not as 1 billion. */
  lemma OneBillionIsMillions()
    ensures Label(Some(OneBillion)) == Millions(1000.0)
  {
  }

  /** A missing market cap is unavailable. */
  lemma MissingCapUnavailable()
    ensures Label(None) == CapUnavailable
  {
  }

  // ---------------------------------------------------------------------
  // Recent-payments table
  // ---------------------------------------------------------------------

  const TableRows: nat := 20

  /** The last `n` entries, or all of them when there are fewer. */
  function Tail(divs: seq<Dividend>, n: nat): (r: seq<Dividend>)
    ensures |r| == if |divs| <= n then |divs| else n
    ensures forall i :: 0 <= i < |r| ==> r[i] == divs[|divs| - |r| + i]
  {
    if |divs| <= n then divs else divs[|divs| - n..]
  }

  predicate NewestFirst(s: seq<Dividend>)
  {
    forall i, j :: 0 <= i < j < |s| ==> s[i].date >= s[j].date
  }

  /** Puts `x` into a newest-first list, before the first entry not newer than it. */
  function Insert(x: Dividend, s: seq<Dividend>): (r: seq<Dividend>)
    ensures |r| == |s| + 1
  {
    if s == [] || x.date >= s[0].date then [x] + s
    else [s[0]] + Insert(x, s[1..])
  }

  /** The payments ordered by date, newest first. */
  function SortNewestFirst(s: seq<Dividend>): (r: seq<Dividend>)
    ensures |r| == |s|
  {
    if s == [] then [] else Insert(s[0], SortNewestFirst(s[1..]))
  }

  lemma {:induction false} InsertPermutes(x: Dividend, s: seq<Dividend>)
    ensures multiset(Insert(x, s)) == multiset(s) + multiset{x}
  {
    if s != [] && x.date < s[0].date {
      InsertPermutes(x, s[1..]);
      assert s == [s[0]] + s[1..];
    }
  }

  lemma NewestFirstCons(a: Dividend, r: seq<Dividend>)
    requires NewestFirst(r)
    requires forall y :: y in r ==> a.date >= y.date
    ensures NewestFirst([a] + r)
  {
    forall i, j | 0 <= i < j < |[a] + r|
      ensures ([a] + r)[i].date >= ([a] + r)[j].date
    {
      if i > 0 {
        assert ([a] + r)[i] == r[i - 1];
      }
      assert ([a] + r)[j] == r[j - 1];
      assert r[j - 1] in r;
    }
  }

  lemma {:induction false} InsertSorted(x: Dividend, s: seq<Dividend>)
    requires NewestFirst(s)
    ensures NewestFirst(Insert(x, s))
  {
    if s == [] || x.date >= s[0].date {
      NewestFirstCons(x, s);
    } else {
      var r := Insert(x, s[1..]);
      InsertSorted(x, s[1..]);
      InsertPermutes(x, s[1..]);
      forall y | y in r
        ensures s[0].date >= y.date
      {
        assert y in multiset(r);
        if y != x {
          assert y in s[1..];
        }
      }
      NewestFirstCons(s[0], r);
    }
  }

  lemma {:induction false} SortSpec(s: seq<Dividend>)
    ensures multiset(SortNewestFirst(s)) == multiset(s)
    ensures NewestFirst(SortNewestFirst(s))
  {
    if s != [] {
      SortSpec(s[1..]);
      InsertPermutes(s[0], SortNewestFirst(s[1..]));
      InsertSorted(s[0], SortNewestFirst(s[1..]));
      assert s == [s[0]] + s[1..];
    }
  }

  /** The table's rows: the last 20 payments, newest first. */
  function RecentDividends(divs: seq<Dividend>): (r: seq<Dividend>)
    ensures |r| <= TableRows
    ensures |r| == if |divs| <= TableRows then |divs| else TableRows
  {
    SortNewestFirst(Tail(divs, TableRows))
  }

  /** The rows are a newest-first rearrangement of the last 20 payments. */
  lemma RecentDividendsSpec(divs: seq<Dividend>)
    ensures multiset(RecentDividends(divs)) == multiset(Tail(divs, TableRows))
    ensures NewestFirst(RecentDividends(divs))
  {
    SortSpec(Tail(divs, TableRows));
  }

  predicate StrictlyAscending(s: seq<Dividend>)
  {
    forall i, j :: 0 <= i < j < |s| ==> s[i].date < s[j].date
  }

  function Reverse(s: seq<Dividend>): (r: seq<Dividend>)
    ensures |r| == |s|
    ensures forall i :: 0 <= i < |s| ==> r[i] == s[|s| - 1 - i]
  {
    if s == [] then [] else Reverse(s[1..]) + [s[0]]
  }

  lemma {:induction false} InsertOldest(x: Dividend, s: seq<Dividend>)
    requires forall y :: y in s ==> x.date < y.date
    ensures Insert(x, s) == s + [x]
  {
    if s != [] {
      InsertOldest(x, s[1..]);
      assert [s[0]] + (s[1..] + [x]) == s + [x];
    }
  }

  lemma {:induction false} SortAscendingIsReverse(s: seq<Dividend>)
    requires StrictlyAscending(s)
    ensures SortNewestFirst(s) == Reverse(s)
  {
    if s != [] {
      SortAscendingIsReverse(s[1..]);
      var rest := Reverse(s[1..]);
      assert forall y :: y in rest ==> s[0].date < y.date by {
        forall y | y in rest
          ensures s[0].date < y.date
        {
          var i :| 0 <= i < |rest| && rest[i] == y;
          assert y == s[|s| - 1 - i];
        }
      }
      InsertOldest(s[0], rest);
    }
  }

  /** For a date-ordered payment history the table is its last 20 payments in reverse. */
  lemma RecentDividendsOfOrderedHistory(divs: seq<Dividend>)
    requires StrictlyAscending(divs)
    ensures RecentDividends(divs) == Reverse(Tail(divs, TableRows))
  {
    var t := Tail(divs, TableRows);
    assert StrictlyAscending(t);
    SortAscendingIsReverse(t);
  }

  /** What the payment-history tab shows. */
  datatype DividendTab = NoHistory | PaymentTable(rows: seq<Dividend>)

  function DividendHistoryTab(divs: Option<seq<Dividend>>): (t: DividendTab)
    ensures t.NoHistory? <==> divs.None? || divs.value == []
    ensures t.PaymentTable? ==> t.rows == RecentDividends(divs.value)
    ensures t.PaymentTable? ==> 0 < |t.rows| <= TableRows
  {
    if divs.None? || divs.value == [] then NoHistory else PaymentTable(RecentDividends(divs.value))
  }

  // ---------------------------------------------------------------------
  // Financial-health metric guards
  // ---------------------------------------------------------------------

  /** A metric of the stock's row: absent from the row, NaN, or a number. */
  datatype Metric = Absent | NotANumber | Value(v: real)

  /** What a metric card shows: the number, the text "nan", or "N/A". */
  datatype Display = Figure(v: real) | FigureNaN | NotAvailable

  /** A metric read from the stock's row, with an absent one read as 0. */
  function Read(m: Metric): Metric
  {
    if m.Absent? then Value(0.0) else m
  }

  /** FCF/Dividend ratio: shown only when greater than 0 (NaN compares false). */
  function FcfDisplay(m: Metric): (d: Display)
    ensures d.Figure? <==> m.Value? && m.v > 0.0
    ensures d.Figure? ==> d.v == m.v
    ensures !d.FigureNaN?
  {
    var x := Read(m);
    if x.Value? && x.v > 0.0 then Figure(x.v) else NotAvailable
  }

  /** Debt-to-equity: shown when at least 0, so an absent value shows as 0. */
  function DebtToEquityDisplay(m: Metric): (d: Display)
    ensures d.Figure? <==> m.Absent? || (m.Value? && m.v >= 0.0)
    ensures m.Absent? ==> d == Figure(0.0)
    ensures m.Value? && d.Figure? ==> d.v == m.v
    ensures !d.FigureNaN?
  {
    var x := Read(m);
    if x.Value? && x.v >= 0.0 then Figure(x.v) else NotAvailable
  }

  /** Return on equity: shown when not 0, and NaN is not 0. */
  function RoeDisplay(m: Metric): (d: Display)
    ensures d.NotAvailable? <==> m.Absent? || m == Value(0.0)
    ensures d.FigureNaN? <==> m.NotANumber?
    ensures d.Figure? ==> m.Value? && d.v == m.v && d.v != 0.0
  {
    var x := Read(m);
    match x
    case NotANumber => FigureNaN
    case Value(v) => if v != 0.0 then Figure(v) else NotAvailable
    case Absent => NotAvailable
  }

  /** A missing metric reads as 0: hidden for FCF and ROE, shown as 0 for D/E. */
  lemma AbsentMetrics()
    ensures FcfDisplay(Absent) == NotAvailable
    ensures DebtToEquityDisplay(Absent) == Figure(0.0)
    ensures RoeDisplay(Absent) == NotAvailable
  {
  }
}

/** The analytics of one coin. Each operation reads `txs`, the coin's own
    transactions (`coin.transactions`, that is `OfCoin(store, coin)`), and
    derives a price or volume figure from it. A Python exception becomes an
    `Err` carrying the `Failure` that caused it. */
module Coins {
  import opened Wrappers
  import opened Numbers
  import opened Transactions

  /** Days listed by `get_last_five_days_data`. */
  const HistoryDays: nat := 5
  /** Days averaged by `get_performance_of_week`. */
  const WeekDays: nat := 7
  /** Records returned by `get_lasts_transactions`. */
  const LastTransactionsLimit: nat := 7

  // ---------------------------------------------------------------- prices

  /** `get_price_by_date(d)`: the mean price of the records of day `d`
      (time of day plays no part), absent when the day has none. */
  function PriceOn(txs: seq<Transaction>, d: int): (r: Option<real>)
    ensures r.None? <==> !Traded(txs, d)
  {
    OnDayKeepsThatDay(txs, d);
    DayAggregatesOverOnDay(txs, d, Price);
    var count := DayCount(txs, d);
    if count == 0 then None else Some(DayTotal(txs, d, Price) / count as real)
  }

  /** A day's price is the mean of that day's trade prices: their sum over
      their number, which lies between the cheapest and the dearest trade of
      the day. */
  lemma PriceOnIsMean(txs: seq<Transaction>, d: int)
    requires Traded(txs, d)
    ensures exists t :: t in txs && t.day == d && t.price <= PriceOn(txs, d).value
    ensures exists t :: t in txs && t.day == d && PriceOn(txs, d).value <= t.price
    ensures |OnDay(txs, d)| > 0
    ensures PriceOn(txs, d).value == Total(OnDay(txs, d), Price) / |OnDay(txs, d)| as real
  {
    var s := OnDay(txs, d);
    OnDayKeepsThatDay(txs, d);
    DayAggregatesOverOnDay(txs, d, Price);
    var mean := Total(s, Price) / |s| as real;
    assert PriceOn(txs, d).value == mean;
    MeanReachedFromBelow(s, Price);
    MeanReachedFromAbove(s, Price);
    var i :| 0 <= i < |s| && Measure(s[i], Price) <= mean;
    var j :| 0 <= j < |s| && mean <= Measure(s[j], Price);
    assert s[i] in s && s[j] in s;
  }

  /** The last day always has a price and volumes. */
  lemma LastDayHasData(txs: seq<Transaction>)
    requires |txs| > 0
    ensures PriceOn(txs, LastDay(txs).value).Some?
    ensures TradingVolumeOn(txs, LastDay(txs).value).Some?
    ensures MoneyVolumeOn(txs, LastDay(txs).value).Some?
  {
  }

  /** `get_last_day_price`: the price of the last day rounded to cents; it
      fails only when the coin has no transactions. */
  function LastDayPrice(txs: seq<Transaction>): (r: Result<real, Failure>)
    ensures r.Err? <==> |txs| == 0
    ensures r.Err? ==> r.error == NoTransactions
    ensures r.Ok? ==> PriceOn(txs, LastDay(txs).value).Some?
    ensures r.Ok? ==> IsCents(r.value)
    ensures r.Ok? ==> -0.005 <= r.value - PriceOn(txs, LastDay(txs).value).value <= 0.005
  {
    var last :- LastDay(txs);
    Round2InCents(PriceOn(txs, last).value);
    Ok(Round2(PriceOn(txs, last).value))
  }

  /** `n` rounded daily prices walking back from day `d`, most recent first;
      the walk stops with `NoPriceOn` at the first day without a trade. */
  function RecentPrices(txs: seq<Transaction>, d: int, n: nat): Result<seq<real>, Failure>
    decreases n
  {
    if n == 0 then Ok([])
    else
      match PriceOn(txs, d)
      case None => Err(NoPriceOn(d))
      case Some(p) =>
        match RecentPrices(txs, d - 1, n - 1)
        case Err(e) => Err(e)
        case Ok(rest) => Ok([Round2(p)] + rest)
  }

  /** The walk succeeds exactly when each of its `n` days has a trade, and
      then lists those days' rounded prices from `d` backward; otherwise it
      reports the most recent day without a trade. */
  lemma {:induction false} RecentPricesDefinedIff(txs: seq<Transaction>, d: int, n: nat)
    ensures RecentPrices(txs, d, n).Ok? <==> AllTradedBetween(txs, d - n + 1, d)
    ensures RecentPrices(txs, d, n).Ok? ==>
              (|RecentPrices(txs, d, n).value| == n &&
               forall i :: 0 <= i < n ==> RecentPrices(txs, d, n).value[i] == Round2(PriceOn(txs, d - i).value))
    ensures RecentPrices(txs, d, n).Err? ==>
              (RecentPrices(txs, d, n).error.NoPriceOn? &&
               MostRecentGap(txs, d - n + 1, d, RecentPrices(txs, d, n).error.day))
    decreases n
  {
    if n > 0 {
      RecentPricesDefinedIff(txs, d - 1, n - 1);
      var rest := RecentPrices(txs, d - 1, n - 1);
      if PriceOn(txs, d).Some? && rest.Ok? {
        PricesStepBack(txs, d, n, rest.value);
      }
    }
  }

  /** One step of the walk back: the price of day `d` put before the prices
      of the days from `d - 1` backward. */
  lemma PricesStepBack(txs: seq<Transaction>, d: int, n: nat, rest: seq<real>)
    requires n > 0 && AllTradedBetween(txs, d - n + 1, d) && |rest| == n - 1
    requires forall i :: 0 <= i < n - 1 ==> rest[i] == Round2(PriceOn(txs, d - 1 - i).value)
    ensures forall i :: 0 <= i < n ==>
              ([Round2(PriceOn(txs, d).value)] + rest)[i] == Round2(PriceOn(txs, d - i).value)
  {
    var prices := [Round2(PriceOn(txs, d).value)] + rest;
    forall i | 0 <= i < n
      ensures prices[i] == Round2(PriceOn(txs, d - i).value)
    {
      if i == 0 {
        assert d - i == d;
      } else {
        var k := i - 1;
        assert rest[k] == Round2(PriceOn(txs, d - 1 - k).value);
        assert d - 1 - k == d - i;
      }
    }
  }

  /** `get_last_five_days_data`, as a specification: five rounded prices, of
      the last day and the four days before it, most recent first. It fails
      when the coin has no transactions or when one of those days has none,
      naming the most recent such day. */
  function LastFiveDaysData(txs: seq<Transaction>): (r: Result<seq<real>, Failure>)
    ensures r == Err(NoTransactions) <==> |txs| == 0
    ensures |txs| > 0 && r.Err? ==> r.error.NoPriceOn?
    ensures r.Ok? <==>
              (|txs| > 0 &&
               AllTradedBetween(txs, LastDay(txs).value - (HistoryDays - 1), LastDay(txs).value))
    ensures r.Ok? ==> |r.value| == HistoryDays
    ensures r.Err? && r.error.NoPriceOn? ==>
              (|txs| > 0 &&
               MostRecentGap(txs, LastDay(txs).value - (HistoryDays - 1), LastDay(txs).value, r.error.day))
  {
    var last :- LastDay(txs);
    RecentPricesDefinedIff(txs, last, HistoryDays);
    RecentPrices(txs, last, HistoryDays)
  }

  /** The five prices are, in order, the rounded prices of the last day and
      of each of the four days before it. */
  lemma LastFiveDaysEntries(txs: seq<Transaction>)
    requires LastFiveDaysData(txs).Ok?
    ensures forall i :: 0 <= i < HistoryDays ==>
              LastFiveDaysData(txs).value[i] == Round2(PriceOn(txs, LastDay(txs).value - i).value)
  {
    var last := LastDay(txs).value;
    var prices := RecentPrices(txs, last, HistoryDays);
    assert LastFiveDaysData(txs) == prices;
    RecentPricesDefinedIff(txs, last, HistoryDays);
  }

  /** The first of the five prices is the last day's price. */
  lemma LastFiveDaysStartWithLastDayPrice(txs: seq<Transaction>)
    requires LastFiveDaysData(txs).Ok?
    ensures LastDayPrice(txs).Ok? && LastFiveDaysData(txs).value[0] == LastDayPrice(txs).value
  {
  }

  /** The walk over the five days stops at the most recent day without a
      trade. */
  lemma LastFiveDaysStopAt(txs: seq<Transaction>, last: int, day: int)
    requires LastDay(txs) == Ok(last)
    requires MostRecentGap(txs, last - (HistoryDays - 1), last, day)
    ensures LastFiveDaysData(txs) == Err(NoPriceOn(day))
  {
    RecentPricesDefinedIff(txs, last, HistoryDays);
    MostRecentGapUnique(txs, last - (HistoryDays - 1), last, RecentPrices(txs, last, HistoryDays).error.day, day);
  }

  /** Five prices, one per day walking back from the last day, are the
      whole answer. */
  lemma LastFiveDaysComplete(txs: seq<Transaction>, last: int, data: seq<real>)
    requires LastDay(txs) == Ok(last)
    requires AllTradedBetween(txs, last - (HistoryDays - 1), last)
    requires |data| == HistoryDays
    requires forall k :: 0 <= k < |data| ==> data[k] == Round2(PriceOn(txs, last - k).value)
    ensures LastFiveDaysData(txs) == Ok(data)
  {
    RecentPricesDefinedIff(txs, last, HistoryDays);
    assert data == RecentPrices(txs, last, HistoryDays).value;
  }

  /** `get_last_five_days_data`: the loop over five days, appending each
      day's rounded price and stepping back one day. */
  method GetLastFiveDaysData(txs: seq<Transaction>) returns (r: Result<seq<real>, Failure>)
    ensures r == LastFiveDaysData(txs)
  {
    var last := LastDay(txs);
    if last.Err? {
      return Err(last.error);
    }
    var day := last.value;
    var data: seq<real> := [];
    for i := 1 to HistoryDays + 1
      invariant day == last.value - (i - 1)
      invariant |data| == i - 1
      invariant forall k :: 0 <= k < |data| ==>
                  Traded(txs, last.value - k) && data[k] == Round2(PriceOn(txs, last.value - k).value)
      invariant AllTradedBetween(txs, day + 1, last.value)
    {
      var price := PriceOn(txs, day);
      if price.None? {
        LastFiveDaysStopAt(txs, last.value, day);
        return Err(NoPriceOn(day));
      }
      data := data + [Round2(price.value)];
      day := day - 1;
    }
    LastFiveDaysComplete(txs, last.value, data);
    return Ok(data);
  }

  // ------------------------------------------------------------ performance

  /** The sum of the daily prices of the `n` days ending at `e`, walking
      back from `e`; it stops with `NoPriceOn` at the first day without a trade. */
  function WindowTotal(txs: seq<Transaction>, e: int, n: nat): Result<real, Failure>
    decreases n
  {
    if n == 0 then Ok(0.0)
    else
      match PriceOn(txs, e)
      case None => Err(NoPriceOn(e))
      case Some(p) =>
        match WindowTotal(txs, e - 1, n - 1)
        case Err(x) => Err(x)
        case Ok(rest) => Ok(p + rest)
  }

  /** The window's sum exists exactly when every one of its days has a
      trade; otherwise the walk reports the most recent day without one. */
  lemma {:induction false} WindowTotalDefinedIff(txs: seq<Transaction>, e: int, n: nat)
    ensures WindowTotal(txs, e, n).Ok? <==> AllTradedBetween(txs, e - n + 1, e)
    ensures WindowTotal(txs, e, n).Err? ==>
              (WindowTotal(txs, e, n).error.NoPriceOn? &&
               MostRecentGap(txs, e - n + 1, e, WindowTotal(txs, e, n).error.day))
    decreases n
  {
    if n > 0 {
      WindowTotalDefinedIff(txs, e - 1, n - 1);
    }
  }

  /** The sum of two windows, or the error met first when walking back. */
  function Join(a: Result<real, Failure>, b: Result<real, Failure>): Result<real, Failure> {
    match a
    case Err(x) => Err(x)
    case Ok(u) => match b case Err(y) => Err(y) case Ok(v) => Ok(u + v)
  }

  /** `total` added in front of the sum still to come. */
  function Plus(total: real, r: Result<real, Failure>): Result<real, Failure> {
    match r
    case Ok(rest) => Ok(total + rest)
    case Err(e) => Err(e)
  }

  /** Adding in front of a joined sum is adding in front of its first part. */
  lemma PlusJoin(p: real, a: Result<real, Failure>, b: Result<real, Failure>)
    ensures Plus(p, Join(a, b)) == Join(Plus(p, a), b)
  {
  }

  /** A window of `m + n` days ending at `e` is the window of `m` days ending
      at `e` followed, without gap or overlap, by the window of `n` days
      ending at `e - m`. */
  lemma {:induction false} WindowSplit(txs: seq<Transaction>, e: int, m: nat, n: nat)
    ensures WindowTotal(txs, e, m + n) == Join(WindowTotal(txs, e, m), WindowTotal(txs, e - m, n))
    decreases m
  {
    if m > 0 {
      WindowSplit(txs, e - 1, m - 1, n);
      assert m + n - 1 == (m - 1) + n && e - 1 - (m - 1) == e - m;
      if PriceOn(txs, e).Some? {
        var p := PriceOn(txs, e).value;
        assert WindowTotal(txs, e, m + n) == Plus(p, WindowTotal(txs, e - 1, m - 1 + n));
        assert WindowTotal(txs, e, m) == Plus(p, WindowTotal(txs, e - 1, m - 1));
        PlusJoin(p, WindowTotal(txs, e - 1, m - 1), WindowTotal(txs, e - m, n));
      } else {
        assert WindowTotal(txs, e, m + n) == Err(NoPriceOn(e)) == WindowTotal(txs, e, m);
      }
    } else {
      assert WindowTotal(txs, e, 0) == Ok(0.0);
    }
  }

  /** Adding a value within `[lo, hi]` to a sum within `[lo*m, hi*m]` gives
      a sum within `[lo*(m+1), hi*(m+1)]`. */
  /** One more day added to a window of `n - 1` days keeps the sum within
      `n` times the bounds. */
  lemma BoundsAddUp(lo: real, hi: real, p: real, rest: real, n: nat)
    requires n > 0
    requires lo <= p <= hi && lo * (n - 1) as real <= rest <= hi * (n - 1) as real
    ensures lo * n as real <= p + rest <= hi * n as real
  {
    var m := (n - 1) as real;
    assert n as real == m + 1.0;
    MulSucc(lo, m);
    MulSucc(hi, m);
  }

  /** A day's mean price lies within any bounds on that day's trade prices. */
  lemma DayPriceWithin(txs: seq<Transaction>, d: int, lo: real, hi: real)
    requires Traded(txs, d)
    requires forall t :: t in txs && t.day == d ==> lo <= t.price <= hi
    ensures lo <= PriceOn(txs, d).value <= hi
  {
    PriceOnIsMean(txs, d);
  }

  /** If every trade of the `n` days ending at `e` is priced within
      `[lo, hi]`, their summed daily prices lie within `[lo*n, hi*n]`. */
  lemma {:induction false} WindowTotalWithin(txs: seq<Transaction>, e: int, n: nat, lo: real, hi: real)
    requires WindowTotal(txs, e, n).Ok?
    requires forall t :: t in txs && e - n < t.day <= e ==> lo <= t.price <= hi
    ensures lo * n as real <= WindowTotal(txs, e, n).value <= hi * n as real
    decreases n
  {
    if n > 0 {
      DayPriceWithin(txs, e, lo, hi);
      WindowTotalWithin(txs, e - 1, n - 1, lo, hi);
      BoundsAddUp(lo, hi, PriceOn(txs, e).value, WindowTotal(txs, e - 1, n - 1).value, n);
    }
  }

  /** `get_performance_of_week(e)`, as a specification: the mean daily price
      of the seven days ending at `e`, with the day just before that window. */
  function WeekPerformance(txs: seq<Transaction>, e: int): (r: Result<(real, int), Failure>)
    ensures r.Ok? <==> AllTradedBetween(txs, e - (WeekDays - 1), e)
    ensures r.Err? ==> r.error.NoPriceOn? && MostRecentGap(txs, e - (WeekDays - 1), e, r.error.day)
    ensures r.Ok? ==> r.value.1 == e - WeekDays
  {
    WindowTotalDefinedIff(txs, e, WeekDays);
    match WindowTotal(txs, e, WeekDays)
    case Err(x) => Err(x)
    case Ok(total) => Ok((total / WeekDays as real, e - WeekDays))
  }

  /** The weekly mean stays within the range of the week's trade prices. */
  lemma WeekMeanWithin(txs: seq<Transaction>, e: int, lo: real, hi: real)
    requires WeekPerformance(txs, e).Ok?
    requires forall t :: t in txs && e - WeekDays < t.day <= e ==> lo <= t.price <= hi
    ensures lo <= WeekPerformance(txs, e).value.0 <= hi
  {
    WindowTotalWithin(txs, e, WeekDays, lo, hi);
  }

  /** Nothing added in front leaves the sum as it is. */
  lemma PlusNothing(r: Result<real, Failure>)
    ensures Plus(0.0, r) == r
  {
  }

  /** Moving the price of day `e` from the walk into the running total. */
  lemma PlusStep(txs: seq<Transaction>, total: real, e: int, n: nat)
    requires n > 0 && PriceOn(txs, e).Some?
    ensures Plus(total, WindowTotal(txs, e, n)) ==
            Plus(total + PriceOn(txs, e).value, WindowTotal(txs, e - 1, n - 1))
  {
  }

  /** `get_performance_of_week`: the loop accumulating seven daily prices
      while stepping the end date back. */
  method GetPerformanceOfWeek(txs: seq<Transaction>, e: int) returns (r: Result<(real, int), Failure>)
    ensures r == WeekPerformance(txs, e)
  {
    var weekPrice: real := 0.0;
    var endDate := e;
    PlusNothing(WindowTotal(txs, e, WeekDays));
    for i := 0 to WeekDays
      invariant endDate == e - i
      invariant WindowTotal(txs, e, WeekDays) == Plus(weekPrice, WindowTotal(txs, endDate, WeekDays - i))
    {
      var price := PriceOn(txs, endDate);
      if price.None? {
        assert WindowTotal(txs, endDate, WeekDays - i) == Err(NoPriceOn(endDate));
        return Err(NoPriceOn(endDate));
      }
      PlusStep(txs, weekPrice, endDate, WeekDays - i);
      weekPrice := weekPrice + price.value;
      endDate := endDate - 1;
    }
    assert WindowTotal(txs, e, WeekDays) == Ok(weekPrice + 0.0);
    weekPrice := weekPrice / WeekDays as real;
    return Ok((weekPrice, endDate));
  }

  /** `get_performance`: the percentage change, rounded to cents, from the
      mean price of the week `[L-13, L-7]` to that of the week `[L-6, L]`,
      `L` being the last day. The two windows are chained through the day
      the first one returns. */
  function Performance(txs: seq<Transaction>): (r: Result<real, Failure>)
    ensures r == Err(NoTransactions) <==> |txs| == 0
    ensures |txs| > 0 ==>
              var last := LastDay(txs).value;
              && ((r.Ok? || r == Err(DivisionByZero)) <==> AllTradedBetween(txs, last - 13, last))
              && (r.Err? && r.error.NoPriceOn? ==> MostRecentGap(txs, last - 13, last, r.error.day))
              && (r == Err(DivisionByZero) ==> WeekPerformance(txs, last - 7).value.0 == 0.0)
              && (r.Ok? ==> WeekPerformance(txs, last - 7).value.0 != 0.0 &&
                            r.value == Round2(Change(WeekPerformance(txs, last).value.0,
                                                     WeekPerformance(txs, last - 7).value.0)))
  {
    var last :- LastDay(txs);
    var current :- WeekPerformance(txs, last);
    var previous :- WeekPerformance(txs, current.1);
    if previous.0 == 0.0 then Err(DivisionByZero)
    else Ok(Round2(Change(current.0, previous.0)))
  }

  /** `get_performance_of_day`: the percentage change, rounded to cents,
      from the price of the day before the last day to the price of the
      last day. */
  function DayPerformance(txs: seq<Transaction>): (r: Result<real, Failure>)
    ensures r == Err(NoTransactions) <==> |txs| == 0
    ensures |txs| > 0 ==>
              var last := LastDay(txs).value;
              && (r == Err(NoPriceOn(last - 1)) <==> !Traded(txs, last - 1))
              && (r == Err(DivisionByZero) <==> Traded(txs, last - 1) && PriceOn(txs, last - 1).value == 0.0)
              && (r.Ok? <==> Traded(txs, last - 1) && PriceOn(txs, last - 1).value != 0.0)
              && (r.Ok? ==> r.value == Round2(Change(PriceOn(txs, last).value, PriceOn(txs, last - 1).value)))
  {
    var last :- LastDay(txs);
    var lastPrice := PriceOn(txs, last).value;
    match PriceOn(txs, last - 1)
    case None => Err(NoPriceOn(last - 1))
    case Some(beforeLastPrice) =>
      if beforeLastPrice == 0.0 then Err(DivisionByZero)
      else Ok(Round2(Change(lastPrice, beforeLastPrice)))
  }

  /** With a positive price the day before, the sign of the day's
      performance follows the direction of the price. */
  lemma DayPerformanceSign(txs: seq<Transaction>)
    requires DayPerformance(txs).Ok?
    requires PriceOn(txs, LastDay(txs).value - 1).value > 0.0
    ensures PriceOn(txs, LastDay(txs).value).value >= PriceOn(txs, LastDay(txs).value - 1).value ==>
              DayPerformance(txs).value >= 0.0
    ensures PriceOn(txs, LastDay(txs).value).value <= PriceOn(txs, LastDay(txs).value - 1).value ==>
              DayPerformance(txs).value <= 0.0
  {
  }

  // ------------------------------------------------------- last transactions

  /** The first `k` records of a newest-first sequence are newest first, are
      taken from it, and none of the records left behind is newer than any
      record kept. */
  lemma TakeNewest(sorted: seq<Transaction>, k: nat)
    requires NewestFirst(sorted) && k <= |sorted|
    ensures NewestFirst(sorted[..k])
    ensures multiset(sorted[..k]) <= multiset(sorted)
    ensures forall t, u :: t in multiset(sorted) - multiset(sorted[..k]) && u in sorted[..k] ==>
              t.Stamp() <= u.Stamp()
  {
    assert sorted == sorted[..k] + sorted[k..];
    assert multiset(sorted) == multiset(sorted[..k]) + multiset(sorted[k..]);
    forall t, u | t in multiset(sorted) - multiset(sorted[..k]) && u in sorted[..k]
      ensures t.Stamp() <= u.Stamp()
    {
      assert t in sorted[k..];
      LeftBehindNotNewer(sorted, k, t, u);
    }
  }

  /** In a newest-first sequence, a record after position `k` is not newer
      than one before it. */
  lemma LeftBehindNotNewer(sorted: seq<Transaction>, k: nat, t: Transaction, u: Transaction)
    requires NewestFirst(sorted) && k <= |sorted|
    requires t in sorted[k..] && u in sorted[..k]
    ensures t.Stamp() <= u.Stamp()
  {
    var j :| k <= j < |sorted| && sorted[j] == t;
    var i :| 0 <= i < k && sorted[i] == u;
  }

  /** `get_lasts_transactions`: up to seven records of the coin, newest
      first; none of the records left out is newer than a record returned. */
  function LastTransactions(txs: seq<Transaction>): (r: seq<Transaction>)
    ensures |txs| == 0 ==> r == []
    ensures |r| == if |txs| < LastTransactionsLimit then |txs| else LastTransactionsLimit
    ensures NewestFirst(r)
    ensures multiset(r) <= multiset(txs)
    ensures forall t, u :: t in multiset(txs) - multiset(r) && u in r ==> t.Stamp() <= u.Stamp()
  {
    if |txs| == 0 then []
    else
      var sorted := SortNewestFirst(txs);
      var k := if |txs| < LastTransactionsLimit then |txs| else LastTransactionsLimit;
      TakeNewest(sorted, k);
      sorted[..k]
  }

  // ----------------------------------------------------------------- volumes

  /** `get_trading_volume_of_day(d)`: the summed amounts of the records of
      day `d`, absent when the day has none. */
  function TradingVolumeOn(txs: seq<Transaction>, d: int): (r: Option<real>)
    ensures r.None? <==> !Traded(txs, d)
  {
    OnDayKeepsThatDay(txs, d);
    DayAggregatesOverOnDay(txs, d, Amount);
    if DayCount(txs, d) == 0 then None else Some(DayTotal(txs, d, Amount))
  }

  /** `get_money_volume_of_day(d)`: the summed `price * amount` of the records
      of day `d`, absent when the day has none. */
  function MoneyVolumeOn(txs: seq<Transaction>, d: int): (r: Option<real>)
    ensures r.None? <==> !Traded(txs, d)
  {
    OnDayKeepsThatDay(txs, d);
    DayAggregatesOverOnDay(txs, d, PriceTimesAmount);
    if DayCount(txs, d) == 0 then None else Some(DayTotal(txs, d, PriceTimesAmount))
  }

  /** `get_trading_volume_of_last_day`: the last day's trading volume
      truncated toward zero. */
  function TradingVolumeOfLastDay(txs: seq<Transaction>): (r: Result<int, Failure>)
    ensures r.Err? <==> |txs| == 0
    ensures r.Err? ==> r.error == NoTransactions
    ensures r.Ok? ==>
              (TradingVolumeOn(txs, LastDay(txs).value).Some? &&
               TruncatesTo(TradingVolumeOn(txs, LastDay(txs).value).value, r.value))
  {
    var last :- LastDay(txs);
    Ok(Trunc(TradingVolumeOn(txs, last).value))
  }

  /** `get_money_volume_of_last_day`: the last day's money volume truncated
      toward zero. */
  function MoneyVolumeOfLastDay(txs: seq<Transaction>): (r: Result<int, Failure>)
    ensures r.Err? <==> |txs| == 0
    ensures r.Err? ==> r.error == NoTransactions
    ensures r.Ok? ==>
              (MoneyVolumeOn(txs, LastDay(txs).value).Some? &&
               TruncatesTo(MoneyVolumeOn(txs, LastDay(txs).value).value, r.value))
  {
    var last :- LastDay(txs);
    Ok(Trunc(MoneyVolumeOn(txs, last).value))
  }

  /** When every trade of day `d` is at price `p`, the day's price is `p`
      and its money volume is `p` times its trading volume. */
  lemma VolumesAtOnePrice(txs: seq<Transaction>, d: int, p: real)
    requires Traded(txs, d)
    requires forall t :: t in txs && t.day == d ==> t.price == p
    ensures PriceOn(txs, d) == Some(p)
    ensures MoneyVolumeOn(txs, d).value == p * TradingVolumeOn(txs, d).value
  {
    DayPriceWithin(txs, d, p, p);
    assert forall i :: 0 <= i < |txs| ==> txs[i] in txs;
    DayTotalAtOnePrice(txs, d, p);
  }

  /** Volumes add up over two batches of records that both trade on day `d`,
      and a batch without trades that day leaves the volumes of the other. */
  lemma VolumesAddUp(a: seq<Transaction>, b: seq<Transaction>, d: int)
    ensures Traded(a, d) && Traded(b, d) ==>
              (TradingVolumeOn(a + b, d) == Some(TradingVolumeOn(a, d).value + TradingVolumeOn(b, d).value) &&
               MoneyVolumeOn(a + b, d) == Some(MoneyVolumeOn(a, d).value + MoneyVolumeOn(b, d).value))
    ensures !Traded(b, d) ==> TradingVolumeOn(a + b, d) == TradingVolumeOn(a, d)
    ensures !Traded(b, d) ==> MoneyVolumeOn(a + b, d) == MoneyVolumeOn(a, d)
  {
    DayAggregatesAppend(a, b, d, Amount);
    DayAggregatesAppend(a, b, d, PriceTimesAmount);
    DayAggregatesOverOnDay(b, d, Amount);
    DayAggregatesOverOnDay(b, d, PriceTimesAmount);
    OnDayKeepsThatDay(b, d);
  }

  /** Moving trades to other times of the same day changes no day's price
      or volumes. */
  lemma TimeOfDayIgnored(a: seq<Transaction>, b: seq<Transaction>, d: int)
    requires SameTradesSameDays(a, b)
    ensures PriceOn(a, d) == PriceOn(b, d)
    ensures TradingVolumeOn(a, d) == TradingVolumeOn(b, d)
    ensures MoneyVolumeOn(a, d) == MoneyVolumeOn(b, d)
  {
    DayAggregatesIgnoreTime(a, b, d, Price);
    DayAggregatesIgnoreTime(a, b, d, Amount);
    DayAggregatesIgnoreTime(a, b, d, PriceTimesAmount);
  }
}

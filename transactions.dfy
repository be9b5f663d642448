/** The transaction records of the trading store and the queries the coin
    analytics run over them: filtering by coin and by calendar date, sums of
    a field, the newest record and the ordering by timestamp. The store is a
    fixed sequence of records (one snapshot read by every query). */
module Transactions {
  import opened Wrappers
  import opened Numbers

  /** `DateTimeField` keeps microseconds: there are this many in a day. */
  const MicrosPerDay: int := 86_400_000_000

  /** Time of day, in microseconds after midnight. */
  newtype TimeOfDay = us: int | 0 <= us < 86_400_000_000

  datatype Kind = Buy | Sell

  /** One buy or sell of `amount` units of coin `coin` at `price`, made on
      calendar day `day` at time of day `second`. */
  datatype Transaction = Transaction(coin: nat, price: real, amount: real,
                                     day: int, time: TimeOfDay, kind: Kind)
  {
    /** The timestamp, as microseconds since the start of day 0. */
    function Stamp(): int {
      day * MicrosPerDay + time as int
    }

    /** `get_total_price`: the price of the whole transaction, rounded to cents. */
    function TotalPrice(): (r: real)
      ensures -0.005 <= r - price * amount <= 0.005
      ensures IsCents(r)
    {
      Round2InCents(price * amount);
      Round2(price * amount)
    }
  }

  /** Why an analytics call fails: no transactions at all (the newest record
      is missing), no price on a day that the computation needs, or a
      percentage against a zero baseline. */
  datatype Failure = NoTransactions | NoPriceOn(day: int) | DivisionByZero

  /** The calendar date of a timestamp is its day; the time of day is what remains. */
  lemma StampSplits(t: Transaction)
    ensures t.Stamp() / MicrosPerDay == t.day
    ensures t.Stamp() % MicrosPerDay == t.time as int
  {
  }

  /** A transaction on a later day has a later timestamp. */
  lemma LaterDayLaterStamp(a: Transaction, b: Transaction)
    requires a.day < b.day
    ensures a.Stamp() < b.Stamp()
  {
  }

  /** Some transaction of `s` falls on day `d`. */
  predicate Traded(s: seq<Transaction>, d: int) {
    exists t :: t in s && t.day == d
  }

  /** Every day from `lo` to `hi` (both included) has a transaction. */
  predicate AllTradedBetween(s: seq<Transaction>, lo: int, hi: int) {
    forall d :: lo <= d <= hi ==> Traded(s, d)
  }

  /** Walking back from `hi` towards `lo`, `g` is the first day without a
      transaction. */
  predicate MostRecentGap(s: seq<Transaction>, lo: int, hi: int, g: int) {
    lo <= g <= hi && !Traded(s, g) && AllTradedBetween(s, g + 1, hi)
  }

  /** A walk back from `hi` stops at one day only. */
  lemma MostRecentGapUnique(s: seq<Transaction>, lo: int, hi: int, g: int, h: int)
    requires MostRecentGap(s, lo, hi, g) && MostRecentGap(s, lo, hi, h)
    ensures g == h
  {
  }

  /** The reverse relation `coin.transactions`: the records of one coin, in store order. */
  function OfCoin(store: seq<Transaction>, coin: nat): (r: seq<Transaction>)
    ensures forall t :: t in r <==> t in store && t.coin == coin
    ensures forall t :: multiset(r)[t] == if t.coin == coin then multiset(store)[t] else 0
    ensures |r| <= |store|
  {
    if store == [] then []
    else
      assert store == [store[0]] + store[1..];
      (if store[0].coin == coin then [store[0]] else []) + OfCoin(store[1..], coin)
  }

  /** `filter(date__date=d)`: the records whose calendar date is `d`, whatever
      their time of day, in store order. What it keeps is stated by
      `OnDayKeepsThatDay`, apart from it, so that the many proofs mentioning
      a day's records do not pay for it. */
  function OnDay(s: seq<Transaction>, d: int): seq<Transaction> {
    if s == [] then []
    else (if s[0].day == d then [s[0]] else []) + OnDay(s[1..], d)
  }

  /** The records of day `d` are exactly those of `s` dated `d`; there are
      none exactly when no record of `s` falls on `d`. */
  lemma {:induction false} OnDayKeepsThatDay(s: seq<Transaction>, d: int)
    ensures forall t :: t in OnDay(s, d) <==> t in s && t.day == d
    ensures |OnDay(s, d)| == 0 <==> !Traded(s, d)
  {
    if s != [] {
      OnDayKeepsThatDay(s[1..], d);
      assert s == [s[0]] + s[1..];
    }
  }

  /** The filter keeps every copy of a record of day `d`: equal rows count
      as many times in the day's records as in `s`, and rows of other days
      not at all. */
  lemma {:induction false} OnDayKeepsEveryCopy(s: seq<Transaction>, d: int)
    ensures forall t :: multiset(OnDay(s, d))[t] == if t.day == d then multiset(s)[t] else 0
  {
    if s != [] {
      OnDayKeepsEveryCopy(s[1..], d);
      assert s == [s[0]] + s[1..];
    }
  }

  /** The numeric field an aggregate runs over; `PriceTimesAmount` is the
      annotated `total_price` (unrounded). */
  datatype Field = Price | Amount | PriceTimesAmount

  function Measure(t: Transaction, f: Field): real {
    match f
    case Price => t.price
    case Amount => t.amount
    case PriceTimesAmount => t.price * t.amount
  }

  /** The sum of a field over some records (0 for none). */
  function Total(s: seq<Transaction>, f: Field): real {
    if s == [] then 0.0 else Measure(s[0], f) + Total(s[1..], f)
  }

  /** `filter(date__date=d).count()`: how many records fall on day `d`. */
  function DayCount(s: seq<Transaction>, d: int): nat {
    if s == [] then 0 else (if s[0].day == d then 1 else 0) + DayCount(s[1..], d)
  }

  /** `filter(date__date=d).aggregate(Sum(f))` before the empty case is told
      apart: the sum of field `f` over the records of day `d`. */
  function DayTotal(s: seq<Transaction>, d: int, f: Field): real {
    if s == [] then 0.0
    else (if s[0].day == d then Measure(s[0], f) else 0.0) + DayTotal(s[1..], d, f)
  }

  /** The day's count and sum are the size and the sum of the day's records. */
  lemma {:induction false} DayAggregatesOverOnDay(s: seq<Transaction>, d: int, f: Field)
    ensures DayCount(s, d) == |OnDay(s, d)|
    ensures DayTotal(s, d, f) == Total(OnDay(s, d), f)
  {
    if s != [] {
      DayAggregatesOverOnDay(s[1..], d, f);
      var head := if s[0].day == d then [s[0]] else [];
      TotalAppend(head, OnDay(s[1..], d), f);
    }
  }

  /** Summing over two batches is summing over each. */
  lemma {:induction false} TotalAppend(a: seq<Transaction>, b: seq<Transaction>, f: Field)
    ensures Total(a + b, f) == Total(a, f) + Total(b, f)
  {
    if a == [] {
      assert a + b == b;
    } else {
      assert (a + b)[1..] == a[1..] + b;
      TotalAppend(a[1..], b, f);
    }
  }

  /** A day's count and sum over two batches of records are those of each
      batch added together. */
  lemma {:induction false} DayAggregatesAppend(a: seq<Transaction>, b: seq<Transaction>, d: int, f: Field)
    ensures DayCount(a + b, d) == DayCount(a, d) + DayCount(b, d)
    ensures DayTotal(a + b, d, f) == DayTotal(a, d, f) + DayTotal(b, d, f)
  {
    if a == [] {
      assert a + b == b;
    } else {
      assert (a + b)[1..] == a[1..] + b;
      DayAggregatesAppend(a[1..], b, d, f);
    }
  }

  /** One record in front of a day's sums at price `p`: if it is of day `d`
      it is priced `p`, so the money sum stays `p` times the amount sum. */
  lemma OneMoreAtPrice(t: Transaction, d: int, p: real, money: real, amount: real)
    requires t.day == d ==> t.price == p
    requires money == p * amount
    ensures (if t.day == d then Measure(t, PriceTimesAmount) else 0.0) + money ==
            p * ((if t.day == d then Measure(t, Amount) else 0.0) + amount)
  {
    if t.day == d {
      assert p * (t.amount + amount) == p * t.amount + p * amount;
    }
  }

  /** When every record of day `d` has price `p`, the day's summed
      `price * amount` is `p` times its summed amount. */
  lemma {:induction false} DayTotalAtOnePrice(s: seq<Transaction>, d: int, p: real)
    requires forall i :: 0 <= i < |s| && s[i].day == d ==> s[i].price == p
    ensures DayTotal(s, d, PriceTimesAmount) == p * DayTotal(s, d, Amount)
  {
    if s != [] {
      assert forall i :: 0 <= i < |s[1..]| ==> s[1..][i] == s[i + 1];
      DayTotalAtOnePrice(s[1..], d, p);
      OneMoreAtPrice(s[0], d, p, DayTotal(s[1..], d, PriceTimesAmount), DayTotal(s[1..], d, Amount));
    }
  }

  /** Two record sequences that list the same trades, each possibly at
      another time of the same day. */
  predicate SameTradesSameDays(a: seq<Transaction>, b: seq<Transaction>) {
    && |a| == |b|
    && forall i :: 0 <= i < |a| ==>
         a[i].price == b[i].price && a[i].amount == b[i].amount && a[i].day == b[i].day
  }

  /** The time of day plays no part in a day's count and sum. */
  lemma {:induction false} DayAggregatesIgnoreTime(a: seq<Transaction>, b: seq<Transaction>, d: int, f: Field)
    requires SameTradesSameDays(a, b)
    ensures DayCount(a, d) == DayCount(b, d)
    ensures DayTotal(a, d, f) == DayTotal(b, d, f)
  {
    if a != [] {
      assert SameTradesSameDays(a[1..], b[1..]) by {
        forall i | 0 <= i < |a[1..]|
          ensures a[1..][i].price == b[1..][i].price && a[1..][i].amount == b[1..][i].amount
                  && a[1..][i].day == b[1..][i].day
        {
          assert a[1..][i] == a[i + 1] && b[1..][i] == b[i + 1];
        }
      }
      DayAggregatesIgnoreTime(a[1..], b[1..], d, f);
      assert a[0].price == b[0].price && a[0].amount == b[0].amount && a[0].day == b[0].day;
    }
  }

  /** `x * (n + 1) == x * n + x`, kept apart so the sums below stay linear. */
  lemma MulSucc(x: real, n: real)
    ensures x * (n + 1.0) == x * n + x
  {
  }

  /** A sum of values all at least `lo` is at least `lo*n`. */
  lemma {:induction false} TotalAtLeast(s: seq<Transaction>, f: Field, lo: real)
    requires forall i :: 0 <= i < |s| ==> lo <= Measure(s[i], f)
    ensures lo * |s| as real <= Total(s, f)
  {
    if s != [] {
      TotalAtLeast(s[1..], f, lo);
      MulSucc(lo, |s[1..]| as real);
    }
  }

  /** A sum of values all at most `hi` is at most `hi*n`. */
  lemma {:induction false} TotalAtMost(s: seq<Transaction>, f: Field, hi: real)
    requires forall i :: 0 <= i < |s| ==> Measure(s[i], f) <= hi
    ensures Total(s, f) <= hi * |s| as real
  {
    if s != [] {
      TotalAtMost(s[1..], f, hi);
      MulSucc(hi, |s[1..]| as real);
    }
  }

  /** The position of a record with the smallest value of `f`. */
  function Cheapest(s: seq<Transaction>, f: Field): (i: nat)
    requires s != []
    ensures i < |s| && forall j :: 0 <= j < |s| ==> Measure(s[i], f) <= Measure(s[j], f)
  {
    if |s| == 1 then 0
    else
      var k := Cheapest(s[1..], f) + 1;
      assert forall j :: 1 <= j < |s| ==> s[j] == s[1..][j - 1];
      if Measure(s[0], f) <= Measure(s[k], f) then 0 else k
  }

  /** The position of a record with the largest value of `f`. */
  function Dearest(s: seq<Transaction>, f: Field): (i: nat)
    requires s != []
    ensures i < |s| && forall j :: 0 <= j < |s| ==> Measure(s[j], f) <= Measure(s[i], f)
  {
    if |s| == 1 then 0
    else
      var k := Dearest(s[1..], f) + 1;
      assert forall j :: 1 <= j < |s| ==> s[j] == s[1..][j - 1];
      if Measure(s[k], f) <= Measure(s[0], f) then 0 else k
  }

  /** A lower bound of `n` values is at most their mean. */
  lemma AtMostMean(lo: real, total: real, n: real)
    requires n > 0.0 && lo * n <= total
    ensures lo <= total / n
  {
  }

  /** An upper bound of `n` values is at least their mean. */
  lemma AtLeastMean(hi: real, total: real, n: real)
    requires n > 0.0 && total <= hi * n
    ensures total / n <= hi
  {
  }

  /** Some record's value is at most the mean of a field over nonempty records. */
  lemma MeanReachedFromBelow(s: seq<Transaction>, f: Field)
    requires s != []
    ensures exists i :: 0 <= i < |s| && Measure(s[i], f) <= Total(s, f) / |s| as real
  {
    var i := Cheapest(s, f);
    TotalAtLeast(s, f, Measure(s[i], f));
    AtMostMean(Measure(s[i], f), Total(s, f), |s| as real);
  }

  /** Some record's value is at least the mean of a field over nonempty records. */
  lemma MeanReachedFromAbove(s: seq<Transaction>, f: Field)
    requires s != []
    ensures exists i :: 0 <= i < |s| && Total(s, f) / |s| as real <= Measure(s[i], f)
  {
    var i := Dearest(s, f);
    TotalAtMost(s, f, Measure(s[i], f));
    AtLeastMean(Measure(s[i], f), Total(s, f), |s| as real);
  }

  /** `s[i]` has the greatest timestamp in `s`. */
  predicate Newest(s: seq<Transaction>, i: int) {
    0 <= i < |s| && forall j :: 0 <= j < |s| ==> s[j].Stamp() <= s[i].Stamp()
  }

  /** `order_by('-date').first()`: the position of a newest record (the
      earliest such position when several share the greatest timestamp). */
  function Latest(s: seq<Transaction>): (i: nat)
    requires |s| > 0
    ensures Newest(s, i)
  {
    if |s| == 1 then 0
    else
      var j := 1 + Latest(s[1..]);
      if s[0].Stamp() >= s[j].Stamp() then 0 else j
  }

  /** `order_by('-date').first().date.date()`: the calendar date of the newest
      record, or `NoTransactions` when there is none. It is the latest day
      that has a record. */
  function LastDay(s: seq<Transaction>): (r: Result<int, Failure>)
    ensures r.Err? <==> |s| == 0
    ensures r.Err? ==> r.error == NoTransactions
    ensures r.Ok? ==> exists i :: Newest(s, i) && s[i].day == r.value
    ensures r.Ok? ==> Traded(s, r.value)
    ensures r.Ok? ==> forall t :: t in s ==> t.day <= r.value
  {
    if |s| == 0 then Err(NoTransactions)
    else
      var i := Latest(s);
      assert forall t :: t in s ==> t.day <= s[i].day by {
        forall t | t in s ensures t.day <= s[i].day {
          var j :| 0 <= j < |s| && s[j] == t;
          if t.day > s[i].day {
            LaterDayLaterStamp(s[i], t);
          }
        }
      }
      Ok(s[i].day)
  }

  /** `Transaction.get_last_day` reads the whole store: it fails exactly when
      the store is empty, no coin's last day is after it, and it is the last
      day of some coin. */
  lemma StoreLastDayOverCoins(store: seq<Transaction>)
    ensures LastDay(store).Ok? <==> exists t :: t in store
    ensures forall c :: LastDay(OfCoin(store, c)).Ok? ==>
              LastDay(store).Ok? && LastDay(OfCoin(store, c)).value <= LastDay(store).value
    ensures LastDay(store).Ok? ==>
              exists c :: LastDay(OfCoin(store, c)) == LastDay(store)
  {
    forall c | LastDay(OfCoin(store, c)).Ok?
      ensures LastDay(store).Ok? && LastDay(OfCoin(store, c)).value <= LastDay(store).value
    {
      var mine := OfCoin(store, c);
      var t :| t in mine && t.day == LastDay(mine).value;
    }
    if |store| > 0 {
      var t := store[Latest(store)];
      var mine := OfCoin(store, t.coin);
      assert t in mine;
      assert LastDay(mine).value == LastDay(store).value;
    }
  }

  /** Newest first: timestamps never increase along `s`. */
  predicate NewestFirst(s: seq<Transaction>) {
    forall i, j :: 0 <= i < j < |s| ==> s[j].Stamp() <= s[i].Stamp()
  }

  /** Places `t` in a newest-first sequence, before the records not newer than it. */
  function InsertByStamp(t: Transaction, s: seq<Transaction>): seq<Transaction> {
    if s == [] || s[0].Stamp() <= t.Stamp() then [t] + s
    else [s[0]] + InsertByStamp(t, s[1..])
  }

  /** Inserting adds exactly one copy of `t` and loses nothing. */
  lemma {:induction false} InsertByStampAddsOne(t: Transaction, s: seq<Transaction>)
    ensures multiset(InsertByStamp(t, s)) == multiset(s) + multiset{t}
  {
    if s != [] && s[0].Stamp() > t.Stamp() {
      assert s == [s[0]] + s[1..];
      InsertByStampAddsOne(t, s[1..]);
    }
  }

  /** Inserting into a newest-first sequence keeps it newest first, and
      leaves either `t` or the old head in front. */
  lemma {:induction false} InsertByStampKeepsOrder(t: Transaction, s: seq<Transaction>)
    requires NewestFirst(s)
    ensures NewestFirst(InsertByStamp(t, s))
    ensures InsertByStamp(t, s) != [] &&
            (InsertByStamp(t, s)[0] == t || (s != [] && InsertByStamp(t, s)[0] == s[0]))
  {
    if s != [] && s[0].Stamp() > t.Stamp() {
      assert NewestFirst(s[1..]) by {
        assert forall i :: 0 <= i < |s[1..]| ==> s[1..][i] == s[i + 1];
      }
      InsertByStampKeepsOrder(t, s[1..]);
      ConsNewestFirst(s[0], InsertByStamp(t, s[1..]));
    } else {
      ConsNewestFirst(t, s);
    }
  }

  /** A record not older than the head of a newest-first sequence can go in
      front of it. */
  lemma ConsNewestFirst(x: Transaction, r: seq<Transaction>)
    requires NewestFirst(r) && (r == [] || r[0].Stamp() <= x.Stamp())
    ensures NewestFirst([x] + r)
  {
    forall i, j | 0 <= i < j < |[x] + r|
      ensures ([x] + r)[j].Stamp() <= ([x] + r)[i].Stamp()
    {
      if i > 0 {
        assert ([x] + r)[i] == r[i - 1] && ([x] + r)[j] == r[j - 1];
      } else {
        assert ([x] + r)[j] == r[j - 1];
      }
    }
  }

  /** `order_by('-date')`: the records sorted newest first. */
  function SortNewestFirst(s: seq<Transaction>): (r: seq<Transaction>)
    ensures NewestFirst(r)
    ensures multiset(r) == multiset(s)
    ensures |r| == |s|
  {
    if s == [] then []
    else
      assert s == [s[0]] + s[1..];
      var rest := SortNewestFirst(s[1..]);
      InsertByStampKeepsOrder(s[0], rest);
      InsertByStampAddsOne(s[0], rest);
      InsertByStamp(s[0], rest)
  }
}

# Coin analytics of trading_web, modelled in Dafny

The trading site keeps `Transaction` records: a buy or sell of some amount
of one `Coin`, at a price, at a date and time. Each `Coin` reads its own
records (`coin.transactions`) and derives the figures the site shows:
- the last trading day and that day's price;
- the prices of the last five days;
- the mean price of a seven-day week, and the week-over-week percentage change;
- the day-over-day percentage change;
- the seven most recent records;
- the day's trading volume (summed amounts) and money volume (summed `price * amount`).

`Transaction` can also name the last trading day over the whole store, and
round its own total price to cents.

The model is split into four modules:
- `Wrappers`: `Option` and `Result`.
- `Numbers`: Python's `round(x, 2)` (half to even), `int(x)` (truncation toward zero) and the percentage change.
- `Transactions`: the records, their timestamps, and the queries over a sequence of records. These are filtering by coin and by calendar date, per-day counts and sums, the newest record, and ordering by timestamp.
- `Coins`: the analytics of one coin, each a function of the coin's records.

A fifth module, `Scenarios`, works small fixed cases through the model.

How the Python code is represented:
- **Failures.** Where the Python code raises, the model returns `Err`:
  - `NoTransactions`: `.first()` found no record, so `.date` fails.
  - `NoPriceOn(d)`: the average of an empty day is `None`, so arithmetic or `round` on it fails. The model names the day.
  - `DivisionByZero`: the baseline price of a percentage is zero.
- **Loops.** The two methods that loop (`get_last_five_days_data`, `get_performance_of_week`) are methods with loops. They are proved equal to recursive specification functions, and the properties are proved about those functions.
- **Timestamps.** A timestamp is `day * 86_400_000_000 + time`, where `time` is microseconds after midnight, the resolution `DateTimeField` keeps. The calendar date of a timestamp (`.date()` and the `__date` lookup alike) is its `day`.

Three behaviours of the code worth stating plainly:
- `get_lasts_transactions` returns up to seven records: a coin with fewer records gets all of them.
- A week or day with no trades fails with `NoPriceOn`, because arithmetic on the `None` average raises. Only a zero mean price gives `DivisionByZero`.
- A missing day among the last five fails the whole call, because `round(None, 2)` raises. No partial list is returned.

## Model

| member | source | states |
|---|---|---|
| Transactions.Transaction.TotalPrice | coins/models.py:121-122 | the total price is within half a cent of `price * amount` and is a whole number of cents |
| Transactions.StampSplits | coins/models.py:111 | the date of a timestamp is its day and the time of day is the remainder |
| Transactions.LaterDayLaterStamp | coins/models.py:111 | a record on a later day has a later timestamp, so ordering by `date` orders by day first |
| Transactions.OfCoin | coins/models.py:108 | a coin's records are exactly the store's records of that coin, each equal row as many times as in the store |
| Transactions.OnDayKeepsThatDay | coins/models.py:46 | `filter(date__date=d)` keeps exactly the records of day `d`, and is empty exactly when no record falls on `d` |
| Transactions.OnDayKeepsEveryCopy | coins/models.py:46 | `filter(date__date=d)` keeps every copy of a record of day `d` as many times as it occurs, and no record of another day |
| Transactions.DayAggregatesOverOnDay | coins/models.py:46 | the day's count and field sum are the size and sum of the filtered records |
| Transactions.DayAggregatesAppend | coins/models.py:86 | a day's count and sums over two batches of records are the batches' counts and sums added |
| Transactions.DayTotalAtOnePrice | coins/models.py:92-95 | when all of a day's records have price `p`, the summed `price * amount` is `p` times the summed amount |
| Transactions.DayAggregatesIgnoreTime | coins/models.py:46 | the time of day plays no part in a day's count and sums |
| Transactions.MeanReachedFromBelow | coins/models.py:46 | some record's value is at most the mean of the records |
| Transactions.MeanReachedFromAbove | coins/models.py:46 | some record's value is at least the mean of the records |
| Transactions.MostRecentGapUnique | coins/models.py:50-53 | walking back from a day, only one day is the first without a trade |
| Transactions.Latest | coins/models.py:118-119 | `order_by('-date').first()` picks a record whose timestamp no other record exceeds |
| Transactions.LastDay | coins/models.py:117-119 | fails with `NoTransactions` exactly when there are no records; otherwise the day of a newest record, on which some record falls, and no record is on a later day |
| Transactions.StoreLastDayOverCoins | coins/models.py:117-119 | the store's last day exists iff the store has records, is no earlier than any coin's last day, and is some coin's last day |
| Transactions.InsertByStampAddsOne | coins/models.py:77 | inserting a record adds exactly one copy of it and loses nothing |
| Transactions.InsertByStampKeepsOrder | coins/models.py:77 | inserting into a newest-first sequence keeps it newest first, with the record or the old head in front |
| Transactions.SortNewestFirst | coins/models.py:77 | `order_by('-date')` yields a newest-first permutation of the records |
| Numbers.RoundHalfEven | coins/models.py:122 | the result is the nearest integer, and a tie goes to the even one |
| Numbers.NearestEvenUnique | coins/models.py:122 | half-to-even rounding has only one answer |
| Numbers.Round2 | coins/models.py:122 | `round(x, 2)` is within half a cent of `x` and keeps its sign |
| Numbers.Round2InCents | coins/models.py:122 | `round(x, 2)` is a whole number of cents |
| Numbers.Round2Idempotent | coins/models.py:122 | rounding a value already in cents changes nothing, so rounding twice is rounding once |
| Numbers.Trunc | coins/models.py:90 | `int(x)` drops the fractional part toward zero and keeps the sign |
| Numbers.Change | coins/models.py:72 | the percentage `r` satisfies `cur == prev + prev * r / 100`; for a positive base, `r` is positive or zero exactly when the price rose or stayed the same |
| Coins.PriceOn | coins/models.py:45-46 | a day's price is absent exactly when no record falls on that day |
| Coins.PriceOnIsMean | coins/models.py:45-46 | a day's price is the sum of its records' prices over their number, lying between the cheapest and the dearest of them |
| Coins.DayPriceWithin | coins/models.py:45-46 | bounds on a day's record prices bound the day's price |
| Coins.LastDayHasData | coins/models.py:42-46 | the last day always has a price and both volumes |
| Coins.LastDayPrice | coins/models.py:56-58 | fails with `NoTransactions` exactly when there are no records; otherwise it is the last day's price rounded to cents |
| Coins.RecentPricesDefinedIff | coins/models.py:50-53 | the walk back succeeds iff each of its days has a trade, and then lists those days' rounded prices newest first; otherwise it names the most recent day without a trade |
| Coins.LastFiveDaysData | coins/models.py:48-54 | `NoTransactions` iff there are no records; with records, any failure is `NoPriceOn`; five prices iff the last day and the four before it all traded; otherwise `NoPriceOn` of the most recent of those days without a trade |
| Coins.LastFiveDaysEntries | coins/models.py:50-53 | the five prices are, in order, the rounded prices of the last day and of each of the four days before it |
| Coins.LastFiveDaysStartWithLastDayPrice | coins/models.py:48-58 | the first of the five prices is the last day's price |
| Coins.LastFiveDaysStopAt | coins/models.py:50-53 | a day without a trade, with all later days traded, is where the walk fails |
| Coins.LastFiveDaysComplete | coins/models.py:48-54 | five traded days and their rounded prices are the whole result |
| Coins.GetLastFiveDaysData | coins/models.py:48-54 | the loop returns exactly `LastFiveDaysData` |
| Coins.WindowTotalDefinedIff | coins/models.py:62-64 | the sum of daily prices over a window exists iff every day of the window traded; otherwise it names the most recent day without a trade |
| Coins.WindowSplit | coins/models.py:68-71 | a window of `m + n` days is the window of `m` days followed by the window of `n` days ending `m` days earlier |
| Coins.WindowTotalWithin | coins/models.py:62-64 | record prices within `[lo, hi]` keep the sum over `n` days within `[lo*n, hi*n]` |
| Coins.WeekPerformance | coins/models.py:60-66 | the week's mean exists iff all seven days ending at `e` traded, and the day returned is `e - 7`; otherwise `NoPriceOn` of the most recent untraded day |
| Coins.WeekMeanWithin | coins/models.py:60-66 | the week's mean lies within the range of the week's record prices |
| Coins.GetPerformanceOfWeek | coins/models.py:60-66 | the loop returns exactly `WeekPerformance` |
| Coins.Performance | coins/models.py:68-72 | `NoTransactions` iff there are no records; it succeeds or divides by zero iff the 14 days up to the last day traded; `DivisionByZero` iff the earlier week's mean is 0; otherwise the change from the earlier week's mean to the later one, rounded |
| Coins.DayPerformance | coins/models.py:79-83 | `NoTransactions` iff there are no records; `NoPriceOn` iff the day before the last has no trade; `DivisionByZero` iff its price is 0; otherwise the rounded change between the two days' prices |
| Coins.DayPerformanceSign | coins/models.py:79-83 | with a positive price the day before, the day's performance has the sign of the price move |
| Coins.TakeNewest | coins/models.py:77 | a prefix of a newest-first sequence is newest first, is taken from it, and nothing left out is newer than anything kept |
| Coins.LastTransactions | coins/models.py:74-77 | empty for no records; otherwise `min(7, count)` of the coin's records, newest first, with no omitted record newer than a returned one |
| Coins.TradingVolumeOn | coins/models.py:85-86 | the day's summed amount is absent exactly when the day has no record |
| Coins.MoneyVolumeOn | coins/models.py:92-95 | the day's summed `price * amount` is absent exactly when the day has no record |
| Coins.TradingVolumeOfLastDay | coins/models.py:88-90 | fails with `NoTransactions` exactly when there are no records; otherwise the last day's trading volume truncated toward zero |
| Coins.MoneyVolumeOfLastDay | coins/models.py:97-99 | fails with `NoTransactions` exactly when there are no records; otherwise the last day's money volume truncated toward zero |
| Coins.VolumesAtOnePrice | coins/models.py:85-95 | when all of a day's trades are at price `p`, the day's price is `p` and the money volume is `p` times the trading volume |
| Coins.VolumesAddUp | coins/models.py:85-95 | the volumes of two batches of records add up; a batch without trades that day leaves them unchanged |
| Coins.TimeOfDayIgnored | coins/models.py:45-95 | moving records to other times of the same day changes no day's price or volumes |
| Scenarios.MeanOfThreeTrades | coins/models.py:45-46 | trades at 10, 20 and 30 on one day give a price of 20 |
| Scenarios.DayOverDayGain | coins/models.py:79-83 | a price of 100 followed by 110 the next day is a 10.0 percent gain |
| Scenarios.LastDayVolumes | coins/models.py:85-99 | amounts 1.5 and 2.5 at prices 2 and 3 give a trading volume of 4 and a money volume of 10 |
| Scenarios.NoRecords | coins/models.py:42-99 | a coin without records has no last transactions, and every figure that needs the last day fails with `NoTransactions` |

## Left out

- The `Card` model and every `__str__`: no analytics logic.
- The `Coin` fields `name`, `code`, `description` and `image`: stored text and files.
- The ORM itself: the database, queries, and the `related_name` plumbing. A coin's records are a sequence; `OfCoin` gives the store-to-coin relation.
- Floating point: prices, amounts, means and sums are exact reals. IEEE rounding errors are not modelled, so `round` rounds the exact value half to even. Python rounds the binary float, which can differ on values such as 2.675.
- The order of equal timestamps: the database returns ties in an unspecified order, while the model keeps the earliest position. `LastDay` is the same for any tie. `LastTransactions` may order tied records differently from the database.
- LastDay, LastDayHasData: assume one calendar for `.date()` and for the `__date` lookup, that is `USE_TZ` off or `TIME_ZONE` set to UTC. With a time zone other than UTC, `.date()` of an aware datetime gives the UTC date while `__date` filters by the local date. A record near midnight can then fall on different days for the two, and the last day can have no price, so `get_last_day_price` and the last-day volumes would raise.
- The range of `datetime.date`: stepping back before year 1 raises `OverflowError` in Python. Days here are unbounded integers.
- Django's `Sum` and `Avg` result types: the aggregates are exact sums and means.
- Concurrency and records written while a figure is computed: each call reads one fixed sequence.

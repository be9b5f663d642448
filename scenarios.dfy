/** Worked cases of the coin analytics on small, fixed sets of records. */
module Scenarios {
  import opened Wrappers
  import opened Numbers
  import opened Transactions
  import opened Coins

  /** A record of coin 1 at midnight of day `day`. */
  function Trade(price: real, amount: real, day: int): Transaction {
    Transaction(1, price, amount, day, 0, Buy)
  }

  /** Trades priced 10, 20 and 30 on one day average to 20. */
  lemma MeanOfThreeTrades()
    ensures PriceOn([Trade(10.0, 1.0, 0), Trade(20.0, 1.0, 0), Trade(30.0, 1.0, 0)], 0) == Some(20.0)
  {
    var s := [Trade(10.0, 1.0, 0), Trade(20.0, 1.0, 0), Trade(30.0, 1.0, 0)];
    assert s[1..] == [Trade(20.0, 1.0, 0), Trade(30.0, 1.0, 0)];
    assert s[1..][1..] == [Trade(30.0, 1.0, 0)];
    assert s[1..][1..][1..] == [];
  }

  /** A price going from 100 one day to 110 the next is a 10 percent gain. */
  lemma DayOverDayGain()
    ensures DayPerformance([Trade(100.0, 1.0, 0), Trade(110.0, 1.0, 1)]) == Ok(10.0)
  {
    var s := [Trade(100.0, 1.0, 0), Trade(110.0, 1.0, 1)];
    assert s[1..] == [Trade(110.0, 1.0, 1)];
    assert s[1..][1..] == [];
    assert LastDay(s) == Ok(1) by {
      assert Newest(s, Latest(s));
    }
    assert PriceOn(s, 1) == Some(110.0);
    assert PriceOn(s, 0) == Some(100.0);
    assert Change(110.0, 100.0) == 10.0;
    assert RoundHalfEven(1000.0) == 1000;
  }

  /** Amounts 1.5 and 2.5 at prices 2 and 3 on the last day: a trading
      volume of 4 and a money volume of 1.5*2 + 2.5*3 = 10.5, cut to 10. */
  lemma LastDayVolumes()
    ensures TradingVolumeOfLastDay([Trade(2.0, 1.5, 0), Trade(3.0, 2.5, 0)]) == Ok(4)
    ensures MoneyVolumeOfLastDay([Trade(2.0, 1.5, 0), Trade(3.0, 2.5, 0)]) == Ok(10)
  {
    var s := [Trade(2.0, 1.5, 0), Trade(3.0, 2.5, 0)];
    assert s[1..] == [Trade(3.0, 2.5, 0)];
    assert s[1..][1..] == [];
    assert LastDay(s) == Ok(0) by {
      assert Newest(s, Latest(s));
    }
    assert TradingVolumeOn(s, 0) == Some(4.0);
    assert MoneyVolumeOn(s, 0) == Some(10.5);
  }

  /** A coin without records has no last transactions and fails every
      figure that needs its last day. */
  lemma NoRecords()
    ensures LastTransactions([]) == []
    ensures LastDayPrice([]) == Err(NoTransactions)
    ensures LastFiveDaysData([]) == Err(NoTransactions)
    ensures Performance([]) == Err(NoTransactions)
    ensures DayPerformance([]) == Err(NoTransactions)
    ensures TradingVolumeOfLastDay([]) == Err(NoTransactions)
    ensures MoneyVolumeOfLastDay([]) == Err(NoTransactions)
  {
  }
}

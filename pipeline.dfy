/**
 The body of `main` in src/main.rs once the daily series has been fetched:
 select the closes of the most recent `series_size` days (most recent first),
 then feed them one by one to a fresh `SmaCalculator`, asking for the average
 after each insertion. What `main` prints for each price is returned here as
 the sequence of answers.
 */
module Pipeline {
  import opened SmaWindow
  import opened Selection
  import opened DateOrder

  /** The constants `main` runs with. */
  const MainWindowSize: nat := 5
  const MainSeriesSize: nat := 30

  /** Lines 54-62 of `main`: one calculator, and for each price in order one
      `add_price` followed by one average query. */
  method FeedCalculator(prices: seq<real>, windowSize: nat) returns (averages: seq<Option<real>>)
    ensures averages == Trace(windowSize, prices)
  {
    var calculator := new SmaCalculator(windowSize);
    averages := [];
    for i := 0 to |prices|
      invariant calculator.Valid()
      invariant calculator.history == prices[..i]
      invariant averages == Trace(windowSize, prices[..i])
    {
      calculator.AddPrice(prices[i]);
      var sma := calculator.SimpleMovingAverage();
      assert prices[..i + 1][..i] == prices[..i];
      averages := averages + [sma];
    }
    assert prices[..|prices|] == prices;
  }

  /** The success branch of `main`, for any window and series size: the answers
      are those of the calculator fed with the closes of the `seriesSize` most
      recent days, most recent first. */
  method SmaOfRecentDays(series: map<string, real>, windowSize: nat, seriesSize: nat)
    returns (dates: seq<string>, averages: seq<Option<real>>)
    ensures IsRecentSelection(series, seriesSize, dates)
    ensures averages == Trace(windowSize, ClosesOf(series, dates))
  {
    var prices;
    dates, prices := SelectPrices(series, seriesSize);
    averages := FeedCalculator(prices, windowSize);
  }

  /** `main` itself, with its window of 5 and its 30 days. */
  method RunMain(series: map<string, real>) returns (dates: seq<string>, averages: seq<Option<real>>)
    ensures IsRecentSelection(series, MainSeriesSize, dates)
    ensures averages == Trace(MainWindowSize, ClosesOf(series, dates))
  {
    dates, averages := SmaOfRecentDays(series, MainWindowSize, MainSeriesSize);
  }

  /** What `main` reports for the i-th selected day. Because the prices go in
      most recent first, an answer exists only from the `windowSize`-th day on,
      and it is the mean of the closes of that day and of the `windowSize - 1`
      days fed before it, which are all MORE RECENT than it. */
  lemma AnswerCoversMoreRecentDays(series: map<string, real>, n: nat, dates: seq<string>, windowSize: nat, i: nat)
    requires IsRecentSelection(series, n, dates)
    requires windowSize > 0 && i < |dates|
    ensures Trace(windowSize, ClosesOf(series, dates))[i] ==
      if i + 1 < windowSize then None
      else Some(Mean(ClosesOf(series, dates)[i + 1 - windowSize..i + 1]))
    ensures forall j :: 0 <= j < i && i < j + windowSize ==> Below(dates[i], dates[j])
  {
    assert forall d :: d in dates ==> d in series;
    TraceAt(windowSize, ClosesOf(series, dates), i);
  }

  /** With `main`'s window of 5 and at least 5 days in the series, the first
      four answers are missing and the fifth is the mean of the five most recent
      closes. */
  lemma MainFirstAnswer(series: map<string, real>, dates: seq<string>)
    requires IsRecentSelection(series, MainSeriesSize, dates)
    requires |series| >= MainWindowSize
    ensures forall i :: 0 <= i < 4 ==> Trace(MainWindowSize, ClosesOf(series, dates))[i] == None
    ensures Trace(MainWindowSize, ClosesOf(series, dates))[4] == Some(Mean(ClosesOf(series, dates)[..5]))
  {
    assert forall d :: d in dates ==> d in series;
    var closes := ClosesOf(series, dates);
    assert |closes| >= 5;
    forall i | 0 <= i < 4
      ensures Trace(MainWindowSize, closes)[i] == None
    {
      TraceAt(MainWindowSize, closes, i);
    }
    TraceAt(MainWindowSize, closes, 4);
    assert closes[0..5] == closes[..5];
  }
}

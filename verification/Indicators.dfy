/** The indicator stage: `calculate_indicators` adds a 50-row simple moving
    average of the closing price to every frame of the batch. */
module Indicators {
  import opened Wrappers
  import opened OrderedDicts
  import opened Frames

  /** The rolling window length of `SMA_50`. */
  const Window: nat := 50

  function Sum(s: seq<real>): real
  {
    if s == [] then 0.0 else Sum(s[..|s| - 1]) + s[|s| - 1]
  }

  function Mean(s: seq<real>): real
    requires |s| > 0
  {
    Sum(s) / (|s| as real)
  }

  /** `close.rolling(window=50).mean()`: with pandas' default `min_periods`
      equal to the window, row `i` has a value only once 50 rows are
      available, and that value is the mean of rows `i-49..i`. */
  function Sma50(c: seq<real>): (r: Column)
    ensures |r| == |c|
  {
    seq(|c|, i requires 0 <= i < |c| =>
      if i < Window - 1 then None else Some(Mean(c[i + 1 - Window..i + 1])))
  }

  lemma {:induction false} SumPrepend(x: real, s: seq<real>)
    ensures Sum([x] + s) == x + Sum(s)
  {
    if s != [] {
      var t := [x] + s;
      assert t[..|t| - 1] == [x] + s[..|s| - 1];
      SumPrepend(x, s[..|s| - 1]);
    }
  }

  lemma {:induction false} SumBounds(s: seq<real>, lo: real, hi: real)
    requires forall k :: 0 <= k < |s| ==> lo <= s[k] <= hi
    ensures (|s| as real) * lo <= Sum(s) <= (|s| as real) * hi
  {
    if s != [] {
      SumBounds(s[..|s| - 1], lo, hi);
    }
  }

  /** Row `i` has a value exactly when at least 50 rows end at it, and the
      value is the mean of the closes of rows `i-49..i`. */
  lemma SmaDefinedness(c: seq<real>, i: nat)
    requires i < |c|
    ensures Sma50(c)[i].Some? <==> i >= Window - 1
    ensures i >= Window - 1 ==> Sma50(c)[i].value == Sum(c[i + 1 - Window..i + 1]) / (Window as real)
  {
  }

  /** A series shorter than the window has no `SMA_50` value on any row. */
  lemma ShortSeriesHasNoSma(c: seq<real>)
    requires |c| < Window
    ensures forall i :: 0 <= i < |c| ==> Sma50(c)[i] == None
  {
  }

  /** Consecutive defined values differ by the entering close minus the
      leaving close, over the window length. */
  lemma SmaSlide(c: seq<real>, i: nat)
    requires Window <= i < |c|
    ensures Sma50(c)[i].value == Sma50(c)[i - 1].value + (c[i] - c[i - Window]) / (Window as real)
  {
    var inner := c[i + 1 - Window..i];
    assert c[i + 1 - Window..i + 1] == inner + [c[i]];
    assert c[i - Window..i] == [c[i - Window]] + inner;
    SumPrepend(c[i - Window], inner);
  }

  /** Every defined value lies between the smallest and the largest close of
      its window; in particular a constant series averages to that constant. */
  lemma SmaWithinWindow(c: seq<real>, i: nat, lo: real, hi: real)
    requires Window - 1 <= i < |c|
    requires forall k :: i + 1 - Window <= k <= i ==> lo <= c[k] <= hi
    ensures lo <= Sma50(c)[i].value <= hi
  {
    var w := c[i + 1 - Window..i + 1];
    SumBounds(w, lo, hi);
  }

  /** The frame carries an `SMA_50` column computed from its own closes. */
  ghost predicate HasSma50(f: Frame)
    reads f
  {
    f.sma50 == Some(Sma50(Closes(f.rows)))
  }

  /** `df['SMA_50'] = df['Close'].rolling(window=50).mean()`: adds the column
      in place and leaves the rows as they were. */
  method AddSma50(df: Frame)
    modifies df
    ensures df.rows == old(df.rows) && HasSma50(df)
  {
    df.sma50 := Some(Sma50(Closes(df.rows)));
  }

  /** `calculate_indicators`: for each ticker in iteration order, assign the
      `SMA_50` column of its frame in place and store the same frame under
      the same ticker in a new dict. */
  method CalculateIndicators(data: Dict<Ticker, Frame>) returns (indicators: Dict<Ticker, Frame>)
    requires data.Valid()
    modifies data.vals.Values
    ensures indicators.Valid()
    ensures indicators.keys == data.keys && indicators.vals == data.vals
    ensures forall t :: t in data.vals ==> data.vals[t].rows == old(data.vals[t].rows)
    ensures forall t :: t in data.vals ==> HasSma50(data.vals[t])
  {
    ghost var rows0 := map t | t in data.vals :: data.vals[t].rows;
    indicators := Empty();
    for i := 0 to |data.keys|
      invariant indicators == Prefix(data, i)
      invariant forall t :: t in data.vals ==> data.vals[t].rows == rows0[t]
      invariant forall t :: t in indicators.vals ==> HasSma50(indicators.vals[t])
    {
      var ticker := data.keys[i];
      var df := data.vals[ticker];
      AddSma50(df);
      PrefixStep(data, i);
      indicators := indicators.Insert(ticker, df);
    }
    PrefixAll(data);
  }
}

/** The ranking stage: `record_top_movers` collects, for every ticker whose
    frame has a row for the given day, that row's `Close - Open`, ranks the
    tickers by it and reports the three largest and the three smallest. */
module RecordMovers {
  import opened Wrappers
  import opened OrderedDicts
  import opened Frames
  import opened Ranking

  /** `df.loc[day]`: the row indexed by `day`, if the index holds it. */
  function RowOn(rows: seq<Row>, day: Day): (r: Option<Row>)
    ensures r.Some? <==> exists i :: 0 <= i < |rows| && rows[i].date == day
    ensures r.Some? ==> r.value in rows && r.value.date == day
  {
    if rows == [] then None
    else if rows[0].date == day then Some(rows[0])
    else
      var r := RowOn(rows[1..], day);
      assert forall i :: 1 <= i < |rows| ==> rows[i] == rows[1..][i - 1];
      r
  }

  /** With one row per day (a frame's index holds each date once) the row
      found is the row of that date. */
  lemma {:induction false} RowOnUnique(rows: seq<Row>, day: Day, i: nat)
    requires forall a, b :: 0 <= a < b < |rows| ==> rows[a].date != rows[b].date
    requires i < |rows| && rows[i].date == day
    ensures RowOn(rows, day) == Some(rows[i])
  {
    if i > 0 {
      RowOnUnique(rows[1..], day, i - 1);
    }
  }

  /** The day's move of one ticker: an absolute price difference. */
  function DayChange(row: Row): real
  {
    row.close - row.open
  }

  /** The `Close` / `Open` columns of each frame, by ticker. */
  function RowsOf(data: Dict<Ticker, Frame>): (series: map<Ticker, seq<Row>>)
    reads data.vals.Values
    ensures series.Keys == data.vals.Keys
  {
    map t | t in data.vals :: data.vals[t].rows
  }

  /** `changes.items()` after `for ticker, df in data.items()` has stored
      `Close - Open` for every ticker with a row on `last_day`. */
  function DailyChanges(keys: seq<Ticker>, series: map<Ticker, seq<Row>>, day: Day): seq<Change>
    requires forall t :: t in keys ==> t in series
  {
    if keys == [] then []
    else
      var n := |keys| - 1;
      var prev := DailyChanges(keys[..n], series, day);
      match RowOn(series[keys[n]], day)
      case None => prev
      case Some(row) => prev + [(keys[n], DayChange(row))]
  }

  /** A ticker is ranked exactly when its frame has a row for the day, and
      it is ranked with that row's `Close - Open`. */
  lemma {:induction false} DailyChangesMember(keys: seq<Ticker>, series: map<Ticker, seq<Row>>, day: Day, e: Change)
    requires forall t :: t in keys ==> t in series
    ensures e in DailyChanges(keys, series, day) <==>
      e.0 in keys && RowOn(series[e.0], day).Some? && e.1 == DayChange(RowOn(series[e.0], day).value)
  {
    if keys != [] {
      var n := |keys| - 1;
      assert keys == keys[..n] + [keys[n]];
      DailyChangesMember(keys[..n], series, day, e);
    }
  }

  /** The ranked entries follow the batch's ticker order. */
  lemma {:induction false} DailyChangesOrder(keys: seq<Ticker>, series: map<Ticker, seq<Row>>, day: Day, i: nat, j: nat)
    requires forall t :: t in keys ==> t in series
    requires i < j < |DailyChanges(keys, series, day)|
    ensures Precedes(keys, DailyChanges(keys, series, day)[i].0, DailyChanges(keys, series, day)[j].0)
  {
    var n := |keys| - 1;
    var prev, changes := DailyChanges(keys[..n], series, day), DailyChanges(keys, series, day);
    assert |prev| <= |changes| && changes[..|prev|] == prev;
    if j < |prev| {
      DailyChangesOrder(keys[..n], series, day, i, j);
      var p, q :| 0 <= p < q < n && keys[..n][p] == prev[i].0 && keys[..n][q] == prev[j].0;
      assert keys[p] == changes[i].0 && keys[q] == changes[j].0;
    } else {
      assert changes[j].0 == keys[n];
      DailyChangesMember(keys[..n], series, day, prev[i]);
      var p :| 0 <= p < n && keys[..n][p] == prev[i].0;
      assert keys[p] == changes[i].0 && keys[n] == changes[j].0;
    }
  }

  /** End to end: two tickers ranked with the same change appear in the
      sorted ranking in the batch's ticker order; no tie-break by name. */
  lemma TiesFollowTickerOrder(keys: seq<Ticker>, series: map<Ticker, seq<Row>>, day: Day, p: nat, q: nat)
    requires forall t :: t in keys ==> t in series
    requires var sorted := SortDesc(DailyChanges(keys, series, day));
      p < q < |sorted| && sorted[p].1 == sorted[q].1
    ensures var sorted := SortDesc(DailyChanges(keys, series, day));
      Precedes(keys, sorted[p].0, sorted[q].0)
  {
    var changes := DailyChanges(keys, series, day);
    var sorted := SortDesc(changes);
    SortDescTiesKeepOrder(changes, p, q);
    var i, j :| 0 <= i < j < |changes| && changes[i] == sorted[p] && changes[j] == sorted[q];
    DailyChangesOrder(keys, series, day, i, j);
  }

  /** When no frame has a row for the day, nothing is ranked and both lists
      are empty. */
  lemma NoRowForDay(keys: seq<Ticker>, series: map<Ticker, seq<Row>>, day: Day)
    requires forall t :: t in keys ==> t in series
    requires forall t :: t in keys ==> RowOn(series[t], day) == None
    ensures DailyChanges(keys, series, day) == []
    ensures Movers(DailyChanges(keys, series, day)) == TopMovers([], [])
  {
    var changes := DailyChanges(keys, series, day);
    if changes != [] {
      DailyChangesMember(keys, series, day, changes[0]);
    }
  }

  /** `record_top_movers(data)`, with `last_day` passed in. The result is the
      gainers and losers lists that the task formats into its table. */
  method RecordTopMovers(data: Dict<Ticker, Frame>, lastDay: Day) returns (table: TopMovers)
    requires data.Valid()
    ensures table == Movers(DailyChanges(data.keys, RowsOf(data), lastDay))
  {
    var changes: Dict<Ticker, real> := Empty();
    for i := 0 to |data.keys|
      invariant changes.Valid()
      invariant forall t :: t in changes.vals ==> t in data.keys[..i]
      invariant changes.Items() == DailyChanges(data.keys[..i], RowsOf(data), lastDay)
    {
      var ticker := data.keys[i];
      var df := data.vals[ticker];
      assert data.keys[..i + 1][..i] == data.keys[..i] && data.keys[..i + 1][i] == ticker;
      if RowOn(df.rows, lastDay).Some? {
        var row := RowOn(df.rows, lastDay).value;
        assert ticker !in changes.vals;
        InsertNewItems(changes, ticker, DayChange(row));
        changes := changes.Insert(ticker, DayChange(row));
      }
    }
    assert data.keys[..|data.keys|] == data.keys;
    var sortedChanges := SortDesc(changes.Items());
    var topGainers := SliceTo(sortedChanges, TopN);
    var topLosers := SliceFrom(sortedChanges, -(TopN as int));
    table := TopMovers(topGainers, topLosers);
  }
}

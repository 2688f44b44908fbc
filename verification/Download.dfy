/** The fetch stage: `download_stock_data` asks the market-data provider for
    each ticker in turn and keeps every frame it gets; a ticker whose fetch
    raises is logged and skipped, and the loop goes on with the next one. */
module Download {
  import opened Wrappers
  import opened OrderedDicts
  import opened Frames

  /** What one provider call does: return a (possibly empty) table of rows,
      or raise. */
  datatype Fetch = Fetched(rows: seq<Row>) | Raised(message: string)

  /** The batch the loop has built after the calls for `tickers`, whose
      outcomes are `responses` (one per call, in call order). */
  function Downloaded(tickers: seq<Ticker>, responses: seq<Fetch>): (d: Dict<Ticker, seq<Row>>)
    requires |responses| == |tickers|
    ensures d.Valid()
  {
    if tickers == [] then Empty()
    else
      var n := |tickers| - 1;
      var d := Downloaded(tickers[..n], responses[..n]);
      match responses[n]
      case Fetched(rows) => d.Insert(tickers[n], rows)
      case Raised(_) => d
  }

  /** `download_stock_data(tickers, start_date, end_date)`. The date range is
      folded into the provider: `responses[i]` is what the call for
      `tickers[i]` produced. Every stored frame is a new object holding the
      provider's rows and no derived column yet. */
  method DownloadStockData(tickers: seq<Ticker>, responses: seq<Fetch>) returns (data: Dict<Ticker, Frame>)
    requires |responses| == |tickers|
    ensures data.Valid()
    ensures data.keys == Downloaded(tickers, responses).keys
    ensures forall t :: t in data.vals ==>
      && fresh(data.vals[t])
      && data.vals[t].rows == Downloaded(tickers, responses).vals[t]
      && data.vals[t].sma50 == None
  {
    data := Empty();
    for i := 0 to |tickers|
      invariant data.Valid()
      invariant data.keys == Downloaded(tickers[..i], responses[..i]).keys
      invariant forall t :: t in data.vals ==>
        && fresh(data.vals[t])
        && data.vals[t].rows == Downloaded(tickers[..i], responses[..i]).vals[t]
        && data.vals[t].sma50 == None
    {
      assert tickers[..i + 1][..i] == tickers[..i];
      assert responses[..i + 1][..i] == responses[..i];
      match responses[i]
      case Fetched(rows) =>
        var df := new Frame(rows);
        data := data.Insert(tickers[i], df);
      case Raised(_) =>
    }
    assert tickers[..|tickers|] == tickers;
    assert responses[..|tickers|] == responses;
  }

  /** A ticker ends up in the batch exactly when at least one of its fetches
      returned without raising; a raising fetch removes nothing else. */
  lemma {:induction false} DownloadedKeys(tickers: seq<Ticker>, responses: seq<Fetch>, t: Ticker)
    requires |responses| == |tickers|
    ensures t in Downloaded(tickers, responses).vals <==>
      exists i :: 0 <= i < |tickers| && tickers[i] == t && responses[i].Fetched?
  {
    if tickers != [] {
      var n := |tickers| - 1;
      DownloadedKeys(tickers[..n], responses[..n], t);
      if exists i :: 0 <= i < |tickers| && tickers[i] == t && responses[i].Fetched? {
        var i :| 0 <= i < |tickers| && tickers[i] == t && responses[i].Fetched?;
        if i < n {
          assert tickers[..n][i] == t && responses[..n][i].Fetched?;
        }
      }
    }
  }

  /** The frame stored under a ticker is the one from its last fetch that
      did not raise. */
  lemma {:induction false} DownloadedValue(tickers: seq<Ticker>, responses: seq<Fetch>, i: nat)
    requires |responses| == |tickers| && i < |tickers| && responses[i].Fetched?
    requires forall j :: i < j < |tickers| && tickers[j] == tickers[i] ==> responses[j].Raised?
    ensures tickers[i] in Downloaded(tickers, responses).vals
    ensures Downloaded(tickers, responses).vals[tickers[i]] == responses[i].rows
  {
    var n := |tickers| - 1;
    if i < n {
      DownloadedValue(tickers[..n], responses[..n], i);
    }
  }

  /** A fetch that returns an empty table without raising is stored like any
      other: no emptiness filter is applied. */
  lemma EmptySeriesKept(tickers: seq<Ticker>, responses: seq<Fetch>, i: nat)
    requires |responses| == |tickers| && i < |tickers| && responses[i] == Fetched([])
    requires Distinct(tickers)
    ensures tickers[i] in Downloaded(tickers, responses).vals
    ensures Downloaded(tickers, responses).vals[tickers[i]] == []
  {
    DownloadedValue(tickers, responses, i);
  }

  /** With distinct tickers the batch keeps the list's order: of two tickers
      that were both fetched, the earlier one in the list comes first. */
  lemma {:induction false} DownloadedOrder(tickers: seq<Ticker>, responses: seq<Fetch>, i: nat, j: nat)
    requires |responses| == |tickers| && Distinct(tickers)
    requires i < j < |tickers| && responses[i].Fetched? && responses[j].Fetched?
    ensures Precedes(Downloaded(tickers, responses).keys, tickers[i], tickers[j])
  {
    var n := |tickers| - 1;
    var prev := Downloaded(tickers[..n], responses[..n]);
    var d := Downloaded(tickers, responses);
    assert |prev.keys| <= |d.keys| && d.keys[..|prev.keys|] == prev.keys by {
      if responses[n].Fetched? {
        assert d == prev.Insert(tickers[n], responses[n].rows);
      }
    }
    if j < n {
      assert Distinct(tickers[..n]);
      assert tickers[..n][i] == tickers[i] && tickers[..n][j] == tickers[j];
      DownloadedOrder(tickers[..n], responses[..n], i, j);
      var p, q :| 0 <= p < q < |prev.keys| && prev.keys[p] == tickers[i] && prev.keys[q] == tickers[j];
      assert d.keys[p] == prev.keys[p] && d.keys[q] == prev.keys[q];
      assert 0 <= p < q < |d.keys| && d.keys[p] == tickers[i] && d.keys[q] == tickers[j];
    } else {
      DownloadedKeys(tickers[..n], responses[..n], tickers[i]);
      assert tickers[..n][i] == tickers[i] && responses[..n][i].Fetched?;
      DownloadedKeys(tickers[..n], responses[..n], tickers[n]);
      assert tickers[n] !in prev.vals;
      var p :| 0 <= p < |prev.keys| && prev.keys[p] == tickers[i];
      assert d.keys == prev.keys + [tickers[n]];
      var q := |prev.keys|;
      assert 0 <= p < q < |d.keys| && d.keys[p] == tickers[i] && d.keys[q] == tickers[j];
    }
  }
}

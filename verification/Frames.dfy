/** The per-ticker price table that the provider returns (a pandas DataFrame
    indexed by trading day) and the columns the workflow adds to it. */
module Frames {
  import opened Wrappers

  /** A stock symbol such as "PETR4.SA". */
  type Ticker = string

  /** A calendar day, as an ordinal; the frame's index holds one per row. */
  type Day = int

  /** One daily OHLC row as the provider delivers it. */
  datatype Row = Row(date: Day, open: real, high: real, low: real, close: real, volume: int)

  /** A derived per-row column: `None` where pandas stores NaN. */
  type Column = seq<Option<real>>

  /** A DataFrame. The rows are what the provider returned; `sma50` is the
      `SMA_50` column, absent (`None`) until the indicator stage adds it. */
  class Frame {
    var rows: seq<Row>
    var sma50: Option<Column>

    /** A freshly downloaded frame carries only the provider's columns. */
    constructor (rows: seq<Row>)
      ensures this.rows == rows && sma50 == None
    {
      this.rows := rows;
      sma50 := None;
    }
  }

  /** The `Close` column. */
  function Closes(rows: seq<Row>): (c: seq<real>)
    ensures |c| == |rows|
    ensures forall i :: 0 <= i < |rows| ==> c[i] == rows[i].close
  {
    seq(|rows|, i requires 0 <= i < |rows| => rows[i].close)
  }
}

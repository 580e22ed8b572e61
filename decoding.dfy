/**
 * The service's paginated result structure and the two ways `AthenaResult`
 * turns it into rows of strings.
 *
 * A cell is the dictionary `{'VarCharValue': v}` or one without that key; a row
 * is the list under the row's `'Data'` key; a page is the list under
 * `page['ResultSet']['Rows']`.
 */
module Decoding {
  import opened Wrappers

  datatype Cell = Cell(varCharValue: Option<string>)
  type Row = seq<Cell>
  type Page = seq<Row>
  /** Decoded rows, each a sequence of cell strings. */
  type Table = seq<seq<string>>

  /** A cell decodes to its value, or to the empty string when it has none. */
  function DecodeCell(c: Cell): (r: string)
    ensures c.varCharValue == Some(r) || (c.varCharValue == None && r == "")
  {
    c.varCharValue.GetOr("")
  }

  /** The row decoded cell by cell. */
  function DecodeRow(row: Row): (r: seq<string>)
    ensures |r| == |row|
    ensures forall k :: 0 <= k < |row| && row[k].varCharValue.Some? ==> r[k] == row[k].varCharValue.value
    ensures forall k :: 0 <= k < |row| && row[k].varCharValue.None? ==> r[k] == ""
  {
    seq(|row|, k requires 0 <= k < |row| => DecodeCell(row[k]))
  }

  /** Every row decoded, in order, each as wide as its source row. */
  function DecodeRows(data: seq<Row>): (r: Table)
    ensures |r| == |data|
    ensures forall i :: 0 <= i < |data| ==> |r[i]| == |data[i]|
    ensures forall i, k :: 0 <= i < |data| && 0 <= k < |data[i]| ==>
              r[i][k] == if data[i][k].varCharValue.Some? then data[i][k].varCharValue.value else ""
  {
    seq(|data|, i requires 0 <= i < |data| => DecodeRow(data[i]))
  }

  /** All pages' rows, in page order and, within a page, in row order; no row lost or added. */
  function Flatten(pages: seq<Page>): (r: seq<Row>)
    ensures |r| == RowCount(pages)
  {
    if |pages| == 0 then [] else pages[0] + Flatten(pages[1..])
  }

  /** Number of rows on all pages together. */
  function RowCount(pages: seq<Page>): nat {
    if |pages| == 0 then 0 else |pages[0]| + RowCount(pages[1..])
  }

  /** What `result()` returns: with no page nothing; otherwise every decoded row but the first. */
  function FetchedRows(pages: seq<Page>): (r: Table)
    ensures |pages| == 0 ==> r == []
    ensures |pages| > 0 ==> |r| == if RowCount(pages) > 0 then RowCount(pages) - 1 else 0
    ensures forall i :: 0 <= i < |r| ==> r[i] == DecodeRow(Flatten(pages)[i + 1])
  {
    if |pages| == 0 then []
    else
      var decoded := DecodeRows(Flatten(pages));
      if |decoded| > 0 then decoded[1..] else decoded
  }

  /** The values of the cells that have one, in order; cells without a value are skipped. */
  function PresentValues(row: Row): (r: seq<string>)
    ensures |r| == PresentCount(row)
  {
    if |row| == 0 then []
    else
      var last := row[|row| - 1];
      PresentValues(row[..|row| - 1]) + (if last.varCharValue.Some? then [last.varCharValue.value] else [])
  }

  /** Number of cells of `row` that carry a value: at most the width, and the width exactly when all do. */
  function PresentCount(row: Row): (n: nat)
    ensures n <= |row|
    ensures n == |row| <==> forall k :: 0 <= k < |row| ==> row[k].varCharValue.Some?
  {
    if |row| == 0 then 0
    else
      var init := row[..|row| - 1];
      assert forall k :: 0 <= k < |init| ==> init[k] == row[k];
      PresentCount(init) + (if row[|row| - 1].varCharValue.Some? then 1 else 0)
  }

  /**
   * The decoding loops of `result()`: for every row, for every cell, append the
   * cell's value or "". Every row keeps its width and every missing value
   * becomes "".
   */
  method DecodeData(data: seq<Row>) returns (finalData: Table)
    ensures |finalData| == |data|
    ensures forall i :: 0 <= i < |data| ==> |finalData[i]| == |data[i]|
    ensures forall i, k :: 0 <= i < |data| && 0 <= k < |data[i]| ==>
              finalData[i][k] == if data[i][k].varCharValue.Some? then data[i][k].varCharValue.value else ""
    ensures finalData == DecodeRows(data)
  {
    finalData := [];
    var i := 0;
    while i < |data|
      invariant 0 <= i <= |data|
      invariant finalData == DecodeRows(data[..i])
    {
      var d := data[i];
      var datum := [];
      var j := 0;
      while j < |d|
        invariant 0 <= j <= |d|
        invariant datum == DecodeRow(d[..j])
      {
        datum := datum + [d[j].varCharValue.GetOr("")];
        j := j + 1;
      }
      assert d[..j] == d;
      finalData := finalData + [datum];
      i := i + 1;
    }
    assert data[..i] == data;
  }

  /** Flattening distributes over concatenation of page lists. */
  lemma {:induction false} FlattenAppend(a: seq<Page>, b: seq<Page>)
    ensures Flatten(a + b) == Flatten(a) + Flatten(b)
  {
    if |a| > 0 {
      assert (a + b)[1..] == a[1..] + b;
      FlattenAppend(a[1..], b);
    } else {
      assert a + b == b;
    }
  }

  /**
   * Row `j` of page `p` sits at position `|Flatten(pages[..p])| + j` of the
   * flattened rows: all rows of earlier pages come first, and a page's rows
   * keep their order.
   */
  lemma FlattenAt(pages: seq<Page>, p: nat, j: nat)
    requires p < |pages| && j < |pages[p]|
    ensures |Flatten(pages[..p])| + j < |Flatten(pages)|
    ensures Flatten(pages)[|Flatten(pages[..p])| + j] == pages[p][j]
  {
    assert pages == pages[..p] + pages[p..];
    FlattenAppend(pages[..p], pages[p..]);
    assert Flatten(pages[p..]) == pages[p] + Flatten(pages[p + 1..]) by {
      assert pages[p..][1..] == pages[p + 1..];
    }
  }

  /**
   * The rows `result()` returns, placed back on their pages: when there is a
   * page, row `j` of page `p` other than the very first row decodes to entry
   * `|Flatten(pages[..p])| + j - 1`, and there are exactly `RowCount - 1` rows
   * (none when there is no row at all).
   */
  lemma FetchedRowsPlacement(pages: seq<Page>, p: nat, j: nat)
    requires p < |pages| && j < |pages[p]|
    requires |Flatten(pages[..p])| + j > 0
    ensures |Flatten(pages[..p])| + j < RowCount(pages)
    ensures |FetchedRows(pages)| == RowCount(pages) - 1
    ensures FetchedRows(pages)[|Flatten(pages[..p])| + j - 1] == DecodeRow(pages[p][j])
  {
    FlattenAt(pages, p, j);
  }

  /** No page, or pages holding no row, give no rows. */
  lemma FetchedRowsEmpty(pages: seq<Page>)
    ensures FetchedRows(pages) == [] <==> RowCount(pages) <= 1
  {
  }

  /** Every value the skipping decoder keeps is the value of some cell of the row. */
  lemma {:induction false} PresentValuesFrom(row: Row)
    ensures forall v :: v in PresentValues(row) ==> exists k :: 0 <= k < |row| && row[k].varCharValue == Some(v)
  {
    if |row| > 0 {
      var init := row[..|row| - 1];
      PresentValuesFrom(init);
      forall v | v in PresentValues(row)
        ensures exists k :: 0 <= k < |row| && row[k].varCharValue == Some(v)
      {
        if v in PresentValues(init) {
          var k :| 0 <= k < |init| && init[k].varCharValue == Some(v);
          assert row[k] == init[k];
        } else {
          assert row[|row| - 1].varCharValue == Some(v);
        }
      }
    }
  }

  /** On a row whose every cell carries a value the two decoders agree. */
  lemma {:induction false} PresentValuesAgree(row: Row)
    requires forall k :: 0 <= k < |row| ==> row[k].varCharValue.Some?
    ensures PresentValues(row) == DecodeRow(row)
  {
    if |row| > 0 {
      var init := row[..|row| - 1];
      PresentValuesAgree(init);
      assert DecodeRow(row) == DecodeRow(init) + [DecodeCell(row[|row| - 1])];
    }
  }
}

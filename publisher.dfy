/** The publishing pipeline of `main`: header row, column names, data rows, the wager
    and pick columns, and one payload per row. */
module Publisher {
  import opened Text
  import opened Cells
  import opened Header
  import opened Dedup
  import opened Rows
  import opened Payload

  /** The position where k first appears in cols. */
  function FirstIndex(cols: seq<string>, k: string): (i: nat)
    requires k in cols
    ensures i < |cols| && cols[i] == k
    ensures forall j :: 0 <= j < i ==> cols[j] != k
  {
    var front := cols[..|cols| - 1];
    if k in front then FirstIndex(front, k) else |cols| - 1
  }

  /** The keys of a dictionary filled in the order cols: each name once, ordered by the
      position where it first appears, as pandas orders the columns of a frame built
      from such records. */
  function Distinct(cols: seq<string>): (ks: seq<string>)
    ensures forall k :: k in ks <==> k in cols
    ensures forall i, j :: 0 <= i < j < |ks| ==> ks[i] != ks[j]
    ensures forall i, j :: 0 <= i < j < |ks| ==> FirstIndex(cols, ks[i]) < FirstIndex(cols, ks[j])
  {
    if cols == [] then []
    else
      var front := cols[..|cols| - 1];
      var ks := Distinct(front);
      var k := cols[|cols| - 1];
      assert forall c :: c in cols <==> c in front || c == k by {
        assert cols == front + [k];
      }
      assert forall c :: c in front ==> FirstIndex(cols, c) == FirstIndex(front, c);
      if k in ks then ks
      else
        assert FirstIndex(cols, k) == |cols| - 1;
        ks + [k]
  }

  /** Assigning one more column: a new name goes last, a repeated one keeps its first
      position. */
  lemma DistinctSnoc(cols: seq<string>, k: string)
    ensures Distinct(cols + [k]) == if k in cols then Distinct(cols) else Distinct(cols) + [k]
  {
    assert (cols + [k])[..|cols|] == cols;
  }

  /** Names that are already distinct are kept as they are, in order. */
  lemma {:induction false} DistinctKeepsDistinct(cols: seq<string>)
    requires forall i, j :: 0 <= i < j < |cols| ==> cols[i] != cols[j]
    ensures Distinct(cols) == cols
  {
    if cols != [] {
      var front := cols[..|cols| - 1];
      DistinctKeepsDistinct(front);
      assert cols[|cols| - 1] !in front;
      assert front + [cols[|cols| - 1]] == cols;
    }
  }

  /** The column names of the data frame built from the rows: none when there is no row,
      otherwise the keys of the row records. */
  function FrameColumns(cols: seq<string>, rowCount: nat): (columns: seq<string>)
    ensures rowCount == 0 ==> columns == []
    ensures rowCount > 0 ==> forall k :: k in columns <==> k in cols
    ensures forall i, j :: 0 <= i < j < |columns| ==> columns[i] != columns[j]
    ensures rowCount > 0 ==>
      forall i, j :: 0 <= i < j < |columns| ==> FirstIndex(cols, columns[i]) < FirstIndex(cols, columns[j])
  {
    if rowCount == 0 then [] else Distinct(cols)
  }

  /** `c.lower().startswith("market")`, character by character: lowering maps one
      character to one, so only the first six matter. */
  predicate IsMarket(c: string) {
    && |c| >= 6
    && LowerChar(c[0]) == 'm' && LowerChar(c[1]) == 'a' && LowerChar(c[2]) == 'r'
    && LowerChar(c[3]) == 'k' && LowerChar(c[4]) == 'e' && LowerChar(c[5]) == 't'
  }

  /** IsMarket is the prefix test on the lowered name. */
  lemma IsMarketLower(c: string)
    ensures IsMarket(c) <==> StartsWith(Lower(c), "market")
  {
    if |c| >= 6 {
      var l := Lower(c);
      assert forall k :: 0 <= k < 6 ==> l[..6][k] == LowerChar(c[k]);
    }
  }

  /** "Market.1" is itself a market column. */
  lemma MarketOneIsMarket()
    ensures IsMarket("Market.1")
  {
  }

  /** `market_cols`: the market columns, in column order. */
  function MarketColumns(columns: seq<string>): (ms: seq<string>)
    ensures forall c :: c in ms <==> c in columns && IsMarket(c)
  {
    if columns == [] then []
    else
      var front, c := columns[..|columns| - 1], columns[|columns| - 1];
      assert forall x :: x in columns <==> x in front || x == c by {
        assert columns == front + [c];
      }
      MarketColumns(front) + (if IsMarket(c) then [c] else [])
  }

  /** The position of the last market column, or -1 when there is none. */
  function LastMarketIndex(columns: seq<string>): (i: int)
    ensures -1 <= i < |columns|
    ensures i >= 0 ==> IsMarket(columns[i])
    ensures forall j :: i < j < |columns| ==> !IsMarket(columns[j])
  {
    if columns == [] then -1
    else if IsMarket(columns[|columns| - 1]) then |columns| - 1
    else LastMarketIndex(columns[..|columns| - 1])
  }

  /** The last entry of `market_cols` is the last market column of the frame. */
  lemma {:induction false} LastMarketColumn(columns: seq<string>)
    ensures var ms, i := MarketColumns(columns), LastMarketIndex(columns);
      (ms == [] <==> i == -1) && (ms != [] ==> ms[|ms| - 1] == columns[i])
  {
    if columns != [] {
      var front := columns[..|columns| - 1];
      LastMarketColumn(front);
    }
  }

  /** The pick column: "Market.1" when the frame has it, else the last market column,
      else "" (no pick). */
  function PickColumn(columns: seq<string>): (p: string)
    ensures "Market.1" in columns ==> p == "Market.1"
    ensures p != "" ==> p in columns && IsMarket(p)
    ensures p == "" <==> forall c :: c in columns ==> !IsMarket(c)
  {
    MarketOneIsMarket();
    if "Market.1" in columns then "Market.1"
    else
      var ms := MarketColumns(columns);
      if ms != [] then
        assert ms[|ms| - 1] in ms;
        ms[|ms| - 1]
      else ""
  }

  /** Without "Market.1", the pick is the last market column of the frame, if any. */
  lemma PickIsLastMarket(columns: seq<string>)
    requires "Market.1" !in columns
    ensures var i := LastMarketIndex(columns);
      PickColumn(columns) == if i >= 0 then columns[i] else ""
  {
    LastMarketColumn(columns);
    var ms, i := MarketColumns(columns), LastMarketIndex(columns);
    if i >= 0 {
      assert ms != [];
      assert PickColumn(columns) == ms[|ms| - 1];
    } else {
      assert PickColumn(columns) == "";
    }
  }

  /** Repeated names after deduplication: with names a, b, c and b again, as
      `make_unique` can produce, the frame keeps b once, at its first position. */
  lemma RepeatedNamesFrame(a: string, b: string, c: string)
    requires a != b && b != c && a != c
    ensures FrameColumns([a, b, c, b], 1) == [a, b, c]
  {
    var abc := [a, b, c];
    assert forall i, j :: 0 <= i < j < |abc| ==> abc[i] != abc[j];
    DistinctKeepsDistinct(abc);
    DistinctSnoc(abc, b);
    assert abc + [b] == [a, b, c, b];
  }

  /** For the frame MarketA, MarketA.1, MarketB (the names MarketA, MarketA.1, MarketB,
      MarketA.1 after the step above) the pick is the last market column, "MarketB". */
  lemma RepeatedNamesPick()
    ensures PickColumn(["MarketA", "MarketA.1", "MarketB"]) == "MarketB"
  {
    var columns := ["MarketA", "MarketA.1", "MarketB"];
    assert "Market.1" !in columns;
    PickIsLastMarket(columns);
  }

  /** `df.apply(build_qr)`: one payload per row, in row order. */
  function Payloads(rows: seq<Record>, pickCol: string, wagerCol: string): (ps: seq<string>)
    ensures |ps| == |rows|
    ensures forall i {:trigger ps[i]} :: 0 <= i < |rows| ==> ps[i] == BuildQr(rows[i], pickCol, wagerCol)
  {
    seq(|rows|, i requires 0 <= i < |rows| => BuildQr(rows[i], pickCol, wagerCol))
  }

  /** Everything `main` computes before writing the CSV. */
  datatype Extract = Extract(
    headerRow: int,
    columns: seq<string>,
    rows: seq<Record>,
    wagerColumn: string,
    pickColumn: string,
    payloads: seq<string>)

  /** `main` without the I/O: locate the header, name the columns, read the rows, choose
      the wager and pick columns and build every payload. */
  method Publish(sheet: Sheet) returns (e: Extract)
    ensures e.headerRow == FindHeaderRow(sheet, MAX_SCAN)
    ensures e.columns == UniqueLabels(HeaderLabels(sheet, e.headerRow))
    ensures e.rows == DataRows(sheet, e.headerRow, e.columns)
    ensures e.wagerColumn == e.columns[LAST_COL - 1]
    ensures e.pickColumn == PickColumn(FrameColumns(e.columns, |e.rows|))
    ensures e.payloads == Payloads(e.rows, e.pickColumn, e.wagerColumn)
    ensures 1 <= e.headerRow <= MAX_SCAN && |e.rows| <= MAX_ROWS
    ensures e.rows == [] ==> e.pickColumn == ""
    ensures e.pickColumn != "" ==> e.pickColumn in e.columns && IsMarket(e.pickColumn)
    ensures forall i :: 0 <= i < |e.payloads| ==> StartsWith(e.payloads[i], "ALC|EVT:")
  {
    var headerRow := LocateHeaderRow(sheet, MAX_SCAN);
    var headers := ReadHeaders(sheet, headerRow);
    var cols := MakeUnique(headers);
    var rows := ExtractRows(sheet, headerRow, cols);
    var wagerCol := cols[10];
    var pickCol := PickColumn(FrameColumns(cols, |rows|));
    var payloads := Payloads(rows, pickCol, wagerCol);
    e := Extract(headerRow, cols, rows, wagerCol, pickCol, payloads);
  }

  /** With at least one row and header labels that carry no ".digits" suffix, the frame
      columns are exactly the deduplicated labels, in column order. */
  lemma FrameKeepsDistinctColumns(hs: seq<string>, rowCount: nat)
    requires forall j :: 0 <= j < |hs| ==> !HasNumericSuffix(hs[j])
    requires rowCount > 0
    ensures FrameColumns(UniqueLabels(hs), rowCount) == UniqueLabels(hs)
  {
    UniqueWithoutNumericSuffix(hs);
    DistinctKeepsDistinct(UniqueLabels(hs));
  }
}

/** Reading the data rows below the header row (the row loop of `main`). */
module Rows {
  import opened Cells
  import opened Header

  /** Hard cap on the number of data rows read. */
  const MAX_ROWS: nat := 300

  /** One data row: a dictionary from column name to the raw cell value. */
  type Record = map<string, Cell>

  /** How many rows, from row `start` on, are read: the consecutive rows whose column-A
      cell is not blank, stopping at the first blank one and after `cap` rows at most. */
  function DataRowCount(sheet: Sheet, start: int, cap: nat): (n: nat)
    decreases cap
    ensures n <= cap
    ensures forall q :: start <= q < start + n ==> !IsBlank(sheet(q, 1))
    ensures n < cap ==> IsBlank(sheet(start + n, 1))
  {
    if cap == 0 || IsBlank(sheet(start, 1)) then 0
    else 1 + DataRowCount(sheet, start + 1, cap - 1)
  }

  /** The three conditions of DataRowCount single out its value: it is the only count
      that is within the cap, covers only non-blank rows, and stops at a blank row or
      at the cap. */
  lemma DataRowCountUnique(sheet: Sheet, start: int, cap: nat, n: nat)
    requires n <= cap
    requires forall q :: start <= q < start + n ==> !IsBlank(sheet(q, 1))
    requires n < cap ==> IsBlank(sheet(start + n, 1))
    ensures DataRowCount(sheet, start, cap) == n
  {
  }

  /** Extraction never looks past the first blank row: two sheets whose column A agrees
      on the rows read and on the row that stopped the scan give the same count. */
  lemma DataRowCountReadsPrefix(s1: Sheet, s2: Sheet, start: int, cap: nat)
    requires var n := DataRowCount(s1, start, cap);
      forall q :: start <= q <= start + n && q < start + cap ==> s1(q, 1) == s2(q, 1)
    ensures DataRowCount(s2, start, cap) == DataRowCount(s1, start, cap)
  {
    var n := DataRowCount(s1, start, cap);
    assert forall q :: start <= q < start + n ==> s1(q, 1) == s2(q, 1);
    if n < cap {
      assert s1(start + n, 1) == s2(start + n, 1);
    }
    DataRowCountUnique(s2, start, cap, n);
  }

  /** The position of the last column named k. */
  function LastIndex(cols: seq<string>, k: string): (i: nat)
    requires k in cols
    ensures i < |cols| && cols[i] == k
    ensures forall j :: i < j < |cols| ==> cols[j] != k
  {
    if cols[|cols| - 1] == k then |cols| - 1
    else
      assert k in cols[..|cols| - 1] by {
        var j :| 0 <= j < |cols| && cols[j] == k;
        assert cols[..|cols| - 1][j] == k;
      }
      LastIndex(cols[..|cols| - 1], k)
  }

  /** The record of sheet row r after assigning `row[cols[c - 1]] = cell(r, c)` for each
      column c in turn. */
  function RowRecord(sheet: Sheet, r: int, cols: seq<string>): (row: Record)
  {
    if cols == [] then map[]
    else RowRecord(sheet, r, cols[..|cols| - 1])[cols[|cols| - 1] := sheet(r, |cols|)]
  }

  /** The keys of a record are exactly the column names. */
  lemma {:induction false} RowRecordKeys(sheet: Sheet, r: int, cols: seq<string>)
    ensures forall k :: k in RowRecord(sheet, r, cols) <==> k in cols
  {
    if cols != [] {
      var front := cols[..|cols| - 1];
      RowRecordKeys(sheet, r, front);
      assert cols == front + [cols[|cols| - 1]];
    }
  }

  /** A later assignment to a dictionary key wins: each name maps to the cell of the
      last column carrying it. */
  lemma {:induction false} RowRecordLookup(sheet: Sheet, r: int, cols: seq<string>, k: string)
    requires k in cols
    ensures k in RowRecord(sheet, r, cols)
    ensures RowRecord(sheet, r, cols)[k] == sheet(r, LastIndex(cols, k) + 1)
  {
    var front := cols[..|cols| - 1];
    if cols[|cols| - 1] != k {
      assert k in front by {
        var j :| 0 <= j < |cols| && cols[j] == k;
        assert front[j] == k;
      }
      RowRecordLookup(sheet, r, front, k);
    }
  }

  /** With distinct names, the record maps the name of column c to the cell in column c. */
  lemma RowRecordDistinct(sheet: Sheet, r: int, cols: seq<string>, c: nat)
    requires forall i, j :: 0 <= i < j < |cols| ==> cols[i] != cols[j]
    requires c < |cols|
    ensures cols[c] in RowRecord(sheet, r, cols) && RowRecord(sheet, r, cols)[cols[c]] == sheet(r, c + 1)
  {
    RowRecordLookup(sheet, r, cols, cols[c]);
  }

  /** Nothing outside columns 1..|cols| of row r is read: two sheets that agree there
      give the same record. */
  lemma {:induction false} RowRecordReadsSpan(s1: Sheet, s2: Sheet, r: int, cols: seq<string>)
    requires forall c :: 1 <= c <= |cols| ==> s1(r, c) == s2(r, c)
    ensures RowRecord(s1, r, cols) == RowRecord(s2, r, cols)
  {
    if cols != [] {
      RowRecordReadsSpan(s1, s2, r, cols[..|cols| - 1]);
    }
  }

  /** The inner loop of `main`: assign `row[cols[c - 1]]` for c = 1..LAST_COL. */
  method ReadRow(sheet: Sheet, r: int, cols: seq<string>) returns (row: Record)
    requires |cols| == LAST_COL
    ensures row == RowRecord(sheet, r, cols)
  {
    row := map[];
    for c := 1 to LAST_COL + 1
      invariant row == RowRecord(sheet, r, cols[..c - 1])
    {
      assert cols[..c][..c - 1] == cols[..c - 1];
      row := row[cols[c - 1] := sheet(r, c)];
    }
    assert cols[..LAST_COL] == cols;
  }

  /** The records of the n sheet rows from row `start` on, in sheet order. */
  function Records(sheet: Sheet, start: int, n: nat, cols: seq<string>): (rows: seq<Record>)
    ensures |rows| == n
  {
    if n == 0 then [] else Records(sheet, start, n - 1, cols) + [RowRecord(sheet, start + n - 1, cols)]
  }

  /** Record i of Records is the record of sheet row start + i: rows are kept in order,
      none is skipped and none is repeated. */
  lemma {:induction false} RecordsAt(sheet: Sheet, start: int, n: nat, cols: seq<string>, i: nat)
    requires i < n
    ensures Records(sheet, start, n, cols)[i] == RowRecord(sheet, start + i, cols)
  {
    if i < n - 1 {
      RecordsAt(sheet, start, n - 1, cols, i);
    }
  }

  /** The rows read below header row h: the consecutive non-blank ones, at most MAX_ROWS. */
  function DataRows(sheet: Sheet, headerRow: int, cols: seq<string>): (rows: seq<Record>)
    ensures |rows| == DataRowCount(sheet, headerRow + 1, MAX_ROWS)
  {
    Records(sheet, headerRow + 1, DataRowCount(sheet, headerRow + 1, MAX_ROWS), cols)
  }

  /** The outer loop of `main`: from the row below the header, read rows until column A
      is blank or MAX_ROWS rows have been read. */
  method ExtractRows(sheet: Sheet, headerRow: int, cols: seq<string>) returns (rows: seq<Record>)
    requires |cols| == LAST_COL
    ensures rows == DataRows(sheet, headerRow, cols)
    ensures |rows| <= MAX_ROWS
  {
    rows := [];
    var start := headerRow + 1;
    var r := start;
    while r < start + MAX_ROWS && !IsBlank(sheet(r, 1))
      invariant start <= r <= start + MAX_ROWS
      invariant rows == Records(sheet, start, r - start, cols)
      invariant forall q :: start <= q < r ==> !IsBlank(sheet(q, 1))
    {
      var row := ReadRow(sheet, r, cols);
      rows := rows + [row];
      r := r + 1;
    }
    DataRowCountUnique(sheet, start, MAX_ROWS, r - start);
  }
}

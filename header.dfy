/** Locating the header row and reading the column labels (`find_header_row` and the
    header loop of `main`). */
module Header {
  import opened Text
  import opened Cells

  /** Default number of rows `find_header_row` scans. */
  const MAX_SCAN: int := 25
  /** Columns A..K are read. */
  const LAST_COL: nat := 11

  /** strip, lower, then remove every space. */
  function Normalize(t: string): string {
    RemoveSpaces(Lower(Strip(t)))
  }

  /** A column-A value that marks the header row: text normalising to "event#" or "event". */
  predicate IsHeaderCell(v: Cell) {
    v.Str? && (Normalize(v.text) == "event#" || Normalize(v.text) == "event")
  }

  /** The loop of `find_header_row` from row r on, with the header test as a parameter:
      the first row in r..maxScan that passes it, or 1 when none does. */
  function FindFrom(isHeader: int -> bool, r: int, maxScan: int): (h: int)
    decreases maxScan - r
    ensures
      || (r <= h <= maxScan && isHeader(h) && forall k :: r <= k < h ==> !isHeader(k))
      || (h == 1 && forall k :: r <= k <= maxScan ==> !isHeader(k))
  {
    if r > maxScan then 1
    else if isHeader(r) then r
    else FindFrom(isHeader, r + 1, maxScan)
  }

  /** `find_header_row`: the smallest row in 1..maxScan whose column-A cell is a header
      token; row 1 when no row matches. The result is always a row of the scanned range. */
  function FindHeaderRow(sheet: Sheet, maxScan: int): (h: int)
    ensures 1 <= h && (1 <= maxScan ==> h <= maxScan)
    ensures
      || (h <= maxScan && IsHeaderCell(sheet(h, 1)) && forall k :: 1 <= k < h ==> !IsHeaderCell(sheet(k, 1)))
      || (h == 1 && forall k :: 1 <= k <= maxScan ==> !IsHeaderCell(sheet(k, 1)))
  {
    var isHeader := k => IsHeaderCell(sheet(k, 1));
    var h := FindFrom(isHeader, 1, maxScan);
    assert forall k :: isHeader(k) == IsHeaderCell(sheet(k, 1));
    h
  }

  /** The header search reads nothing but column A of rows 1..maxScan. */
  lemma FindHeaderRowReadsColumnA(s1: Sheet, s2: Sheet, maxScan: int)
    requires forall k :: 1 <= k <= maxScan ==> s1(k, 1) == s2(k, 1)
    ensures FindHeaderRow(s1, maxScan) == FindHeaderRow(s2, maxScan)
  {
  }

  /** The loop of `find_header_row`: scan column A from row 1 to maxScan and return at
      the first header cell, or 1 after the last row. */
  method LocateHeaderRow(sheet: Sheet, maxScan: int) returns (h: int)
    ensures h == FindHeaderRow(sheet, maxScan)
  {
    var r := 1;
    while r <= maxScan
      invariant 1 <= r
      invariant r <= maxScan + 1 || r == 1
      invariant forall k :: 1 <= k < r ==> !IsHeaderCell(sheet(k, 1))
      decreases maxScan - r
    {
      var v := sheet(r, 1);
      if v.Str? {
        var t := Normalize(v.text);
        if t == "event#" || t == "event" {
          return r;
        }
      }
      assert !IsHeaderCell(sheet(r, 1));
      r := r + 1;
    }
    return 1;
  }

  /** The label of column c: the cell's stripped text, or "Col<c>" when that is empty. */
  function HeaderLabel(v: Cell, c: nat): (name: string)
    ensures name != "" && Trimmed(name)
    ensures S(v) != "" ==> name == S(v)
    ensures S(v) == "" ==> name == "Col" + NatToString(c)
  {
    if S(v) != "" then S(v) else "Col" + NatToString(c)
  }

  /** The LAST_COL labels of the header row, in column order. */
  function HeaderLabels(sheet: Sheet, row: int): (labels: seq<string>)
    ensures |labels| == LAST_COL
    ensures forall j :: 0 <= j < LAST_COL ==> labels[j] == HeaderLabel(sheet(row, j + 1), j + 1)
  {
    seq(LAST_COL, j requires 0 <= j < LAST_COL => HeaderLabel(sheet(row, j + 1), j + 1))
  }

  /** The header loop of `main`: one label per column A..K, none of them empty. */
  method ReadHeaders(sheet: Sheet, headerRow: int) returns (headers: seq<string>)
    ensures headers == HeaderLabels(sheet, headerRow)
    ensures forall j :: 0 <= j < |headers| ==> headers[j] != "" && Trimmed(headers[j])
  {
    ghost var all := HeaderLabels(sheet, headerRow);
    headers := [];
    var c := 1;
    while c <= LAST_COL
      invariant 1 <= c <= LAST_COL + 1
      invariant headers == all[..c - 1]
    {
      var v := sheet(headerRow, c);
      var name := S(v);
      if name == "" {
        name := "Col" + NatToString(c);
      }
      assert name == HeaderLabel(v, c) == all[c - 1];
      assert all[..c] == all[..c - 1] + [all[c - 1]];
      headers := headers + [name];
      c := c + 1;
    }
  }

  /** Sample header cells: the match ignores case. */
  lemma HeaderTokenExample()
    ensures IsHeaderCell(Str("EVENT#"))
    ensures IsHeaderCell(Str("Event"))
    ensures IsHeaderCell(Str("Event #"))
  {
    StripTrimmed("EVENT#");
    assert Lower("EVENT#") == "event#";
    StripTrimmed("Event");
    assert Lower("Event") == "event";
    SpacedTokenNormalizes();
  }

  /** The token as the sheet writes it, "Event #", normalises to "event#". */
  lemma SpacedTokenNormalizes()
    ensures Normalize("Event #") == "event#"
  {
    StripTrimmed("Event #");
    assert Lower("Event #") == "event" + " #";
    RemoveSpacesAppend("event", " #");
    RemoveSpacesAppend(" ", "#");
    assert RemoveSpaces("event") == "event";
    assert RemoveSpaces(" ") == "";
    assert RemoveSpaces("#") == "#";
  }

  /** Text longer than the token is not a header cell, and neither is a number. */
  lemma NotHeaderTokenExample()
    ensures !IsHeaderCell(Str("Events"))
    ensures !IsHeaderCell(Int(1))
  {
    StripTrimmed("Events");
    assert Lower("Events") == "events";
  }
}

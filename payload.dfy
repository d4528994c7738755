/** The per-row tracking payload (`build_qr`): a fixed, ordered list of tagged fields
    joined by '|' behind the prefix "ALC". */
module Payload {
  import opened Text
  import opened Cells
  import opened Rows

  /** dict.get: the value under k, or None when k is not a key. */
  function Get(row: Record, k: string): (v: Cell)
    ensures k in row ==> v == row[k]
    ensures k !in row ==> v == None
  {
    if k in row then row[k] else None
  }

  /** `r.get('Event #') or r.get('Event#') or r.get('Event')`: the first truthy one of the
      three, and otherwise whatever 'Event' holds. */
  function EventValue(row: Record): (v: Cell)
    ensures Truthy(Get(row, "Event #")) ==> v == Get(row, "Event #")
    ensures !Truthy(Get(row, "Event #")) && Truthy(Get(row, "Event#")) ==> v == Get(row, "Event#")
    ensures !Truthy(Get(row, "Event #")) && !Truthy(Get(row, "Event#")) ==> v == Get(row, "Event")
  {
    Or(Or(Get(row, "Event #"), Get(row, "Event#")), Get(row, "Event"))
  }

  /** The tags of the payload, in order. */
  const Tags: seq<string> := ["EVT", "DT", "V", "H", "M", "OD", "P", "WIN", "EDGE", "PICK", "WAGER"]

  /** The value behind each tag, in tag order: PICK is empty when there is no pick
      column, and the wager carries a literal '$'. */
  function Fields(row: Record, pickCol: string, wagerCol: string): (f: seq<string>)
    ensures |f| == |Tags|
  {
    [ S(EventValue(row)),
      S(Get(row, "Date and Time")),
      S(Get(row, "Visitor")),
      S(Get(row, "Home")),
      S(Get(row, "Market")),
      S(Get(row, "Odds")),
      S(Get(row, "Prop")),
      S(Get(row, "Win%")),
      S(Get(row, "Edge")),
      if pickCol != "" then S(Get(row, pickCol)) else "",
      "$" + S(Get(row, wagerCol)) ]
  }

  /** The f-string of `build_qr`, over the eleven field values in tag order. */
  function Render(f: seq<string>): (p: string)
    requires |f| == |Tags|
  {
    "ALC|EVT:" + f[0] + "|DT:" + f[1] + "|V:" + f[2] + "|H:" + f[3] + "|M:" + f[4]
    + "|OD:" + f[5] + "|P:" + f[6] + "|WIN:" + f[7] + "|EDGE:" + f[8]
    + "|PICK:" + f[9] + "|WAGER:" + f[10]
  }

  /** `build_qr`: the payload of one row, given the resolved pick and wager columns. */
  function BuildQr(row: Record, pickCol: string, wagerCol: string): (p: string)
    ensures StartsWith(p, "ALC|EVT:")
  {
    Render(Fields(row, pickCol, wagerCol))
  }

  /** Python's str.split('|'): the pieces between separators, empty ones included. */
  function Split(s: string): (parts: seq<string>)
    ensures |parts| >= 1
  {
    if s == "" then [""]
    else
      var rest := Split(s[1..]);
      if s[0] == '|' then [""] + rest else [[s[0]] + rest[0]] + rest[1..]
  }

  /** A string without separators is one piece. */
  lemma {:induction false} SplitNoBar(s: string)
    requires '|' !in s
    ensures Split(s) == [s]
  {
    if s != "" {
      assert '|' !in s[1..] by {
        forall k | 0 <= k < |s[1..]| ensures s[1..][k] != '|' { assert s[1..][k] == s[k + 1]; }
      }
      SplitNoBar(s[1..]);
      assert [s[0]] + s[1..] == s;
    }
  }

  /** Splitting around one separator splits each side separately. */
  lemma {:induction false} SplitAround(a: string, b: string)
    ensures Split(a + "|" + b) == Split(a) + Split(b)
  {
    if a == "" {
      assert a + "|" + b == "|" + b && ("|" + b)[1..] == b;
    } else {
      assert (a + "|" + b)[1..] == a[1..] + "|" + b;
      SplitAround(a[1..], b);
      assert [a[0]] + a[1..] == a;
    }
  }

  /** The first n tags with their values behind the prefix "ALC", joined by '|'. */
  function TaggedPrefix(f: seq<string>, n: nat): (p: string)
    requires n <= |f| && n <= |Tags|
  {
    if n == 0 then "ALC" else TaggedPrefix(f, n - 1) + "|" + (Tags[n - 1] + ":" + f[n - 1])
  }

  /** Splitting the joined prefix gives back "ALC" and the n tagged segments, as long as
      no value contains the separator. */
  lemma {:induction false} SplitTaggedPrefix(f: seq<string>, n: nat)
    requires n <= |f| && n <= |Tags|
    requires forall i :: 0 <= i < n ==> '|' !in f[i]
    ensures var parts := Split(TaggedPrefix(f, n));
      && |parts| == n + 1 && parts[0] == "ALC"
      && forall i :: 0 <= i < n ==> parts[i + 1] == Tags[i] + ":" + f[i]
  {
    if n == 0 {
      SplitNoBar("ALC");
    } else {
      SplitTaggedPrefix(f, n - 1);
      var seg := Tags[n - 1] + ":" + f[n - 1];
      assert '|' !in seg;
      SplitAround(TaggedPrefix(f, n - 1), seg);
      SplitNoBar(seg);
    }
  }

  /** One more tagged segment of the joined prefix, written with its literal separator. */
  lemma TagStep(f: seq<string>, k: nat, x: string, lit: string)
    requires k < |f| && k < |Tags|
    requires x == TaggedPrefix(f, k) && lit == "|" + Tags[k] + ":"
    ensures TaggedPrefix(f, k + 1) == x + lit + f[k]
  {
  }

  /** The first two tagged segments, written as the f-string writes them. */
  lemma RenderHead(f: seq<string>)
    requires |f| == |Tags|
    ensures "ALC|EVT:" + f[0] + "|DT:" + f[1] == TaggedPrefix(f, 2)
  {
    assert "ALC|EVT:" == "ALC" + "|EVT:";
    TagStep(f, 0, "ALC", "|EVT:");
    TagStep(f, 1, "ALC|EVT:" + f[0], "|DT:");
  }

  /** The next three tagged segments, appended to the first two. */
  lemma RenderMiddle(f: seq<string>, x: string)
    requires |f| == |Tags| && x == TaggedPrefix(f, 2)
    ensures x + "|V:" + f[2] + "|H:" + f[3] + "|M:" + f[4] == TaggedPrefix(f, 5)
  {
    var q3 := x + "|V:" + f[2];
    assert q3 == TaggedPrefix(f, 3) by { TagStep(f, 2, x, "|V:"); }
    var q4 := q3 + "|H:" + f[3];
    assert q4 == TaggedPrefix(f, 4) by { TagStep(f, 3, q3, "|H:"); }
    TagStep(f, 4, q4, "|M:");
  }

  /** The remaining six tagged segments, appended to the first five. */
  lemma RenderTail(f: seq<string>, x: string)
    requires |f| == |Tags| && x == TaggedPrefix(f, 5)
    ensures x + "|OD:" + f[5] + "|P:" + f[6] + "|WIN:" + f[7] + "|EDGE:" + f[8]
      + "|PICK:" + f[9] + "|WAGER:" + f[10] == TaggedPrefix(f, 11)
  {
    var q6 := x + "|OD:" + f[5];
    assert q6 == TaggedPrefix(f, 6) by { TagStep(f, 5, x, "|OD:"); }
    var q7 := q6 + "|P:" + f[6];
    assert q7 == TaggedPrefix(f, 7) by { TagStep(f, 6, q6, "|P:"); }
    var q8 := q7 + "|WIN:" + f[7];
    assert q8 == TaggedPrefix(f, 8) by { TagStep(f, 7, q7, "|WIN:"); }
    var q9 := q8 + "|EDGE:" + f[8];
    assert q9 == TaggedPrefix(f, 9) by { TagStep(f, 8, q8, "|EDGE:"); }
    var q10 := q9 + "|PICK:" + f[9];
    assert q10 == TaggedPrefix(f, 10) by { TagStep(f, 9, q9, "|PICK:"); }
    TagStep(f, 10, q10, "|WAGER:");
  }

  /** The rendered payload is "ALC" followed by every tag and its value, in the fixed order. */
  lemma RenderIsTaggedPrefix(f: seq<string>)
    requires |f| == |Tags|
    ensures Render(f) == TaggedPrefix(f, 11)
  {
    RenderHead(f);
    RenderMiddle(f, "ALC|EVT:" + f[0] + "|DT:" + f[1]);
    RenderTail(f, "ALC|EVT:" + f[0] + "|DT:" + f[1] + "|V:" + f[2] + "|H:" + f[3] + "|M:" + f[4]);
  }

  /** When no value contains '|', the payload splits into exactly 12 pieces: "ALC" and,
      in order, EVT, DT, V, H, M, OD, P, WIN, EDGE, PICK and WAGER, each as "TAG:value". */
  lemma PayloadSegments(row: Record, pickCol: string, wagerCol: string)
    requires forall i :: 0 <= i < 11 ==> '|' !in Fields(row, pickCol, wagerCol)[i]
    ensures var parts, f := Split(BuildQr(row, pickCol, wagerCol)), Fields(row, pickCol, wagerCol);
      && |parts| == 12 && parts[0] == "ALC"
      && forall i :: 0 <= i < 11 ==> parts[i + 1] == Tags[i] + ":" + f[i]
  {
    RenderIsTaggedPrefix(Fields(row, pickCol, wagerCol));
    SplitTaggedPrefix(Fields(row, pickCol, wagerCol), 11);
  }

  /** Missing values still leave their tag in place, with an empty value. */
  lemma EmptyRowPayload(wagerCol: string)
    ensures BuildQr(map[], "", wagerCol) == "ALC|EVT:|DT:|V:|H:|M:|OD:|P:|WIN:|EDGE:|PICK:|WAGER:$"
  {
    var f := Fields(map[], "", wagerCol);
    assert forall k :: Get(map[], k) == None;
    assert f[0] == "" && f[1] == "" && f[2] == "" && f[3] == "" && f[4] == "" && f[5] == "";
    assert f[6] == "" && f[7] == "" && f[8] == "" && f[9] == "" && f[10] == "$";
    var q5 := "ALC|EVT:" + f[0] + "|DT:" + f[1] + "|V:" + f[2] + "|H:" + f[3] + "|M:" + f[4];
    assert q5 == "ALC|EVT:|DT:|V:|H:|M:";
    var q9 := q5 + "|OD:" + f[5] + "|P:" + f[6] + "|WIN:" + f[7] + "|EDGE:" + f[8];
    assert q9 == "ALC|EVT:|DT:|V:|H:|M:|OD:|P:|WIN:|EDGE:";
  }
}

/** The Python string operations the publisher relies on: str.strip(), str.lower(),
    str.replace(" ", ""), str.startswith() and the decimal rendering of integers. */
module Text {

  /** Python's str.isspace() for one character: exactly the characters str.strip()
      (called without arguments) removes from either end. */
  predicate IsSpace(c: char) {
    || ('\t' <= c <= '\r')
    || ('\U{1C}' <= c <= '\U{1F}')
    || c == ' '
    || c == '\U{85}'
    || c == '\U{A0}'
    || c == '\U{1680}'
    || ('\U{2000}' <= c <= '\U{200A}')
    || c == '\U{2028}'
    || c == '\U{2029}'
    || c == '\U{202F}'
    || c == '\U{205F}'
    || c == '\U{3000}'
  }

  /** No whitespace at either end: what str.strip() guarantees of its result. */
  predicate Trimmed(s: string) {
    s == "" || (!IsSpace(s[0]) && !IsSpace(s[|s| - 1]))
  }

  /** str.lstrip(): drop leading whitespace. */
  function StripStart(s: string): (r: string)
    ensures |r| <= |s|
    ensures r == "" || !IsSpace(r[0])
  {
    if s != "" && IsSpace(s[0]) then StripStart(s[1..]) else s
  }

  /** str.rstrip(): drop trailing whitespace. */
  function StripEnd(s: string): (r: string)
    ensures |r| <= |s|
    ensures r == "" || !IsSpace(r[|r| - 1])
  {
    if s != "" && IsSpace(s[|s| - 1]) then StripEnd(s[..|s| - 1]) else s
  }

  /** str.strip(): lstrip then rstrip; the result has no whitespace at either end. */
  function Strip(s: string): (r: string)
    ensures Trimmed(r) && |r| <= |s|
  {
    StripEndSlice(StripStart(s));
    StripEnd(StripStart(s))
  }

  /** lstrip keeps a suffix of its input and cuts only whitespace. */
  lemma {:induction false} StripStartSlice(s: string)
    ensures var r := StripStart(s);
      && r == s[|s| - |r|..]
      && forall k :: 0 <= k < |s| - |r| ==> IsSpace(s[k])
  {
    if s != "" && IsSpace(s[0]) {
      StripStartSlice(s[1..]);
    }
  }

  /** rstrip keeps a prefix of its input and cuts only whitespace. */
  lemma {:induction false} StripEndSlice(s: string)
    ensures var r := StripEnd(s);
      && r == s[..|r|]
      && forall k :: |r| <= k < |s| ==> IsSpace(s[k])
  {
    if s != "" && IsSpace(s[|s| - 1]) {
      StripEndSlice(s[..|s| - 1]);
    }
  }

  /** A prefix of a suffix of s is a slice of s, and what the prefix leaves of the suffix
      is what the slice leaves at the end of s. */
  lemma SliceOfSuffix(s: string, i: nat, t: string, r: string)
    requires i <= |s| && t == s[i..] && |r| <= |t| && r == t[..|r|]
    requires forall k :: |r| <= k < |t| ==> IsSpace(t[k])
    ensures i + |r| <= |s| && r == s[i..i + |r|]
    ensures forall k :: i + |r| <= k < |s| ==> IsSpace(s[k])
  {
    forall k | i + |r| <= k < |s|
      ensures IsSpace(s[k])
    {
      assert s[k] == t[k - i];
    }
  }

  /** What str.strip() keeps is a contiguous slice of its input, starting at the first
      non-whitespace character, and everything it cuts away on either side is whitespace. */
  lemma StripSlice(s: string)
    ensures var i, r := |s| - |StripStart(s)|, Strip(s);
      && i + |r| <= |s| && r == s[i..i + |r|]
      && (forall k :: 0 <= k < i ==> IsSpace(s[k]))
      && (forall k :: i + |r| <= k < |s| ==> IsSpace(s[k]))
  {
    var t := StripStart(s);
    var r := StripEnd(t);
    assert Strip(s) == r;
    StripStartSlice(s);
    StripEndSlice(t);
    SliceOfSuffix(s, |s| - |t|, t, r);
  }

  /** A string without whitespace at its ends is left alone by str.strip(). */
  lemma {:induction false} StripTrimmed(s: string)
    requires Trimmed(s)
    ensures Strip(s) == s
  {
    assert StripStart(s) == s;
    assert StripEnd(s) == s;
  }

  /** str.lower() on one character, restricted to the mappings that produce an ASCII
      character: 'A'..'Z' and U+212A KELVIN SIGN, which lower-cases to 'k'. */
  function LowerChar(c: char): (d: char)
    ensures 'a' <= d <= 'z' ==> d == c || ('A' <= c <= 'Z' && d as int == c as int + 32) || (c == '\U{212A}' && d == 'k')
    ensures !('a' <= d <= 'z') ==> d == c
    ensures !('A' <= d <= 'Z')
    ensures c == '\U{212A}' ==> d == 'k'
  {
    if 'A' <= c <= 'Z' then (c as int + 32) as char
    else if c == '\U{212A}' then 'k'
    else c
  }

  /** str.lower(), character by character. */
  function Lower(s: string): (r: string)
    ensures |r| == |s|
  {
    seq(|s|, k requires 0 <= k < |s| => LowerChar(s[k]))
  }

  /** str.lower() leaves no 'A'..'Z' behind and keeps every character that is neither
      'A'..'Z' nor U+212A in its place. */
  lemma LowerKeeps(s: string)
    ensures forall k :: 0 <= k < |s| ==> !('A' <= Lower(s)[k] <= 'Z')
    ensures forall k :: 0 <= k < |s| && !('A' <= s[k] <= 'Z') && s[k] != '\U{212A}' ==> Lower(s)[k] == s[k]
  {
  }

  /** str.replace(" ", ""): every U+0020 space removed, everything else kept in order. */
  function RemoveSpaces(s: string): (r: string)
    ensures ' ' !in r
    ensures |r| <= |s|
    ensures ' ' !in s ==> r == s
    ensures s == " " ==> r == ""
  {
    if s == [] then []
    else if s[0] == ' ' then RemoveSpaces(s[1..])
    else [s[0]] + RemoveSpaces(s[1..])
  }

  /** Removing spaces works piece by piece: with the single-character cases (a space
      goes, any other character stays), this fixes RemoveSpaces on every string. */
  lemma {:induction false} RemoveSpacesAppend(a: string, b: string)
    ensures RemoveSpaces(a + b) == RemoveSpaces(a) + RemoveSpaces(b)
  {
    if a != [] {
      assert (a + b)[0] == a[0];
      assert (a + b)[1..] == a[1..] + b;
      RemoveSpacesAppend(a[1..], b);
    } else {
      assert a + b == b;
    }
  }

  /** str.startswith(p). */
  predicate StartsWith(s: string, p: string) {
    |p| <= |s| && s[..|p|] == p
  }

  predicate IsDigit(c: char) {
    '0' <= c <= '9'
  }

  predicate AllDigits(s: string) {
    forall k :: 0 <= k < |s| ==> IsDigit(s[k])
  }

  function DigitChar(d: nat): (c: char)
    requires d < 10
    ensures IsDigit(c) && c as int - '0' as int == d
  {
    ('0' as int + d) as char
  }

  /** str() of a non-negative int: its decimal digits, most significant first. */
  function NatToString(n: nat): (r: string)
    ensures r != "" && AllDigits(r)
    ensures n < 10 <==> |r| == 1
    ensures r[0] == '0' ==> n == 0
  {
    if n < 10 then [DigitChar(n)] else NatToString(n / 10) + [DigitChar(n % 10)]
  }

  /** int() of a string of decimal digits (the reading back of NatToString). */
  function ParseNat(s: string): (n: nat)
    requires AllDigits(s)
  {
    if s == "" then 0 else 10 * ParseNat(s[..|s| - 1]) + (s[|s| - 1] as int - '0' as int)
  }

  /** Reading back the rendering of n gives n. */
  lemma {:induction false} NatToStringRoundTrip(n: nat)
    ensures ParseNat(NatToString(n)) == n
  {
    var r := NatToString(n);
    if n >= 10 {
      var front := NatToString(n / 10);
      assert r[..|r| - 1] == front;
      NatToStringRoundTrip(n / 10);
    } else {
      assert r[..|r| - 1] == "";
    }
  }

  /** Different numbers render differently. */
  lemma NatToStringInjective(m: nat, n: nat)
    requires NatToString(m) == NatToString(n)
    ensures m == n
  {
    NatToStringRoundTrip(m);
    NatToStringRoundTrip(n);
  }

  /** A minus sign in front of digits: the rendering of a negative number. */
  lemma NegativeRendering(d: string)
    requires d != "" && AllDigits(d)
    ensures var r := "-" + d;
      && Trimmed(r) && r[0] == '-' && r[1..] == d
      && forall k :: 0 <= k < |r| ==> r[k] == '-' || IsDigit(r[k])
  {
    var r := "-" + d;
    assert r[|r| - 1] == d[|d| - 1];
    assert forall k :: 1 <= k < |r| ==> r[k] == d[k - 1];
  }

  /** str() of any int: an optional '-' followed by the decimal digits of its magnitude. */
  function IntToString(i: int): (r: string)
    ensures r != "" && Trimmed(r)
    ensures forall k :: 0 <= k < |r| ==> r[k] == '-' || IsDigit(r[k])
    ensures i >= 0 ==> AllDigits(r) && ParseNat(r) == i
    ensures i < 0 ==> r[0] == '-' && AllDigits(r[1..]) && ParseNat(r[1..]) == -i
    ensures i >= 0 ==> (r[0] == '0' ==> i == 0)
    ensures i < 0 ==> |r| >= 2 && r[1] != '0'
  {
    if i < 0 then
      NatToStringRoundTrip(-i);
      NegativeRendering(NatToString(-i));
      "-" + NatToString(-i)
    else
      NatToStringRoundTrip(i);
      NatToString(i)
  }
}

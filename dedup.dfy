/** Disambiguating repeated column labels (`make_unique`). */
module Dedup {
  import opened Text

  /** What a header stands for: itself, or "Col" when it is empty. */
  function Base(h: string): (b: string)
    ensures b != ""
    ensures h != "" ==> b == h
  {
    if h != "" then h else "Col"
  }

  /** How many of the headers hs stand for b. */
  function CountBase(hs: seq<string>, b: string): (n: nat)
    ensures n <= |hs|
  {
    if hs == [] then 0
    else CountBase(hs[..|hs| - 1], b) + (if Base(hs[|hs| - 1]) == b then 1 else 0)
  }

  /** Position i of the output of `make_unique`: the base itself where it first occurs,
      and base + "." + k at its k-th repeat. */
  function UniqueLabel(hs: seq<string>, i: nat): (u: string)
    requires i < |hs|
    ensures StartsWith(u, Base(hs[i]))
  {
    var b := Base(hs[i]);
    var k := CountBase(hs[..i], b);
    if k == 0 then b else b + "." + NatToString(k)
  }

  /** The whole output of `make_unique`, position by position. */
  function UniqueLabels(hs: seq<string>): (us: seq<string>)
    ensures |us| == |hs|
    ensures forall i :: 0 <= i < |hs| ==> us[i] == UniqueLabel(hs, i)
  {
    seq(|hs|, i requires 0 <= i < |hs| => UniqueLabel(hs, i))
  }

  /** The `seen` dictionary of `make_unique` after the headers hs: 0 for a base met once,
      one more for each repeat. */
  function SeenAfter(hs: seq<string>): (seen: map<string, nat>)
  {
    if hs == [] then map[]
    else
      var seen := SeenAfter(hs[..|hs| - 1]);
      var base := Base(hs[|hs| - 1]);
      if base in seen then seen[base := seen[base] + 1] else seen[base := 0]
  }

  /** `seen` holds exactly the bases met so far, each with its number of repeats. */
  lemma {:induction false} SeenAfterCounts(hs: seq<string>, b: string)
    ensures b in SeenAfter(hs) <==> CountBase(hs, b) > 0
    ensures b in SeenAfter(hs) ==> SeenAfter(hs)[b] + 1 == CountBase(hs, b)
  {
    if hs != [] {
      SeenAfterCounts(hs[..|hs| - 1], b);
    }
  }

  /** The label one iteration of `make_unique` appends for header h, given `seen`. */
  function Renamed(seen: map<string, nat>, h: string): (u: string)
    ensures StartsWith(u, Base(h))
  {
    var b := Base(h);
    if b in seen then b + "." + NatToString(seen[b] + 1) else b
  }

  /** The output of `make_unique` built up one header at a time, as its loop does. */
  function Labels(hs: seq<string>): (us: seq<string>)
    ensures |us| == |hs|
  {
    if hs == [] then []
    else
      var front := hs[..|hs| - 1];
      Labels(front) + [Renamed(SeenAfter(front), hs[|hs| - 1])]
  }

  /** One iteration of `make_unique` appends exactly the label UniqueLabel gives. */
  lemma NextLabel(hs: seq<string>, i: nat)
    requires i < |hs|
    ensures UniqueLabel(hs, i) == Renamed(SeenAfter(hs[..i]), hs[i])
  {
    SeenAfterCounts(hs[..i], Base(hs[i]));
  }

  /** The loop's output agrees with the position-by-position description. */
  lemma {:induction false} LabelsAreUniqueLabels(hs: seq<string>)
    ensures Labels(hs) == UniqueLabels(hs)
  {
    if hs != [] {
      var n := |hs|;
      var front := hs[..n - 1];
      LabelsAreUniqueLabels(front);
      LabelsSnoc(hs);
      UniqueLabelsSnoc(hs);
    }
  }

  /** One more header: the loop appends the position-by-position label of its index. */
  lemma LabelsSnoc(hs: seq<string>)
    requires hs != []
    ensures Labels(hs) == Labels(hs[..|hs| - 1]) + [UniqueLabel(hs, |hs| - 1)]
  {
    NextLabel(hs, |hs| - 1);
  }

  /** One more header: the position-by-position output grows by the label of its index. */
  lemma UniqueLabelsSnoc(hs: seq<string>)
    requires hs != []
    ensures UniqueLabels(hs) == UniqueLabels(hs[..|hs| - 1]) + [UniqueLabel(hs, |hs| - 1)]
  {
    var us := UniqueLabels(hs);
    UniqueLabelsPrefix(hs, |hs| - 1);
    assert us == us[..|hs| - 1] + [us[|hs| - 1]];
  }

  /** `make_unique`: walks the headers once, counting each base in `seen` and appending
      either the base or base.count to `out`. */
  method MakeUnique(headers: seq<string>) returns (out: seq<string>)
    ensures |out| == |headers|
    ensures out == UniqueLabels(headers)
  {
    var seen: map<string, nat> := map[];
    out := [];
    for i := 0 to |headers|
      invariant out == Labels(headers[..i])
      invariant seen == SeenAfter(headers[..i])
    {
      var h := headers[i];
      var base := if h != "" then h else "Col";
      assert headers[..i + 1][..i] == headers[..i];
      if base !in seen {
        seen := seen[base := 0];
        out := out + [base];
      } else {
        seen := seen[base := seen[base] + 1];
        out := out + [base + "." + NatToString(seen[base])];
      }
    }
    assert headers[..|headers|] == headers;
    LabelsAreUniqueLabels(headers);
  }

  /** CountBase is zero exactly when no header stands for b. */
  lemma {:induction false} CountBaseZero(hs: seq<string>, b: string)
    ensures CountBase(hs, b) == 0 <==> forall j :: 0 <= j < |hs| ==> Base(hs[j]) != b
  {
    if hs != [] {
      var front := hs[..|hs| - 1];
      CountBaseZero(front, b);
      assert forall j :: 0 <= j < |front| ==> front[j] == hs[j];
    }
  }

  /** A longer prefix counts at least as many occurrences. */
  lemma {:induction false} CountBaseMonotone(hs: seq<string>, m: nat, n: nat, b: string)
    requires m <= n <= |hs|
    ensures CountBase(hs[..m], b) <= CountBase(hs[..n], b)
  {
    if m < n {
      CountBaseMonotone(hs, m, n - 1, b);
      assert hs[..n][..n - 1] == hs[..n - 1];
    }
  }

  /** A later occurrence of b has seen strictly more earlier occurrences of b. */
  lemma CountBaseGrows(hs: seq<string>, i: nat, j: nat)
    requires i < j <= |hs|
    ensures CountBase(hs[..i], Base(hs[i])) < CountBase(hs[..j], Base(hs[i]))
  {
    var b := Base(hs[i]);
    assert hs[..i + 1][..i] == hs[..i];
    CountBaseMonotone(hs, i + 1, j, b);
  }

  /** Each output depends only on its own input and the ones before it, so the output
      keeps the input order: deduplicating a prefix gives a prefix of the output. */
  lemma UniqueLabelsPrefix(hs: seq<string>, n: nat)
    requires n <= |hs|
    ensures UniqueLabels(hs[..n]) == UniqueLabels(hs)[..n]
  {
    forall i | 0 <= i < n
      ensures UniqueLabel(hs[..n], i) == UniqueLabel(hs, i)
    {
      assert hs[..n][..i] == hs[..i];
    }
  }

  /** A label is kept verbatim (its base) exactly when no earlier header has the same base. */
  lemma FirstOccurrenceKept(hs: seq<string>, i: nat)
    requires i < |hs|
    ensures UniqueLabel(hs, i) == Base(hs[i]) <==> forall j :: 0 <= j < i ==> Base(hs[j]) != Base(hs[i])
  {
    var b := Base(hs[i]);
    CountBaseZero(hs[..i], b);
    assert forall j :: 0 <= j < i ==> hs[..i][j] == hs[j];
  }

  /** "Market" twice: the repeat becomes "Market.1". */
  lemma MarketExample()
    ensures UniqueLabels(["Market", "Odds", "Market"]) == ["Market", "Odds", "Market.1"]
  {
    var hs := ["Market", "Odds", "Market"];
    assert hs[..1] == ["Market"] && hs[..1][..0] == [];
    assert hs[..2] == ["Market", "Odds"] && hs[..2][..1] == ["Market"];
    assert CountBase(hs[..0], "Market") == 0;
    assert CountBase(hs[..1], "Odds") == 0;
    assert CountBase(hs[..2], "Market") == 1;
    assert NatToString(1) == "1";
    var us := UniqueLabels(hs);
    assert us[0] == "Market" && us[1] == "Odds" && us[2] == "Market.1";
  }

  /** The output is not unique in general: a header that already reads "A.1" collides
      with the generated name of the first repeat of "A". */
  lemma CollisionExample()
    ensures UniqueLabels(["A", "A", "A.1"]) == ["A", "A.1", "A.1"]
  {
    var hs := ["A", "A", "A.1"];
    assert hs[..1] == ["A"] && hs[..1][..0] == [];
    assert hs[..2] == ["A", "A"] && hs[..2][..1] == ["A"];
    assert CountBase(hs[..0], "A") == 0;
    assert CountBase(hs[..1], "A") == 1;
    assert CountBase(hs[..2], "A.1") == 0;
    assert NatToString(1) == "1";
    var us := UniqueLabels(hs);
    assert us[0] == "A" && us[1] == "A.1" && us[2] == "A.1";
  }

  /** s already ends in "." followed by decimal digits, the shape `make_unique` gives a repeat. */
  predicate HasNumericSuffix(s: string) {
    exists k :: 0 <= k < |s| - 1 && s[k] == '.' && AllDigits(s[k + 1..])
  }

  /** Two "x.digits" strings are equal only when both halves are. */
  lemma DotSplit(a: string, x: string, b: string, y: string)
    requires a + "." + x == b + "." + y
    requires AllDigits(x) && AllDigits(y)
    ensures a == b && x == y
  {
    var s := a + "." + x;
    assert s[|a|] == '.' && s[|b|] == '.';
    assert |a| == |b|;
    assert a == s[..|a|] && b == s[..|b|];
    assert x == s[|a| + 1..] && y == s[|b| + 1..];
  }

  /** Appending "." and a rendered number gives a label with a numeric suffix. */
  lemma RepeatHasNumericSuffix(b: string, k: nat)
    ensures HasNumericSuffix(b + "." + NatToString(k))
  {
    var s := b + "." + NatToString(k);
    assert s[|b|] == '.';
    assert s[|b| + 1..] == NatToString(k);
  }

  /** Two positions of the output differ when no header has a numeric suffix. */
  lemma LabelsDiffer(hs: seq<string>, i: nat, j: nat)
    requires i < j < |hs|
    requires !HasNumericSuffix(hs[i]) && !HasNumericSuffix(hs[j])
    ensures UniqueLabel(hs, i) != UniqueLabel(hs, j)
  {
    var bi, bj := Base(hs[i]), Base(hs[j]);
    assert !HasNumericSuffix("Col") by {
      assert forall k :: 0 <= k < 3 ==> "Col"[k] != '.';
    }
    assert !HasNumericSuffix(bi) && !HasNumericSuffix(bj);
    var ki, kj := CountBase(hs[..i], bi), CountBase(hs[..j], bj);
    if UniqueLabel(hs, i) == UniqueLabel(hs, j) {
      if ki == 0 && kj == 0 {
        CountBaseGrows(hs, i, j);
        assert false;
      } else if ki == 0 {
        RepeatHasNumericSuffix(bj, kj);
        assert false;
      } else if kj == 0 {
        RepeatHasNumericSuffix(bi, ki);
        assert false;
      } else {
        DotSplit(bi, NatToString(ki), bj, NatToString(kj));
        NatToStringInjective(ki, kj);
        CountBaseGrows(hs, i, j);
        assert false;
      }
    }
  }

  /** When no header already ends in ".digits", the output names are pairwise distinct. */
  lemma UniqueWithoutNumericSuffix(hs: seq<string>)
    requires forall i :: 0 <= i < |hs| ==> !HasNumericSuffix(hs[i])
    ensures forall i, j :: 0 <= i < j < |hs| ==> UniqueLabels(hs)[i] != UniqueLabels(hs)[j]
  {
    forall i, j | 0 <= i < j < |hs|
      ensures UniqueLabel(hs, i) != UniqueLabel(hs, j)
    {
      LabelsDiffer(hs, i, j);
    }
  }
}

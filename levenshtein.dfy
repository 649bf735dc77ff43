/** Unit-cost edit distance and the 0-100 similarity score built on it
    (`levenshtein_distance` and `levenshtein_similarity`). */
module Levenshtein {

  function Max(a: int, b: int): int { if a < b then b else a }

  function Min3(a: int, b: int, c: int): int
  {
    var m := if a < b then a else b;
    if m < c then m else c
  }

  /** The edit distance of `a` and `b`: the fewest single-character
      insertions, deletions and substitutions that turn one into the other,
      given by the recurrence on the last characters of both strings. */
  function EditDistance(a: string, b: string): nat
    decreases |a| + |b|
  {
    if |a| == 0 then |b|
    else if |b| == 0 then |a|
    else
      Min3(EditDistance(a[..|a| - 1], b) + 1,
           EditDistance(a, b[..|b| - 1]) + 1,
           EditDistance(a[..|a| - 1], b[..|b| - 1]) + (if a[|a| - 1] == b[|b| - 1] then 0 else 1))
  }

  /** The distance is at least the difference of the lengths and at most the
      longer length. */
  lemma {:induction false} DistanceBounds(a: string, b: string)
    ensures EditDistance(a, b) <= Max(|a|, |b|)
    ensures |a| - |b| <= EditDistance(a, b) && |b| - |a| <= EditDistance(a, b)
    decreases |a| + |b|
  {
    if |a| != 0 && |b| != 0 {
      DistanceBounds(a[..|a| - 1], b);
      DistanceBounds(a, b[..|b| - 1]);
      DistanceBounds(a[..|a| - 1], b[..|b| - 1]);
    }
  }

  /** Against the empty string the distance is the other string's length. */
  lemma DistanceToEmpty(s: string)
    ensures EditDistance(s, "") == |s| && EditDistance("", s) == |s|
  {
  }

  lemma {:induction false} DistanceSymmetric(a: string, b: string)
    ensures EditDistance(a, b) == EditDistance(b, a)
    decreases |a| + |b|
  {
    if |a| != 0 && |b| != 0 {
      DistanceSymmetric(a[..|a| - 1], b);
      DistanceSymmetric(a, b[..|b| - 1]);
      DistanceSymmetric(a[..|a| - 1], b[..|b| - 1]);
    }
  }

  /** The distance is zero exactly for equal strings. */
  lemma {:induction false} DistanceZeroIff(a: string, b: string)
    ensures EditDistance(a, b) == 0 <==> a == b
    decreases |a| + |b|
  {
    if |a| != 0 && |b| != 0 {
      var a', b' := a[..|a| - 1], b[..|b| - 1];
      DistanceZeroIff(a', b');
      assert a == a' + [a[|a| - 1]] && b == b' + [b[|b| - 1]];
      if a == b {
        assert a' == b';
      }
    }
  }

  /** `levenshtein_distance` (app.py:48-63): swaps the arguments so that the
      longer string comes first, then fills two rolling rows of the
      dynamic-programming table. */
  method LevenshteinDistance(s1: string, s2: string) returns (d: nat)
    ensures d == EditDistance(s1, s2)
    decreases if |s1| < |s2| then 1 else 0
  {
    if |s1| < |s2| {
      d := LevenshteinDistance(s2, s1);
      DistanceSymmetric(s2, s1);
      return;
    }
    if |s2| == 0 {
      return |s1|;
    }
    var previousRow: seq<nat> := seq(|s2| + 1, j => j);
    FirstRow(s1, s2);
    var i := 0;
    while i < |s1|
      invariant 0 <= i <= |s1|
      invariant |previousRow| == |s2| + 1
      invariant forall j :: 0 <= j <= |s2| ==> previousRow[j] == EditDistance(s1[..i], s2[..j])
    {
      var c1 := s1[i];
      var currentRow: seq<nat> := [i + 1];
      FirstColumn(s1, s2, i + 1);
      var j := 0;
      while j < |s2|
        invariant 0 <= j <= |s2|
        invariant |currentRow| == j + 1
        invariant forall k :: 0 <= k <= j ==> currentRow[k] == EditDistance(s1[..i + 1], s2[..k])
      {
        var c2 := s2[j];
        var insertions := previousRow[j + 1] + 1;
        var deletions := currentRow[j] + 1;
        var substitutions := previousRow[j] + (if c1 != c2 then 1 else 0);
        AppendCell(s1, s2, i, j, previousRow, currentRow);
        currentRow := currentRow + [Min3(insertions, deletions, substitutions)];
        j := j + 1;
      }
      previousRow := currentRow;
      i := i + 1;
    }
    assert s1[..|s1|] == s1 && s2[..|s2|] == s2;
    d := previousRow[|previousRow| - 1];
  }

  /** Row 0 of the table: the empty prefix of `s1` against each prefix of `s2`. */
  lemma FirstRow(s1: string, s2: string)
    ensures forall j :: 0 <= j <= |s2| ==> EditDistance(s1[..0], s2[..j]) == j
  {
    assert s1[..0] == [];
  }

  /** Column 0 of the table: each prefix of `s1` against the empty prefix of `s2`. */
  lemma FirstColumn(s1: string, s2: string, i: nat)
    requires i <= |s1|
    ensures EditDistance(s1[..i], s2[..0]) == i
  {
    assert s2[..0] == [];
  }

  /** Appending the next cell keeps the row under construction correct. */
  lemma AppendCell(s1: string, s2: string, i: nat, j: nat, previousRow: seq<nat>, currentRow: seq<nat>)
    requires i < |s1| && j < |s2| && |previousRow| == |s2| + 1 && |currentRow| == j + 1
    requires forall k :: 0 <= k <= |s2| ==> previousRow[k] == EditDistance(s1[..i], s2[..k])
    requires forall k :: 0 <= k <= j ==> currentRow[k] == EditDistance(s1[..i + 1], s2[..k])
    ensures var next := currentRow + [Min3(previousRow[j + 1] + 1, currentRow[j] + 1,
                                           previousRow[j] + (if s1[i] != s2[j] then 1 else 0))];
            forall k :: 0 <= k <= j + 1 ==> next[k] == EditDistance(s1[..i + 1], s2[..k])
  {
    var cell := Min3(previousRow[j + 1] + 1, currentRow[j] + 1,
                     previousRow[j] + (if s1[i] != s2[j] then 1 else 0));
    DistanceStep(s1, s2, i, j);
    assert cell == EditDistance(s1[..i + 1], s2[..j + 1]);
    var next := currentRow + [cell];
    forall k | 0 <= k <= j + 1
      ensures next[k] == EditDistance(s1[..i + 1], s2[..k])
    {
      if k <= j {
        assert next[k] == currentRow[k];
      }
    }
  }

  /** One cell of the table: the recurrence read on prefixes of the inputs. */
  lemma DistanceStep(s1: string, s2: string, i: nat, j: nat)
    requires i < |s1| && j < |s2|
    ensures EditDistance(s1[..i + 1], s2[..j + 1])
         == Min3(EditDistance(s1[..i], s2[..j + 1]) + 1,
                 EditDistance(s1[..i + 1], s2[..j]) + 1,
                 EditDistance(s1[..i], s2[..j]) + (if s1[i] != s2[j] then 1 else 0))
  {
    assert s1[..i + 1][..i] == s1[..i];
    assert s2[..j + 1][..j] == s2[..j];
  }

  /** The score of `levenshtein_similarity` (app.py:65-70): 100 for two
      empty strings, otherwise the share of the longer length that the
      distance leaves over, as a percentage. */
  function Similarity(s1: string, s2: string): (r: real)
    ensures 0.0 <= r <= 100.0
  {
    var maxLen := Max(|s1|, |s2|);
    if maxLen == 0 then 100.0
    else
      var d := EditDistance(s1, s2);
      DistanceBounds(s1, s2);
      Percentage(maxLen - d, maxLen);
      ((maxLen - d) as real / maxLen as real) * 100.0
  }

  /** The share `x / m` of a positive whole `m`, as a percentage, lies in
      [0, 100] and is 100 exactly when `x` is the whole. */
  lemma Percentage(x: nat, m: nat)
    requires 0 < m && x <= m
    ensures 0.0 <= (x as real / m as real) * 100.0 <= 100.0
    ensures (x as real / m as real) * 100.0 == 100.0 <==> x == m
  {
    var q := x as real / m as real;
    assert q * m as real == x as real;
    if q * 100.0 == 100.0 {
      assert q == 1.0;
    }
  }

  /** `levenshtein_similarity`, computing the distance with the two-row loop. */
  method LevenshteinSimilarity(s1: string, s2: string) returns (r: real)
    ensures r == Similarity(s1, s2)
  {
    var maxLen := Max(|s1|, |s2|);
    if maxLen == 0 {
      return 100.0;
    }
    var distance := LevenshteinDistance(s1, s2);
    DistanceBounds(s1, s2);
    r := ((maxLen - distance) as real / maxLen as real) * 100.0;
  }

  lemma SimilaritySymmetric(s1: string, s2: string)
    ensures Similarity(s1, s2) == Similarity(s2, s1)
  {
    DistanceSymmetric(s1, s2);
  }

  /** A score of 100 means the strings are equal, and equal strings (the
      empty one included) score 100. */
  lemma SimilarityPerfectIff(s1: string, s2: string)
    ensures Similarity(s1, s2) == 100.0 <==> s1 == s2
  {
    DistanceZeroIff(s1, s2);
    var maxLen := Max(|s1|, |s2|);
    if maxLen != 0 {
      DistanceBounds(s1, s2);
      Percentage(maxLen - EditDistance(s1, s2), maxLen);
    }
  }

  /** A non-empty string scores 0 against the empty string. */
  lemma SimilarityToEmpty(s: string)
    requires s != ""
    ensures Similarity(s, "") == 0.0 && Similarity("", s) == 0.0
  {
  }
}

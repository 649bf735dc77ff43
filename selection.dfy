/** "Best so far, first one wins ties": the selection rule that every
    matcher's loop implements with a strict `>` against a running best. */
module Selection {

  import opened Common

  /** `k` holds the largest score, and no earlier position holds it. */
  predicate IsFirstMax(s: seq<real>, k: int)
  {
    0 <= k < |s|
    && (forall j :: 0 <= j < |s| ==> s[j] <= s[k])
    && (forall j :: 0 <= j < k ==> s[j] < s[k])
  }

  /** The first position of the largest score, scanning from the front and
      replacing the candidate only on a strictly larger score. */
  function FirstMax(s: seq<real>): (k: nat)
    requires |s| > 0
    ensures IsFirstMax(s, k)
  {
    if |s| == 1 then 0
    else
      var k := FirstMax(s[..|s| - 1]);
      if s[|s| - 1] > s[k] then |s| - 1 else k
  }

  /** At most one position is the first maximum. */
  lemma FirstMaxUnique(s: seq<real>, k1: int, k2: int)
    requires IsFirstMax(s, k1) && IsFirstMax(s, k2)
    ensures k1 == k2
  {
    assert s[k1] == s[k2];
  }

  /** The first maximum when it reaches the threshold `t`, else nothing. */
  function BestAtLeast(s: seq<real>, t: real): (r: Option<nat>)
    ensures r.None? <==> forall j :: 0 <= j < |s| ==> s[j] < t
    ensures r.Some? ==> IsFirstMax(s, r.value) && s[r.value] >= t
  {
    if |s| > 0 && s[FirstMax(s)] >= t then Some(FirstMax(s)) else None
  }

  /** The outcome of a threshold scan: no position when every score is below
      `t`, otherwise the first maximum, which then reaches `t`. */
  lemma BestAtLeastIs(s: seq<real>, t: real, m: Option<nat>)
    requires m.None? ==> forall j :: 0 <= j < |s| ==> s[j] < t
    requires m.Some? ==> IsFirstMax(s, m.value) && s[m.value] >= t
    ensures BestAtLeast(s, t) == m
  {
    if m.Some? {
      FirstMaxUnique(s, FirstMax(s), m.value);
    }
  }
}

/** Character classes, lower-casing, `clean_text` and substring search, as the
    chatbot uses them before comparing strings. */
module Text {

  /** `str.lower()` on one character, restricted to ASCII letters. */
  function Lower(c: char): char
  {
    if 'A' <= c <= 'Z' then (c as int + 32) as char else c
  }

  /** A regular-expression word character (`\w`), restricted to ASCII. */
  predicate IsWordChar(c: char)
  {
    ('a' <= c <= 'z') || ('A' <= c <= 'Z') || ('0' <= c <= '9') || c == '_'
  }

  /** Whitespace as `\s` and `str.strip()` see it (the characters for which
      `str.isspace()` holds). */
  predicate IsSpace(c: char)
  {
    ('\t' <= c <= '\r') || ('\U{1c}' <= c <= ' ') || c == '\U{85}' || c == '\U{a0}'
    || c == '\U{1680}' || ('\U{2000}' <= c <= '\U{200a}') || c == '\U{2028}' || c == '\U{2029}'
    || c == '\U{202f}' || c == '\U{205f}' || c == '\U{3000}'
  }

  predicate IsLowered(s: string)
  {
    forall i :: 0 <= i < |s| ==> Lower(s[i]) == s[i]
  }

  /** `s.lower()`: maps every character and keeps the length. */
  function LowerStr(s: string): (r: string)
    ensures |r| == |s|
    ensures forall i :: 0 <= i < |s| ==> r[i] == Lower(s[i])
    ensures IsLowered(r)
  {
    if s == [] then [] else [Lower(s[0])] + LowerStr(s[1..])
  }

  lemma LowerStrOfLowered(s: string)
    requires IsLowered(s)
    ensures LowerStr(s) == s
  {
    assert forall i :: 0 <= i < |s| ==> LowerStr(s)[i] == s[i];
  }

  /** `re.sub(r"[^\w\s]", "", s)`: deletes every character that is neither a
      word character nor whitespace, keeping the others in order. */
  function RemoveNonWord(s: string): (r: string)
    ensures |r| <= |s|
    ensures forall i :: 0 <= i < |r| ==> IsWordChar(r[i]) || IsSpace(r[i])
    ensures IsLowered(s) ==> IsLowered(r)
  {
    if s == [] then []
    else if IsWordChar(s[0]) || IsSpace(s[0]) then [s[0]] + RemoveNonWord(s[1..])
    else RemoveNonWord(s[1..])
  }

  /** Every word and whitespace character of `s` is kept: it occurs in the
      result as often as in `s`. */
  lemma {:induction false} RemoveNonWordKeepsCounts(s: string)
    ensures forall c :: IsWordChar(c) || IsSpace(c) ==> multiset(RemoveNonWord(s))[c] == multiset(s)[c]
  {
    if s != [] {
      RemoveNonWordKeepsCounts(s[1..]);
      assert s == [s[0]] + s[1..];
    }
  }

  /** Deleting characters works piece by piece: the characters kept from
      `s + t` are those kept from `s` followed by those kept from `t`, so
      the kept characters stay in their original order. */
  lemma {:induction false} RemoveNonWordAppend(s: string, t: string)
    ensures RemoveNonWord(s + t) == RemoveNonWord(s) + RemoveNonWord(t)
  {
    if s != [] {
      var u := s + t;
      assert u[0] == s[0] && u[1..] == s[1..] + t;
      RemoveNonWordAppend(s[1..], t);
    } else {
      assert s + t == t;
    }
  }

  /** A single character is kept exactly when it is a word or whitespace
      character. */
  lemma RemoveNonWordSingle(c: char)
    ensures RemoveNonWord([c]) == if IsWordChar(c) || IsSpace(c) then [c] else []
  {
    assert [c][1..] == [];
  }

  /** A string with no character to delete comes back unchanged. */
  lemma {:induction false} RemoveNonWordKeepsClean(s: string)
    requires forall i :: 0 <= i < |s| ==> IsWordChar(s[i]) || IsSpace(s[i])
    ensures RemoveNonWord(s) == s
  {
    if s != [] {
      RemoveNonWordKeepsClean(s[1..]);
    }
  }

  /** Drops leading whitespace: the result is the suffix that starts at the
      first non-space character. */
  function TrimStart(s: string): (r: string)
    ensures |r| <= |s| && r == s[|s| - |r|..]
    ensures forall i :: 0 <= i < |s| - |r| ==> IsSpace(s[i])
    ensures r == [] || !IsSpace(r[0])
  {
    if s != [] && IsSpace(s[0]) then TrimStart(s[1..]) else s
  }

  /** Drops trailing whitespace: the result is the prefix that ends at the
      last non-space character. */
  function TrimEnd(s: string): (r: string)
    ensures |r| <= |s| && r == s[..|r|]
    ensures forall i :: |r| <= i < |s| ==> IsSpace(s[i])
    ensures r == [] || !IsSpace(r[|r| - 1])
  {
    if s != [] && IsSpace(s[|s| - 1]) then TrimEnd(s[..|s| - 1]) else s
  }

  /** `r` is `s` with only whitespace removed, and only before position
      `lo` and after the end of `r`. */
  predicate StrippedAt(s: string, r: string, lo: int)
  {
    OccursAt(s, r, lo)
    && (forall i :: 0 <= i < lo ==> IsSpace(s[i]))
    && (forall i :: lo + |r| <= i < |s| ==> IsSpace(s[i]))
  }

  /** `s.strip()`: the slice of `s` left after dropping whitespace at both
      ends, which starts and ends with a non-space character. */
  function Strip(s: string): (r: string)
    ensures r == [] || (!IsSpace(r[0]) && !IsSpace(r[|r| - 1]))
    ensures exists lo :: StrippedAt(s, r, lo)
  {
    TrimmedIsStripped(s);
    TrimEnd(TrimStart(s))
  }

  /** Trimming both ends removes whitespace only, and only at the ends. */
  lemma TrimmedIsStripped(s: string)
    ensures StrippedAt(s, TrimEnd(TrimStart(s)), |s| - |TrimStart(s)|)
  {
    PrefixOfSuffix(s, TrimStart(s), TrimEnd(TrimStart(s)));
  }

  /** Leading whitespace cut from `s` leaves `t`, and trailing whitespace
      cut from `t` leaves `r`: then `r` is `s` stripped. */
  lemma PrefixOfSuffix(s: string, t: string, r: string)
    requires |t| <= |s| && t == s[|s| - |t|..]
    requires forall i :: 0 <= i < |s| - |t| ==> IsSpace(s[i])
    requires |r| <= |t| && r == t[..|r|]
    requires forall i :: |r| <= i < |t| ==> IsSpace(t[i])
    ensures StrippedAt(s, r, |s| - |t|)
  {
    var lo := |s| - |t|;
    forall k | 0 <= k < |r|
      ensures r[k] == s[lo + k]
    {
      assert r[k] == t[k];
    }
    assert s[lo..lo + |r|] == r;
    forall i | lo + |r| <= i < |s|
      ensures IsSpace(s[i])
    {
      assert s[i] == t[i - lo];
    }
  }

  /** `clean_text` (app.py:72-73): lower-case, delete punctuation and
      symbols, strip the ends. */
  function CleanText(text: string): (r: string)
    ensures forall i :: 0 <= i < |r| ==> IsWordChar(r[i]) || IsSpace(r[i])
    ensures IsLowered(r)
    ensures r == [] || (!IsSpace(r[0]) && !IsSpace(r[|r| - 1]))
  {
    var kept := RemoveNonWord(LowerStr(text));
    var r := Strip(kept);
    SliceKeepsClasses(kept, r);
    r
  }

  /** A slice of a string keeps every character property the whole string has. */
  lemma SliceKeepsClasses(s: string, r: string)
    requires exists lo :: StrippedAt(s, r, lo)
    ensures (forall i :: 0 <= i < |s| ==> IsWordChar(s[i]) || IsSpace(s[i]))
            ==> (forall i :: 0 <= i < |r| ==> IsWordChar(r[i]) || IsSpace(r[i]))
    ensures IsLowered(s) ==> IsLowered(r)
  {
    var lo :| StrippedAt(s, r, lo);
    assert forall i :: 0 <= i < |r| ==> r[i] == s[lo + i];
  }

  /** Stripping keeps every non-space character: the count of each one is
      the same before and after. */
  lemma StripKeepsNonSpace(s: string, r: string, lo: int)
    requires StrippedAt(s, r, lo)
    ensures forall c :: !IsSpace(c) ==> multiset(r)[c] == multiset(s)[c]
  {
    assert s == s[..lo] + r + s[lo + |r|..];
    forall c | !IsSpace(c)
      ensures multiset(r)[c] == multiset(s)[c]
    {
      assert c !in s[..lo];
      assert c !in s[lo + |r|..];
      assert multiset(s) == multiset(s[..lo]) + multiset(r) + multiset(s[lo + |r|..]);
    }
  }

  /** `clean_text` loses no word character: each occurs in the result as
      often as in the lower-cased input. */
  lemma CleanTextKeepsWords(text: string)
    ensures forall c :: IsWordChar(c) ==> multiset(CleanText(text))[c] == multiset(LowerStr(text))[c]
  {
    var kept := RemoveNonWord(LowerStr(text));
    var r := Strip(kept);
    var lo :| StrippedAt(kept, r, lo);
    StripKeepsNonSpace(kept, r, lo);
    RemoveNonWordKeepsCounts(LowerStr(text));
    forall c | IsWordChar(c)
      ensures !IsSpace(c)
    {
    }
  }

  /** Cleaning twice is cleaning once. */
  lemma CleanTextIdempotent(text: string)
    ensures CleanText(CleanText(text)) == CleanText(text)
  {
    var y := CleanText(text);
    LowerStrOfLowered(y);
    RemoveNonWordKeepsClean(y);
    assert TrimStart(y) == y;
    assert TrimEnd(y) == y;
  }

  /** `s` has `k` starting at position `i`. */
  predicate OccursAt(s: string, k: string, i: int)
  {
    0 <= i && i + |k| <= |s| && s[i..i + |k|] == k
  }

  /** Python's `k in s` on strings: `k` is a contiguous substring of `s`. */
  function Contains(s: string, k: string): bool
    decreases |s|
  {
    if |k| <= |s| && s[..|k|] == k then true
    else if s == [] then false
    else Contains(s[1..], k)
  }

  lemma {:induction false} ContainsIff(s: string, k: string)
    ensures Contains(s, k) <==> exists i :: OccursAt(s, k, i)
    decreases |s|
  {
    if |k| <= |s| && s[..|k|] == k {
      assert OccursAt(s, k, 0);
    } else if s == [] {
      assert forall i :: !OccursAt(s, k, i);
    } else {
      ContainsIff(s[1..], k);
      if Contains(s[1..], k) {
        var i :| OccursAt(s[1..], k, i);
        assert s[1..][i..i + |k|] == s[i + 1..i + 1 + |k|];
        assert OccursAt(s, k, i + 1);
      } else {
        forall i | OccursAt(s, k, i)
          ensures OccursAt(s[1..], k, i - 1)
        {
          assert s[1..][i - 1..i - 1 + |k|] == s[i..i + |k|];
        }
      }
    }
  }
}

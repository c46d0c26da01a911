/**
 The two pieces of Java string behaviour the grocery handlers rely on:
 `String.trim()`, applied to every text field before it is used, and
 `String.equalsIgnoreCase`, used to detect a duplicate product name.
 Case mapping is restricted to ASCII letters.
 */
module Text {

  /** `trim()` treats every char at or below U+0020 as removable. */
  predicate IsBlank(c: char) {
    c <= ' '
  }

  predicate AllBlank(s: string) {
    forall k :: 0 <= k < |s| ==> IsBlank(s[k])
  }

  /** A string that `trim()` leaves as it is. */
  predicate IsTrimmed(s: string) {
    s == [] || (!IsBlank(s[0]) && !IsBlank(s[|s| - 1]))
  }

  /** The number of blanks `s` starts with: all of them blank, and the char after them is not. */
  function LeadingBlanks(s: string): (n: nat)
    ensures n <= |s|
    ensures forall k :: 0 <= k < n ==> IsBlank(s[k])
    ensures n < |s| ==> !IsBlank(s[n])
  {
    if s != [] && IsBlank(s[0]) then 1 + LeadingBlanks(s[1..]) else 0
  }

  /** The number of blanks `s` ends with: all of them blank, and the char before them is not. */
  function TrailingBlanks(s: string): (n: nat)
    ensures n <= |s|
    ensures forall k :: |s| - n <= k < |s| ==> IsBlank(s[k])
    ensures n < |s| ==> !IsBlank(s[|s| - n - 1])
  {
    if s != [] && IsBlank(s[|s| - 1]) then 1 + TrailingBlanks(s[..|s| - 1]) else 0
  }

  /** Java's `String.trim()`: the text between the leading and the trailing blanks. */
  function Trim(s: string): (r: string)
    ensures IsTrimmed(r)
    ensures |r| <= |s|
    ensures r == [] <==> AllBlank(s)
  {
    var front := s[LeadingBlanks(s)..];
    front[..|front| - TrailingBlanks(front)]
  }

  lemma {:induction false} LeadingBlanksOfPadded(pad: string, s: string)
    requires AllBlank(pad)
    requires s == [] || !IsBlank(s[0])
    ensures LeadingBlanks(pad + s) == |pad|
    decreases |pad|
  {
    if pad != [] {
      assert (pad + s)[1..] == pad[1..] + s;
      LeadingBlanksOfPadded(pad[1..], s);
    } else {
      assert pad + s == s;
    }
  }

  lemma {:induction false} TrailingBlanksOfPadded(s: string, pad: string)
    requires AllBlank(pad)
    requires s == [] || !IsBlank(s[|s| - 1])
    ensures TrailingBlanks(s + pad) == |pad|
    decreases |pad|
  {
    if pad != [] {
      assert (s + pad)[..|s + pad| - 1] == s + pad[..|pad| - 1];
      TrailingBlanksOfPadded(s, pad[..|pad| - 1]);
    } else {
      assert s + pad == s;
    }
  }

  /** Trimming removes exactly the blank padding around a trimmed text, whatever that padding is. */
  lemma TrimRemovesPadding(before: string, s: string, after: string)
    requires AllBlank(before) && AllBlank(after)
    requires IsTrimmed(s)
    ensures Trim(before + s + after) == s
  {
    if s == [] {
      assert before + s + after == before + after;
      assert AllBlank(before + after) by {
        forall k | 0 <= k < |before + after|
          ensures IsBlank((before + after)[k])
        {
          if k >= |before| {
            assert (before + after)[k] == after[k - |before|];
          }
        }
      }
    } else {
      var all := before + s + after;
      assert all == before + (s + after);
      LeadingBlanksOfPadded(before, s + after);
      assert all[|before|..] == s + after;
      TrailingBlanksOfPadded(s, after);
    }
  }

  /** Trimming leaves an already trimmed text as it is. */
  lemma TrimOfTrimmed(s: string)
    requires IsTrimmed(s)
    ensures Trim(s) == s
  {
    TrimRemovesPadding([], s, []);
    assert [] + s + [] == s;
  }

  /** Trimming twice is the same as trimming once. */
  lemma TrimIdempotent(s: string)
    ensures Trim(Trim(s)) == Trim(s)
  {
    TrimOfTrimmed(Trim(s));
  }

  function UpperChar(c: char): (u: char)
  {
    if 'a' <= c <= 'z' then (c as int - 32) as char else c
  }

  function LowerChar(c: char): (l: char)
  {
    if 'A' <= c <= 'Z' then (c as int + 32) as char else c
  }

  /**
   The per-character test of `String.regionMatches(true, ...)`, on which
   `equalsIgnoreCase` is built: equal chars, equal upper cases, or equal
   lower cases of the upper cases.
   */
  predicate CharsMatchIgnoringCase(c1: char, c2: char) {
    c1 == c2 || UpperChar(c1) == UpperChar(c2) || LowerChar(UpperChar(c1)) == LowerChar(UpperChar(c2))
  }

  /** Java's algorithm for `a.equalsIgnoreCase(b)`: same length, and every position matches ignoring case. */
  predicate RegionMatchesIgnoreCase(a: string, b: string) {
    |a| == |b| && forall k :: 0 <= k < |a| ==> CharsMatchIgnoringCase(a[k], b[k])
  }

  /** Case folding to lower case, the canonical form under which names compare. */
  function Lower(s: string): string {
    seq(|s|, k requires 0 <= k < |s| => LowerChar(s[k]))
  }

  /**
   `a.equalsIgnoreCase(b)`, stated as equality of the case-folded strings;
   `EqualsIgnoreCaseIsRegionMatch` shows this is Java's char-by-char test.
   */
  predicate EqualsIgnoreCase(a: string, b: string) {
    Lower(a) == Lower(b)
  }

  lemma CharsMatchIffSameLower(c1: char, c2: char)
    ensures CharsMatchIgnoringCase(c1, c2) <==> LowerChar(c1) == LowerChar(c2)
  {
  }

  /** Java's char-by-char test holds exactly when both strings fold to the same lower-case string. */
  lemma EqualsIgnoreCaseIsRegionMatch(a: string, b: string)
    ensures RegionMatchesIgnoreCase(a, b) <==> EqualsIgnoreCase(a, b)
  {
    if RegionMatchesIgnoreCase(a, b) {
      forall k | 0 <= k < |a|
        ensures Lower(a)[k] == Lower(b)[k]
      {
        CharsMatchIffSameLower(a[k], b[k]);
      }
    }
    if EqualsIgnoreCase(a, b) {
      assert |a| == |Lower(a)|;
      forall k | 0 <= k < |a|
        ensures CharsMatchIgnoringCase(a[k], b[k])
      {
        assert Lower(a)[k] == Lower(b)[k];
        CharsMatchIffSameLower(a[k], b[k]);
      }
    }
  }

  /** Every string equals itself ignoring case. */
  lemma EqualsIgnoreCaseReflexive(a: string)
    ensures EqualsIgnoreCase(a, a)
  {
  }
}

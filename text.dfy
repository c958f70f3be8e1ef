/**
 The string operations the question-answering service applies to questions
 and answers: Python's `str.strip()`, `str.lower()` and
 `str.replace('-', ' ')`, over Dafny's `string` (a sequence of characters).
 */
module Text {

  /** Python's `str.isspace` for a single character: the code points that
      `str.strip()` with no argument removes. */
  predicate IsSpace(c: char) {
    var n := c as int;
    || 9 <= n <= 13          // \t \n \v \f \r
    || 28 <= n <= 32         // the four ASCII separators and the space
    || n == 0x85 || n == 0xA0 || n == 0x1680
    || 0x2000 <= n <= 0x200A
    || n == 0x2028 || n == 0x2029 || n == 0x202F || n == 0x205F || n == 0x3000
  }

  /** Every character of `s` in `[lo, hi)` is whitespace. */
  predicate SpaceBetween(s: string, lo: int, hi: int)
    requires 0 <= lo && hi <= |s|
  {
    forall k :: lo <= k < hi ==> IsSpace(s[k])
  }

  predicate AllSpace(s: string) {
    SpaceBetween(s, 0, |s|)
  }

  /** Neither begins nor ends with whitespace (what `strip` produces). */
  predicate Trimmed(s: string) {
    s == [] || (!IsSpace(s[0]) && !IsSpace(s[|s| - 1]))
  }

  /** `r` occurs in `s` at index `i` with nothing but whitespace before and
      after it. */
  predicate PaddedAt(s: string, i: int, r: string) {
    && 0 <= i && i + |r| <= |s|
    && s[i..i + |r|] == r
    && SpaceBetween(s, 0, i)
    && SpaceBetween(s, i + |r|, |s|)
  }

  ghost predicate PaddedBy(s: string, r: string) {
    exists i :: PaddedAt(s, i, r)
  }

  /** How many whitespace characters `s` begins with. */
  function LeadingSpaces(s: string): (n: nat)
    ensures n <= |s| && SpaceBetween(s, 0, n)
    ensures n < |s| ==> !IsSpace(s[n])
  {
    if |s| > 0 && IsSpace(s[0]) then 1 + LeadingSpaces(s[1..]) else 0
  }

  /** How many whitespace characters `s` ends with. */
  function TrailingSpaces(s: string): (n: nat)
    ensures n <= |s| && SpaceBetween(s, |s| - n, |s|)
    ensures n < |s| ==> !IsSpace(s[|s| - n - 1])
  {
    if |s| > 0 && IsSpace(s[|s| - 1]) then 1 + TrailingSpaces(s[..|s| - 1]) else 0
  }

  /** `str.strip()`: the result is trimmed and is what is left of `s` once
      the whitespace on both sides is cut away. */
  function Strip(s: string): (r: string)
    ensures Trimmed(r)
    ensures PaddedBy(s, r)
  {
    var i := LeadingSpaces(s);
    if i == |s| then
      assert PaddedAt(s, i, []);
      []
    else
      var j := |s| - TrailingSpaces(s);
      // s[i] is not whitespace, so the trailing run ends after it
      assert i < j;
      assert PaddedAt(s, i, s[i..j]);
      s[i..j]
  }

  /** Where a trimmed, non-empty `r` sits in a string that pads it. */
  lemma PaddedAtFirstNonSpace(s: string, i: int, r: string, i': int, r': string)
    requires Trimmed(r) && Trimmed(r') && r != [] && r' != []
    requires PaddedAt(s, i, r) && PaddedAt(s, i', r')
    ensures i == i' && |r| == |r'|
  {
    assert s[i] == r[0] && s[i'] == r'[0];
    assert s[i + |r| - 1] == r[|r| - 1] && s[i' + |r'| - 1] == r'[|r'| - 1];
  }

  /** The trimmed core of a string is unique: any trimmed `r` that `s`
      pads with whitespace only is `Strip(s)`. */
  lemma StripUnique(s: string, r: string)
    requires Trimmed(r) && PaddedBy(s, r)
    ensures Strip(s) == r
  {
    var r' := Strip(s);
    var i :| PaddedAt(s, i, r);
    var i' :| PaddedAt(s, i', r');
    if r == [] {
      // every character of s is whitespace, so Strip keeps none of them
      if r' != [] { assert false; }
    } else if r' == [] {
      assert false;
    } else {
      PaddedAtFirstNonSpace(s, i, r, i', r');
    }
  }

  /** Whitespace around a string does not change what `strip` keeps. */
  lemma StripIgnoresPadding(before: string, s: string, after: string)
    requires AllSpace(before) && AllSpace(after)
    ensures Strip(before + s + after) == Strip(s)
  {
    var r := Strip(s);
    var i :| PaddedAt(s, i, r);
    var t := before + s + after;
    var n := |before| + i;
    assert t[n..n + |r|] == s[i..i + |r|];
    assert SpaceBetween(t, 0, n) by {
      forall k | 0 <= k < n ensures IsSpace(t[k]) {
        if k < |before| { assert t[k] == before[k]; } else { assert t[k] == s[k - |before|]; }
      }
    }
    assert SpaceBetween(t, n + |r|, |t|) by {
      forall k | n + |r| <= k < |t| ensures IsSpace(t[k]) {
        if k < |before| + |s| { assert t[k] == s[k - |before|]; } else { assert t[k] == after[k - |before| - |s|]; }
      }
    }
    assert PaddedAt(t, n, r);
    StripUnique(t, r);
  }

  /** `strip` is idempotent. */
  lemma StripIdempotent(s: string)
    ensures Strip(Strip(s)) == Strip(s)
  {
    var r := Strip(s);
    assert PaddedAt(r, 0, r);
    StripUnique(r, r);
  }

  /** One character of `str.lower()`, restricted to ASCII: `A`..`Z` become
      `a`..`z`; every other character is kept. */
  function LowerChar(c: char): char {
    if 'A' <= c <= 'Z' then (c as int + 32) as char else c
  }

  /** `str.lower()`: each character lowered where it stands. */
  function Lower(s: string): (r: string)
    ensures |r| == |s|
    ensures forall k {:trigger r[k]} :: 0 <= k < |s| ==> r[k] == LowerChar(s[k])
  {
    if s == [] then [] else [LowerChar(s[0])] + Lower(s[1..])
  }

  /** No upper-case ASCII letter is left. */
  predicate NoUpper(s: string) {
    forall k :: 0 <= k < |s| ==> !('A' <= s[k] <= 'Z')
  }

  /** `t` and `u` are the same string up to ASCII letter case. */
  predicate SameUpToCase(t: string, u: string) {
    |t| == |u| && forall k :: 0 <= k < |t| ==> LowerChar(t[k]) == LowerChar(u[k])
  }

  lemma LowerProperties(s: string)
    ensures NoUpper(Lower(s))
    ensures Lower(Lower(s)) == Lower(s)
    ensures SameUpToCase(s, Lower(s))
  {
  }

  /** Lowering never turns a space into a non-space or back. */
  lemma LowerCharKeepsSpace(c: char)
    ensures IsSpace(LowerChar(c)) <==> IsSpace(c)
  {
  }

  /** The question key of the lookup table: `s.strip().lower()`. */
  function Normalize(s: string): (r: string)
    ensures Trimmed(r) && NoUpper(r)
    ensures |r| <= |s|
  {
    Lower(Strip(s))
  }

  /** Lowering keeps whitespace padding where it is. */
  lemma LowerPadded(s: string, i: int, r: string)
    requires PaddedAt(s, i, r)
    ensures PaddedAt(Lower(s), i, Lower(r))
  {
    var l := Lower(s);
    assert l[i..i + |r|] == Lower(r);
    forall k | 0 <= k < |s| ensures IsSpace(l[k]) <==> IsSpace(s[k]) {
      LowerCharKeepsSpace(s[k]);
    }
  }

  /** Cutting whitespace and lowering commute. */
  lemma NormalizeLowerFirst(s: string)
    ensures Normalize(s) == Strip(Lower(s))
  {
    var r := Strip(s);
    var i :| PaddedAt(s, i, r);
    LowerPadded(s, i, r);
    StripUnique(Lower(s), Normalize(s));
  }

  /** Two questions that differ only in ASCII letter case and in the
      whitespace around them have the same key. */
  lemma {:induction false} NormalizeIgnoresCaseAndPadding(before: string, t: string, after: string, u: string)
    requires AllSpace(before) && AllSpace(after)
    requires SameUpToCase(t, u)
    ensures Normalize(before + t + after) == Normalize(u)
  {
    StripIgnoresPadding(before, t, after);
    NormalizeLowerFirst(t);
    NormalizeLowerFirst(u);
    assert Lower(t) == Lower(u);
  }

  /** `str.replace('-', ' ')`: every hyphen becomes a space and every other
      character stays where it is. */
  function ReplaceHyphens(s: string): (r: string)
    ensures |r| == |s|
    ensures forall k :: 0 <= k < |s| ==> r[k] == if s[k] == '-' then ' ' else s[k]
    ensures '-' !in r
  {
    if s == [] then [] else [if s[0] == '-' then ' ' else s[0]] + ReplaceHyphens(s[1..])
  }

  /** A string without hyphens is left as it is; in particular the
      replacement is idempotent. */
  lemma ReplaceHyphensIdentity(s: string)
    requires '-' !in s
    ensures ReplaceHyphens(s) == s
  {
    var r := ReplaceHyphens(s);
    assert forall k :: 0 <= k < |s| ==> r[k] == s[k];
  }
}

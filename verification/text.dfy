/**
 * The Python string primitives the backend relies on: `in`, `str.split`,
 * `str.lower` and `str.strip`, over strings as sequences of characters.
 */
module Text {
  import opened Wrappers

  // ---------------------------------------------------------------------
  // Substring search
  // ---------------------------------------------------------------------

  /** `pat` occurs in `s` starting at index `i`. */
  predicate OccursAt(s: string, pat: string, i: nat) {
    i + |pat| <= |s| && s[i..i + |pat|] == pat
  }

  /** Python's `pat in s`. */
  predicate Contains(s: string, pat: string) {
    exists i: nat | i <= |s| :: OccursAt(s, pat, i)
  }

  /** Index of the first occurrence of `pat` in `s` at or after `from`. */
  function Find(s: string, pat: string, from: nat): (r: Option<nat>)
    decreases |s| - from
    ensures r.Some? ==> from <= r.value && OccursAt(s, pat, r.value)
    ensures r.Some? ==> forall j: nat :: from <= j < r.value ==> !OccursAt(s, pat, j)
    ensures r.None? ==> forall j: nat :: from <= j ==> !OccursAt(s, pat, j)
  {
    if from + |pat| > |s| then None
    else if OccursAt(s, pat, from) then Some(from)
    else Find(s, pat, from + 1)
  }

  lemma FindFromStart(s: string, pat: string)
    ensures Find(s, pat, 0).Some? <==> Contains(s, pat)
  {
  }

  /** An occurrence inside a slice is an occurrence in the whole string, shifted. */
  lemma OccursInSlice(s: string, pat: string, a: nat, b: nat, q: nat)
    requires a <= b <= |s|
    ensures OccursAt(s[a..b], pat, q) <==> (a + q + |pat| <= b && OccursAt(s, pat, a + q))
  {
    if a + q + |pat| <= b {
      var t := s[a..b];
      var u := t[q..q + |pat|];
      var v := s[a + q..a + q + |pat|];
      forall k | 0 <= k < |u|
        ensures u[k] == v[k]
      {
        assert u[k] == t[q + k] == s[a + q + k];
      }
      assert u == v;
    }
  }

  /** A pattern absent from a string is absent from every slice of it. */
  lemma {:induction false} NotContainedInSlice(s: string, pat: string, a: nat, b: nat)
    requires a <= b <= |s|
    requires !Contains(s, pat)
    ensures !Contains(s[a..b], pat)
  {
    forall q: nat | q <= |s[a..b]|
      ensures !OccursAt(s[a..b], pat, q)
    {
      OccursInSlice(s, pat, a, b, q);
    }
  }

  /** The text before the first occurrence of a non-empty pattern does not contain it. */
  lemma {:induction false} NoneBefore(s: string, pat: string, i: nat)
    requires i <= |s|
    requires forall j: nat :: j < i ==> !OccursAt(s, pat, j)
    ensures |pat| > 0 ==> !Contains(s[..i], pat)
  {
    forall q: nat | q <= i && |pat| > 0
      ensures !OccursAt(s[..i], pat, q)
    {
      OccursInSlice(s, pat, 0, i, q);
    }
  }

  /**
   * Python's `s.split(sep)[0]`: the longest prefix of `s` that stops at the
   * first `sep`, or all of `s` when there is none.
   */
  function SplitFirst(s: string, sep: string): (r: string)
    ensures |r| <= |s| && r == s[..|r|]
    ensures Contains(s, sep) ==> OccursAt(s, sep, |r|)
    ensures !Contains(s, sep) ==> r == s
    ensures forall j: nat :: j < |r| ==> !OccursAt(s, sep, j)
    ensures |sep| > 0 ==> !Contains(r, sep)
  {
    FindFromStart(s, sep);
    match Find(s, sep, 0)
    case None =>
      assert s == s[..|s|];
      s
    case Some(i) =>
      NoneBefore(s, sep, i);
      s[..i]
  }

  /**
   * Python's `s.split(sep)[1]`: the text that starts right after the first
   * `sep` and runs up to the next `sep`, or to the end when there is none.
   */
  function SplitSecond(s: string, sep: string): (r: string)
    requires Contains(s, sep)
    ensures Find(s, sep, 0).Some?
    ensures var j := Find(s, sep, 0).value + |sep|;
      && j + |r| <= |s| && r == s[j..j + |r|]
      && (j + |r| == |s| || OccursAt(s, sep, j + |r|))
      && forall q: nat :: j <= q < j + |r| ==> !OccursAt(s, sep, q)
  {
    FindFromStart(s, sep);
    var i := Find(s, sep, 0).value;
    var j := i + |sep|;
    match Find(s, sep, j)
    case None => s[j..]
    case Some(k) => s[j..k]
  }

  /** A string that contains `pat` at some index contains it. */
  lemma OccursAtContains(s: string, pat: string, i: nat)
    requires OccursAt(s, pat, i)
    ensures Contains(s, pat)
  {
  }

  /** A prefix of a pattern occurs wherever the pattern does. */
  lemma ContainsPrefixOfPattern(s: string, pat: string, n: nat)
    requires n <= |pat|
    requires Contains(s, pat)
    ensures Contains(s, pat[..n])
  {
    var i: nat :| i <= |s| && OccursAt(s, pat, i);
    assert s[i..i + n] == s[i..i + |pat|][..n];
    assert OccursAt(s, pat[..n], i);
  }

  // ---------------------------------------------------------------------
  // Case mapping
  // ---------------------------------------------------------------------

  /** `str.lower` on one character, for the ASCII letters. */
  function LowerChar(c: char): char {
    if 'A' <= c <= 'Z' then (c as int + 32) as char else c
  }

  /** `str.lower`, character by character. */
  function Lower(s: string): (r: string)
    ensures |r| == |s|
    ensures forall i :: 0 <= i < |s| ==> r[i] == LowerChar(s[i])
    ensures forall i :: 0 <= i < |r| ==> !('A' <= r[i] <= 'Z')
    ensures forall i :: 0 <= i < |s| && !('A' <= s[i] <= 'Z') ==> r[i] == s[i]
    ensures forall i :: 0 <= i < |s| && 'A' <= s[i] <= 'Z' ==> r[i] as int == s[i] as int + 32
  {
    seq(|s|, i requires 0 <= i < |s| => LowerChar(s[i]))
  }

  lemma LowerIdempotent(s: string)
    ensures Lower(Lower(s)) == Lower(s)
  {
  }

  lemma LowerSuffix(s: string, a: nat)
    requires a <= |s|
    ensures Lower(s)[a..] == Lower(s[a..])
  {
  }

  // ---------------------------------------------------------------------
  // Whitespace stripping
  // ---------------------------------------------------------------------

  /** Python's `str.isspace` for one character. */
  predicate IsSpace(c: char) {
    var x := c as int;
    || (0x09 <= x <= 0x0D)
    || (0x1C <= x <= 0x20)
    || x == 0x85 || x == 0xA0 || x == 0x1680
    || (0x2000 <= x <= 0x200A)
    || x == 0x2028 || x == 0x2029 || x == 0x202F || x == 0x205F || x == 0x3000
  }

  /** `str.lstrip()`: the suffix left after dropping leading whitespace. */
  function StripStart(s: string): (r: string)
    ensures |r| <= |s| && r == s[|s| - |r|..]
    ensures forall k :: 0 <= k < |s| - |r| ==> IsSpace(s[k])
    ensures r == [] || !IsSpace(r[0])
  {
    if |s| > 0 && IsSpace(s[0]) then StripStart(s[1..]) else s
  }

  /** `str.rstrip()`: the prefix left after dropping trailing whitespace. */
  function StripEnd(s: string): (r: string)
    ensures |r| <= |s| && r == s[..|r|]
    ensures forall k :: |r| <= k < |s| ==> IsSpace(s[k])
    ensures r == [] || !IsSpace(r[|r| - 1])
  {
    if |s| > 0 && IsSpace(s[|s| - 1]) then StripEnd(s[..|s| - 1]) else s
  }

  /** A string with no whitespace at either end. */
  predicate Trimmed(s: string) {
    s == [] || (!IsSpace(s[0]) && !IsSpace(s[|s| - 1]))
  }

  /** `r` is the slice of `s` that starts at index `a`. */
  predicate SliceAt(r: string, s: string, a: nat) {
    a + |r| <= |s| && s[a..a + |r|] == r
  }

  /**
   * `r` is the slice of `s` at index `a`, and everything of `s` before and
   * after that slice is whitespace.
   */
  predicate StrippedAt(r: string, s: string, a: nat) {
    && SliceAt(r, s, a)
    && (forall k :: 0 <= k < a ==> IsSpace(s[k]))
    && (forall k :: a + |r| <= k < |s| ==> IsSpace(s[k]))
  }

  /** `str.strip()`: drops whitespace at both ends and keeps the middle intact. */
  function Strip(s: string): (r: string)
    ensures Trimmed(r)
    ensures exists a: nat :: StrippedAt(r, s, a)
  {
    StripBothEnds(s);
    StripEnd(StripStart(s))
  }

  /** Dropping leading and then trailing whitespace leaves a slice framed by whitespace. */
  lemma StripBothEnds(s: string)
    ensures StrippedAt(StripEnd(StripStart(s)), s, |s| - |StripStart(s)|)
  {
    var t := StripStart(s);
    var r := StripEnd(t);
    var a := |s| - |t|;
    assert SliceAt(r, s, a) by {
      assert s[a..a + |r|] == t[..|r|];
    }
    assert forall k :: a + |r| <= k < |s| ==> IsSpace(s[k]) by {
      assert forall k :: a + |r| <= k < |s| ==> s[k] == t[k - a];
    }
  }

  /** Stripping a string that is already trimmed changes nothing. */
  lemma StripTrimmed(s: string)
    requires Trimmed(s)
    ensures Strip(s) == s
  {
  }

  lemma StripIdempotent(s: string)
    ensures Strip(Strip(s)) == Strip(s)
  {
  }

  /** Stripping never introduces a pattern absent from its input. */
  lemma StripKeepsAbsent(s: string, pat: string)
    requires !Contains(s, pat)
    ensures !Contains(Strip(s), pat)
  {
    var r := Strip(s);
    var a: nat :| StrippedAt(r, s, a);
    NotContainedInSlice(s, pat, a, a + |r|);
  }
}

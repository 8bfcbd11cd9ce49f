/**
 * Word normalisation applied to every guess: Python's `word.lower().strip()`.
 * Lower-casing is modelled on ASCII letters; stripping removes every code point
 * for which Python's `str.isspace()` holds, from both ends.
 */
module Text {

  /** The code points Python's `str.isspace()` accepts (the ones `str.strip()` removes). */
  predicate IsSpace(c: char) {
    var n := c as int;
    (0x09 <= n <= 0x0D) || (0x1C <= n <= 0x20) || n == 0x85 || n == 0xA0 || n == 0x1680
    || (0x2000 <= n <= 0x200A) || n == 0x2028 || n == 0x2029 || n == 0x202F
    || n == 0x205F || n == 0x3000
  }

  predicate IsUpper(c: char) {
    'A' <= c <= 'Z'
  }

  /** `str.lower()` on one character, for the ASCII upper-case letters. */
  function LowerChar(c: char): (d: char)
    ensures !IsUpper(d)
    ensures IsSpace(d) == IsSpace(c)
    ensures IsUpper(c) ==> d as int == c as int + 32
    ensures !IsUpper(c) ==> d == c
  {
    if IsUpper(c) then (c as int + 32) as char else c
  }

  /** `str.lower()`: every character lowered, length kept. */
  function Lower(s: string): string {
    seq(|s|, i requires 0 <= i < |s| => LowerChar(s[i]))
  }

  /** The number of whitespace characters `str.lstrip()` removes: the longest all-space prefix. */
  function LeadingSpaces(s: string): (n: nat)
    ensures n <= |s|
    decreases |s|
  {
    if |s| > 0 && IsSpace(s[0]) then 1 + LeadingSpaces(s[1..]) else 0
  }

  /** `lstrip` removes only whitespace, and stops at the first non-space character. */
  lemma {:induction false} LeadingSpacesSpec(s: string)
    ensures forall k :: 0 <= k < LeadingSpaces(s) ==> IsSpace(s[k])
    ensures LeadingSpaces(s) < |s| ==> !IsSpace(s[LeadingSpaces(s)])
    decreases |s|
  {
    if |s| > 0 && IsSpace(s[0]) {
      LeadingSpacesSpec(s[1..]);
      assert forall k :: 1 <= k < |s| ==> s[k] == s[1..][k - 1];
    }
  }

  /** The number of whitespace characters `str.rstrip()` removes: the longest all-space suffix. */
  function TrailingSpaces(s: string): (n: nat)
    ensures n <= |s|
    decreases |s|
  {
    if |s| > 0 && IsSpace(s[|s| - 1]) then 1 + TrailingSpaces(s[..|s| - 1]) else 0
  }

  /** `rstrip` removes only whitespace, and stops at the last non-space character. */
  lemma {:induction false} TrailingSpacesSpec(s: string)
    ensures forall k :: |s| - TrailingSpaces(s) <= k < |s| ==> IsSpace(s[k])
    ensures TrailingSpaces(s) < |s| ==> !IsSpace(s[|s| - TrailingSpaces(s) - 1])
    decreases |s|
  {
    if |s| > 0 && IsSpace(s[|s| - 1]) {
      TrailingSpacesSpec(s[..|s| - 1]);
      assert forall k :: 0 <= k < |s| - 1 ==> s[k] == s[..|s| - 1][k];
    }
  }

  /** `str.lstrip()`. */
  function TrimStart(s: string): string {
    s[LeadingSpaces(s)..]
  }

  /** `str.rstrip()`. */
  function TrimEnd(s: string): string {
    s[..|s| - TrailingSpaces(s)]
  }

  /** `str.strip()`. */
  function Strip(s: string): string {
    TrimEnd(TrimStart(s))
  }

  /** The normalisation of a raw guess: `word.lower().strip()`. */
  function Normalize(raw: string): string {
    Strip(Lower(raw))
  }

  /** A guess word as the store keeps it: normalised and at least two characters long. */
  predicate IsGuessWord(w: string) {
    |w| >= 2 && Normalize(w) == w
  }

  /** What `strip()` keeps is the slice of its input that starts after the leading whitespace. */
  lemma StripIsSlice(s: string)
    ensures LeadingSpaces(s) + |Strip(s)| <= |s|
    ensures Strip(s) == s[LeadingSpaces(s)..LeadingSpaces(s) + |Strip(s)|]
  {
    var lo := LeadingSpaces(s);
    var t := s[lo..];
    var r := t[..|t| - TrailingSpaces(t)];
    assert Strip(s) == r;
    assert r == s[lo..lo + |r|];
  }

  /** Everything `strip()` cuts off after the kept slice is whitespace. */
  lemma StripCutsTrailingSpace(s: string)
    ensures forall k :: LeadingSpaces(s) + |Strip(s)| <= k < |s| ==> IsSpace(s[k])
  {
    var lo := LeadingSpaces(s);
    var t := s[lo..];
    TrailingSpacesSpec(t);
    forall k | lo + |Strip(s)| <= k < |s| ensures IsSpace(s[k]) {
      assert s[k] == t[k - lo];
    }
  }

  /** The slice `strip()` keeps neither starts nor ends with whitespace. */
  lemma StripEndsWithoutSpace(s: string)
    ensures Strip(s) != [] ==> !IsSpace(Strip(s)[0]) && !IsSpace(Strip(s)[|Strip(s)| - 1])
  {
    var lo := LeadingSpaces(s);
    var t := s[lo..];
    var n := TrailingSpaces(t);
    var r := t[..|t| - n];
    assert Strip(s) == r;
    if r != [] {
      LeadingSpacesSpec(s);
      TrailingSpacesSpec(t);
      assert r[0] == s[lo];
      assert r[|r| - 1] == t[|t| - n - 1];
    }
  }

  /**
   * `strip()` keeps one contiguous slice of its input: everything cut off on either
   * side is whitespace, and the slice neither starts nor ends with whitespace.
   */
  lemma StripKeepsInnerSlice(s: string)
    ensures var r := Strip(s); var lo := LeadingSpaces(s);
      && lo + |r| <= |s| && r == s[lo..lo + |r|]
      && (forall k :: 0 <= k < lo ==> IsSpace(s[k]))
      && (forall k :: lo + |r| <= k < |s| ==> IsSpace(s[k]))
      && (r != [] ==> !IsSpace(r[0]) && !IsSpace(r[|r| - 1]))
  {
    StripIsSlice(s);
    LeadingSpacesSpec(s);
    StripCutsTrailingSpace(s);
    StripEndsWithoutSpace(s);
  }

  /** A normalised word has no upper-case letter and no whitespace at either end. */
  lemma NormalizedShape(raw: string)
    ensures var w := Normalize(raw);
      && |w| <= |raw|
      && (forall k :: 0 <= k < |w| ==> !IsUpper(w[k]))
      && (w != [] ==> !IsSpace(w[0]) && !IsSpace(w[|w| - 1]))
  {
    var low := Lower(raw);
    StripKeepsInnerSlice(low);
    var w := Strip(low);
    var lo := LeadingSpaces(low);
    forall k | 0 <= k < |w| ensures !IsUpper(w[k]) {
      assert w[k] == low[lo + k];
    }
  }

  /** Lower-casing a string with no upper-case letter changes nothing. */
  lemma LowerOfLowered(s: string)
    requires forall k :: 0 <= k < |s| ==> !IsUpper(s[k])
    ensures Lower(s) == s
  {
  }

  /** Normalising twice is normalising once, so stored words are fixed points. */
  lemma NormalizeIdempotent(raw: string)
    ensures Normalize(Normalize(raw)) == Normalize(raw)
  {
    var w := Normalize(raw);
    NormalizedShape(raw);
    LowerOfLowered(w);
    assert LeadingSpaces(w) == 0 && TrailingSpaces(w) == 0;
    assert TrimStart(w) == w;
  }

  /** A space appended at the end is one more character for `rstrip` to remove. */
  lemma TrailingSpacesAppend(s: string, c: char)
    requires IsSpace(c)
    ensures TrailingSpaces(s + [c]) == TrailingSpaces(s) + 1
  {
    assert (s + [c])[..|s|] == s;
  }

  /** A space appended at the end extends the leading whitespace only of an all-space string. */
  lemma {:induction false} LeadingSpacesAppend(s: string, c: char)
    requires IsSpace(c)
    ensures LeadingSpaces(s) == |s| ==> LeadingSpaces(s + [c]) == |s| + 1
    ensures LeadingSpaces(s) < |s| ==> LeadingSpaces(s + [c]) == LeadingSpaces(s)
    decreases |s|
  {
    if s == [] {
      assert [c][1..] == [];
    } else if IsSpace(s[0]) {
      assert (s + [c])[1..] == s[1..] + [c];
      LeadingSpacesAppend(s[1..], c);
    } else {
      assert (s + [c])[0] == s[0];
    }
  }

  /** `lstrip` of a string with a space appended: empty if the string was all space, else one character longer. */
  lemma TrimStartAppend(s: string, c: char)
    requires IsSpace(c)
    ensures LeadingSpaces(s) == |s| ==> TrimStart(s + [c]) == []
    ensures LeadingSpaces(s) < |s| ==> TrimStart(s + [c]) == TrimStart(s) + [c]
  {
    LeadingSpacesAppend(s, c);
    var lo := LeadingSpaces(s);
    var u := s + [c];
    if lo < |s| {
      assert TrimStart(u) == u[lo..];
      assert u[lo..] == s[lo..] + [c];
    } else {
      assert TrimStart(u) == u[|u|..];
    }
  }

  /** `rstrip` removes an appended space along with the rest of the trailing whitespace. */
  lemma TrimEndAppend(t: string, c: char)
    requires IsSpace(c)
    ensures TrimEnd(t + [c]) == TrimEnd(t)
  {
    TrailingSpacesAppend(t, c);
    assert (t + [c])[..|t| - TrailingSpaces(t)] == t[..|t| - TrailingSpaces(t)];
  }

  /** Trailing whitespace does not survive `lstrip` followed by `rstrip`. */
  lemma StripDropsTrailingSpace(s: string, c: char)
    requires IsSpace(c)
    ensures Strip(s + [c]) == Strip(s)
  {
    TrimStartAppend(s, c);
    if LeadingSpaces(s) == |s| {
      assert TrimStart(s) == [];
    } else {
      TrimEndAppend(TrimStart(s), c);
    }
  }

  /** A space put in front is one more character for `lstrip` to remove. */
  lemma LeadingSpacesPrepend(s: string, c: char)
    requires IsSpace(c)
    ensures LeadingSpaces([c] + s) == LeadingSpaces(s) + 1
  {
    assert ([c] + s)[1..] == s;
  }

  /**
   * Guesses that differ only in surrounding whitespace or ASCII case normalise to the
   * same word, so the duplicate check treats them as one guess.
   */
  lemma NormalizeIgnoresPaddingAndCase(raw: string, c: char)
    requires IsSpace(c)
    ensures Normalize([c] + raw) == Normalize(raw)
    ensures Normalize(raw + [c]) == Normalize(raw)
    ensures Normalize(Lower(raw)) == Normalize(raw)
  {
    var low := Lower(raw);
    assert Lower([c] + raw) == [c] + low;
    LeadingSpacesPrepend(low, c);
    assert TrimStart([c] + low) == TrimStart(low);
    assert Lower(raw + [c]) == low + [c];
    StripDropsTrailingSpace(low, c);
    assert Lower(low) == low;
  }

  /** Two characters that are the same letter in either ASCII case, or simply equal. */
  predicate SameCharUpToCase(a: char, b: char) {
    a == b
    || ('A' <= a <= 'Z' && b as int == a as int + 32)
    || ('A' <= b <= 'Z' && a as int == b as int + 32)
  }

  /** Two strings of the same length that agree at every position up to ASCII case. */
  predicate SameUpToAsciiCase(a: string, b: string) {
    |a| == |b| && forall k :: 0 <= k < |a| ==> SameCharUpToCase(a[k], b[k])
  }

  /** Inputs that differ only in the ASCII case of their letters normalise to the same word. */
  lemma NormalizeIgnoresCase(a: string, b: string)
    requires SameUpToAsciiCase(a, b)
    ensures Normalize(a) == Normalize(b)
  {
    forall k | 0 <= k < |a| ensures Lower(a)[k] == Lower(b)[k] {
      assert SameCharUpToCase(a[k], b[k]);
    }
    assert Lower(a) == Lower(b);
  }
}

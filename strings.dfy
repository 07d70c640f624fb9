/** The Python string operations main.py relies on: `startswith`, `in`,
    `split`, `strip` and `str(int)`, on `seq<char>`. */
module Strings {
  import opened Wrappers

  /** `s.startswith(p)`. */
  predicate IsPrefix(p: string, s: string) {
    |p| <= |s| && s[..|p|] == p
  }

  /** `pat` occurs in `s` starting at index `i`. */
  predicate OccursAt(s: string, pat: string, i: nat) {
    i + |pat| <= |s| && s[i..i + |pat|] == pat
  }

  /** `pat in s`. */
  predicate Contains(s: string, pat: string) {
    exists i: nat :: i <= |s| && OccursAt(s, pat, i)
  }

  /** The first occurrence of `pat` in `s` at or after `from`. */
  function FindFrom(s: string, pat: string, from: nat): (r: Option<nat>)
    ensures r.Some? ==> from <= r.value && OccursAt(s, pat, r.value)
    ensures forall j: nat :: from <= j && (r.None? || j < r.value) ==> !OccursAt(s, pat, j)
    decreases |s| - from
  {
    if from + |pat| > |s| then None
    else if OccursAt(s, pat, from) then Some(from)
    else FindFrom(s, pat, from + 1)
  }

  /** The first occurrence of `pat` in `s`, or `None`: the search behind
      `in` and `split`. */
  function IndexOf(s: string, pat: string): (r: Option<nat>)
    ensures r.Some? <==> Contains(s, pat)
    ensures r.Some? ==> OccursAt(s, pat, r.value)
    ensures forall j: nat :: r.None? || j < r.value ==> !OccursAt(s, pat, j)
  {
    FindFrom(s, pat, 0)
  }

  /** A window of a slice is the matching window of the whole string. */
  lemma SliceOfSlice(s: string, a: nat, b: nat, j: nat, n: nat)
    requires a <= b <= |s| && j + n <= b - a
    ensures s[a..b][j..j + n] == s[a + j..a + j + n]
  {
    var x := s[a..b][j..j + n];
    var y := s[a + j..a + j + n];
    forall k | 0 <= k < n ensures x[k] == y[k] {
      assert x[k] == s[a + j + k];
    }
  }

  /** A prefix of `s` that ends before the first occurrence of `pat` holds no `pat`. */
  lemma PrefixBeforeFirst(s: string, pat: string, i: nat)
    requires pat != [] && i <= |s|
    requires forall j: nat :: j < i ==> !OccursAt(s, pat, j)
    ensures !Contains(s[..i], pat)
  {
    assert s[..i] == s[0..i];
    SliceKeepsAbsenceBefore(s, pat, i);
  }

  /** Helper of `PrefixBeforeFirst`, on `s[0..i]`. */
  lemma SliceKeepsAbsenceBefore(s: string, pat: string, i: nat)
    requires pat != [] && i <= |s|
    requires forall j: nat :: j < i ==> !OccursAt(s, pat, j)
    ensures !Contains(s[0..i], pat)
  {
    var p := s[0..i];
    forall j: nat | j <= |p| ensures !OccursAt(p, pat, j) {
      if j + |pat| <= |p| {
        SliceOfSlice(s, 0, i, j, |pat|);
        assert !OccursAt(s, pat, j);
      }
    }
  }

  /** A slice of a string that holds no `pat` holds no `pat` either. */
  lemma SliceKeepsAbsence(s: string, pat: string, a: nat, b: nat)
    requires a <= b <= |s|
    requires !Contains(s, pat)
    ensures !Contains(s[a..b], pat)
  {
    var t := s[a..b];
    forall j: nat | j <= |t| ensures !OccursAt(t, pat, j) {
      if j + |pat| <= |t| {
        assert !OccursAt(s, pat, a + j);
        SliceOfSlice(s, a, b, j, |pat|);
      }
    }
  }

  /** `s.split(sep)`: the pieces between the non-overlapping occurrences of
      `sep`, found from the left. */
  function Split(s: string, sep: string): (parts: seq<string>)
    requires sep != []
    ensures |parts| >= 1
    ensures |parts| >= 2 <==> Contains(s, sep)
    ensures forall k :: 0 <= k < |parts| ==> !Contains(parts[k], sep)
    decreases |s|
  {
    match IndexOf(s, sep)
    case None => [s]
    case Some(i) =>
      PrefixBeforeFirst(s, sep, i);
      [s[..i]] + Split(s[i + |sep|..], sep)
  }

  /** `sep.join(parts)`. */
  function Join(parts: seq<string>, sep: string): string
    requires |parts| >= 1
  {
    if |parts| == 1 then parts[0] else parts[0] + sep + Join(parts[1..], sep)
  }

  /** Joining the pieces of a split with the separator gives back the string. */
  lemma {:induction false} JoinSplit(s: string, sep: string)
    requires sep != []
    ensures Join(Split(s, sep), sep) == s
    decreases |s|
  {
    match IndexOf(s, sep)
    case None =>
    case Some(i) =>
      var rest := s[i + |sep|..];
      JoinSplit(rest, sep);
      assert Split(s, sep)[1..] == Split(rest, sep);
      assert s == s[..i] + sep + rest;
  }

  /** `s.lstrip(chars)`. */
  function StripStart(s: string, chars: set<char>): string
    decreases |s|
  {
    if s != [] && s[0] in chars then StripStart(s[1..], chars) else s
  }

  /** `s.rstrip(chars)`. */
  function StripEnd(s: string, chars: set<char>): string
    decreases |s|
  {
    if s != [] && s[|s| - 1] in chars then StripEnd(s[..|s| - 1], chars) else s
  }

  /** `s.strip(chars)`. */
  function Strip(s: string, chars: set<char>): string {
    StripEnd(StripStart(s, chars), chars)
  }

  /** `lstrip` removes a prefix made only of characters of `chars`, and no
      more: what is left does not start with one. */
  lemma {:induction false} StripStartShape(s: string, chars: set<char>)
    ensures var r := StripStart(s, chars);
      |r| <= |s| && r == s[|s| - |r|..] &&
      (forall k :: 0 <= k < |s| - |r| ==> s[k] in chars) &&
      (r != [] ==> r[0] !in chars)
    decreases |s|
  {
    if s != [] && s[0] in chars {
      StripStartShape(s[1..], chars);
    }
  }

  /** `rstrip` removes a suffix made only of characters of `chars`, and no
      more: what is left does not end with one. */
  lemma {:induction false} StripEndShape(s: string, chars: set<char>)
    ensures var r := StripEnd(s, chars);
      |r| <= |s| && r == s[..|r|] &&
      (forall k :: |r| <= k < |s| ==> s[k] in chars) &&
      (r != [] ==> r[|r| - 1] !in chars)
    decreases |s|
  {
    if s != [] && s[|s| - 1] in chars {
      StripEndShape(s[..|s| - 1], chars);
    }
  }

  /** `strip` leaves the slice `s[a..a + |r|]` of `s`, where everything before
      `a` and everything after the slice is in `chars`, and the slice neither
      starts nor ends with a character of `chars`. */
  lemma StripShape(s: string, chars: set<char>)
    ensures var r := Strip(s, chars);
      var a := |s| - |StripStart(s, chars)|;
      0 <= a && a + |r| <= |s| && r == s[a..a + |r|] &&
      (forall k :: 0 <= k < a ==> s[k] in chars) &&
      (forall k :: a + |r| <= k < |s| ==> s[k] in chars) &&
      (r != [] ==> r[0] !in chars && r[|r| - 1] !in chars)
  {
    StripStartShape(s, chars);
    StripEndShape(StripStart(s, chars), chars);
  }

  /** A string that neither starts nor ends with a character of `chars` is
      left as it is by `strip`. */
  lemma StripStripped(s: string, chars: set<char>)
    requires s != [] ==> s[0] !in chars && s[|s| - 1] !in chars
    ensures Strip(s, chars) == s
  {
  }

  /** Stripping twice strips no more than stripping once. */
  lemma StripIdempotent(s: string, chars: set<char>)
    ensures Strip(Strip(s, chars), chars) == Strip(s, chars)
  {
    StripShape(s, chars);
    StripStripped(Strip(s, chars), chars);
  }

  /** `str.strip()` with no argument removes the characters for which
      Python's `str.isspace()` holds. */
  const PyWhitespace: set<char> := {
    '\t', '\n', '\U{B}', '\U{C}', '\r', '\U{1C}', '\U{1D}', '\U{1E}', '\U{1F}', ' ',
    '\U{85}', '\U{A0}', '\U{1680}', '\U{2000}', '\U{2001}', '\U{2002}', '\U{2003}',
    '\U{2004}', '\U{2005}', '\U{2006}', '\U{2007}', '\U{2008}', '\U{2009}', '\U{200A}',
    '\U{2028}', '\U{2029}', '\U{202F}', '\U{205F}', '\U{3000}'
  }

  predicate IsDigit(c: char) {
    '0' <= c <= '9'
  }

  function DigitChar(d: nat): (c: char)
    requires d < 10
  {
    ('0' as int + d) as char
  }

  function DigitValue(c: char): nat
    requires IsDigit(c)
  {
    c as int - '0' as int
  }

  /** `str(n)` for a non-negative int: its decimal digits, without leading zeros. */
  function NatToString(n: nat): (r: string)
    ensures |r| >= 1
    ensures forall k :: 0 <= k < |r| ==> IsDigit(r[k])
    ensures |r| > 1 ==> r[0] != '0'
    decreases n
  {
    if n < 10 then [DigitChar(n)] else NatToString(n / 10) + [DigitChar(n % 10)]
  }

  /** `int(s)` on a string of decimal digits. */
  function ParseNat(s: string): nat
    requires forall k :: 0 <= k < |s| ==> IsDigit(s[k])
  {
    if s == [] then 0 else ParseNat(s[..|s| - 1]) * 10 + DigitValue(s[|s| - 1])
  }

  /** Reading back the decimal rendering of `n` gives `n`. */
  lemma {:induction false} ParseNatToString(n: nat)
    ensures ParseNat(NatToString(n)) == n
    decreases n
  {
    var r := NatToString(n);
    if n >= 10 {
      ParseNatToString(n / 10);
      assert r[..|r| - 1] == NatToString(n / 10);
    }
  }

  /** Distinct numbers have distinct decimal renderings. */
  lemma NatToStringInjective(m: nat, n: nat)
    requires NatToString(m) == NatToString(n)
    ensures m == n
  {
    ParseNatToString(m);
    ParseNatToString(n);
  }

  /** Every number from 1000 to 9999 is written with exactly four digits. */
  lemma {:induction false} NatToStringFourDigits(n: nat)
    requires 1000 <= n <= 9999
    ensures |NatToString(n)| == 4
  {
    assert NatToString(n / 1000) == [DigitChar(n / 1000)];
    assert NatToString(n / 100) == NatToString(n / 1000) + [DigitChar((n / 100) % 10)];
    assert NatToString(n / 10) == NatToString(n / 100) + [DigitChar((n / 10) % 10)];
  }
}

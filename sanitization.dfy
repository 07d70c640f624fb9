/** Task-id sanitisation (main.py:267-271, repeated at main.py:480-482):
    `re.sub(r'[^a-zA-Z0-9-]', '-', id)`, then `re.sub(r'-+', '-', …)`,
    then `.strip('-').lower()`. */
module Sanitization {
  import opened Strings

  predicate IsAsciiAlnum(c: char) {
    'a' <= c <= 'z' || 'A' <= c <= 'Z' || '0' <= c <= '9'
  }

  /** A character the first substitution keeps: `[a-zA-Z0-9-]`. */
  predicate IsNameChar(c: char) {
    IsAsciiAlnum(c) || c == '-'
  }

  /** A character a sanitised id may hold: `[a-z0-9-]`. */
  predicate IsLowerNameChar(c: char) {
    'a' <= c <= 'z' || '0' <= c <= '9' || c == '-'
  }

  predicate NoDoubleHyphen(s: string) {
    forall k :: 0 <= k < |s| - 1 ==> s[k] != '-' || s[k + 1] != '-'
  }

  /** What every sanitised id looks like: only `[a-z0-9-]`, no `-` at either
      end and never two `-` in a row. */
  predicate IsSanitized(s: string) {
    (forall k :: 0 <= k < |s| ==> IsLowerNameChar(s[k])) &&
    (s != [] ==> s[0] != '-' && s[|s| - 1] != '-') &&
    NoDoubleHyphen(s)
  }

  /** `re.sub(r'[^a-zA-Z0-9-]', '-', s)`. */
  function ReplaceInvalid(s: string): string {
    seq(|s|, k requires 0 <= k < |s| => if IsNameChar(s[k]) then s[k] else '-')
  }

  /** `re.sub(r'-+', '-', s)`: every run of `-` becomes one `-`. */
  function CollapseHyphens(s: string): string
    decreases |s|
  {
    if |s| <= 1 then s
    else if s[0] == '-' && s[1] == '-' then CollapseHyphens(s[1..])
    else [s[0]] + CollapseHyphens(s[1..])
  }

  /** Collapsing keeps the first and the last character, adds no character
      that was not there, and leaves no two `-` in a row. */
  lemma {:induction false} CollapseShape(s: string)
    ensures var r := CollapseHyphens(s);
      |r| <= |s| &&
      (s != [] ==> r != [] && r[0] == s[0] && r[|r| - 1] == s[|s| - 1]) &&
      (forall k :: 0 <= k < |r| ==> r[k] in s) &&
      NoDoubleHyphen(r)
    decreases |s|
  {
    if |s| > 1 {
      CollapseShape(s[1..]);
    }
  }

  function LowerChar(c: char): char {
    if 'A' <= c <= 'Z' then (c as int - 'A' as int + 'a' as int) as char else c
  }

  /** `s.lower()` on the ASCII letters, the only letters left by the
      substitution. */
  function AsciiLower(s: string): string {
    seq(|s|, k requires 0 <= k < |s| => LowerChar(s[k]))
  }

  /** The sanitised task id. */
  function Sanitize(taskId: string): string {
    AsciiLower(Strip(CollapseHyphens(ReplaceInvalid(taskId)), {'-'}))
  }

  /** Lower-casing a string of `[a-zA-Z0-9-]` that has no `-` at either end
      and no double `-` gives a sanitised id. */
  lemma LowerSanitizes(t: string)
    requires forall k :: 0 <= k < |t| ==> IsNameChar(t[k])
    requires t != [] ==> t[0] != '-' && t[|t| - 1] != '-'
    requires NoDoubleHyphen(t)
    ensures IsSanitized(AsciiLower(t))
  {
    var l := AsciiLower(t);
    assert forall k :: 0 <= k < |l| ==> (l[k] == '-' <==> t[k] == '-');
  }

  /** Stripping `-` from a string of name characters with no double `-`
      keeps both properties and leaves no `-` at either end. */
  lemma StripHyphensShape(c: string)
    requires forall k :: 0 <= k < |c| ==> IsNameChar(c[k])
    requires NoDoubleHyphen(c)
    ensures var t := Strip(c, {'-'});
      (forall k :: 0 <= k < |t| ==> IsNameChar(t[k])) &&
      (t != [] ==> t[0] != '-' && t[|t| - 1] != '-') &&
      NoDoubleHyphen(t)
  {
    var t := Strip(c, {'-'});
    var a := |c| - |StripStart(c, {'-'})|;
    Strings.StripShape(c, {'-'});
    assert t == c[a..a + |t|];
    forall k | 0 <= k < |t| ensures IsNameChar(t[k]) {
      assert t[k] == c[a + k];
    }
    forall k | 0 <= k < |t| - 1 ensures t[k] != '-' || t[k + 1] != '-' {
      assert t[k] == c[a + k] && t[k + 1] == c[a + k + 1];
    }
  }

  /** The sanitised id always has the shape `IsSanitized` describes. */
  lemma SanitizeWellFormed(taskId: string)
    ensures IsSanitized(Sanitize(taskId))
  {
    var r := ReplaceInvalid(taskId);
    var c := CollapseHyphens(r);
    CollapseShape(r);
    forall k | 0 <= k < |c| ensures IsNameChar(c[k]) {
      assert c[k] in r;
    }
    StripHyphensShape(c);
    LowerSanitizes(Strip(c, {'-'}));
  }

  /** `re.sub(r'-+', '-', …)` leaves a string with no double `-` untouched. */
  lemma {:induction false} CollapseFixed(s: string)
    requires NoDoubleHyphen(s)
    ensures CollapseHyphens(s) == s
    decreases |s|
  {
    if |s| > 1 {
      CollapseFixed(s[1..]);
    }
  }

  /** An id that is already sanitised is its own sanitisation. */
  lemma SanitizeFixesSanitized(s: string)
    requires IsSanitized(s)
    ensures Sanitize(s) == s
  {
    assert ReplaceInvalid(s) == s;
    CollapseFixed(s);
    StripStripped(s, {'-'});
    assert AsciiLower(s) == s;
  }

  /** Sanitising twice gives the same id as sanitising once. */
  lemma SanitizeIdempotent(taskId: string)
    ensures Sanitize(Sanitize(taskId)) == Sanitize(taskId)
  {
    SanitizeWellFormed(taskId);
    SanitizeFixesSanitized(Sanitize(taskId));
  }

  /** The characters of `s` other than `-`, in order. */
  function DropHyphens(s: string): string {
    if s == [] then [] else (if s[0] == '-' then [] else [s[0]]) + DropHyphens(s[1..])
  }

  /** The ASCII letters and digits of `s`, in order. */
  function AlnumsOf(s: string): string {
    if s == [] then [] else (if IsAsciiAlnum(s[0]) then [s[0]] else []) + AlnumsOf(s[1..])
  }

  lemma {:induction false} DropHyphensAppend(a: string, b: string)
    ensures DropHyphens(a + b) == DropHyphens(a) + DropHyphens(b)
    decreases |a|
  {
    if a != [] {
      assert (a + b)[1..] == a[1..] + b;
      DropHyphensAppend(a[1..], b);
    } else {
      assert a + b == b;
    }
  }

  lemma {:induction false} DropHyphensOfHyphens(s: string)
    requires forall k :: 0 <= k < |s| ==> s[k] == '-'
    ensures DropHyphens(s) == []
    decreases |s|
  {
    if s != [] {
      DropHyphensOfHyphens(s[1..]);
    }
  }

  lemma {:induction false} ReplaceKeepsAlnums(s: string)
    ensures DropHyphens(ReplaceInvalid(s)) == AlnumsOf(s)
    decreases |s|
  {
    if s != [] {
      assert ReplaceInvalid(s)[1..] == ReplaceInvalid(s[1..]);
      ReplaceKeepsAlnums(s[1..]);
    }
  }

  lemma {:induction false} CollapseKeepsLetters(s: string)
    ensures DropHyphens(CollapseHyphens(s)) == DropHyphens(s)
    decreases |s|
  {
    if |s| > 1 {
      CollapseKeepsLetters(s[1..]);
      if !(s[0] == '-' && s[1] == '-') {
        assert ([s[0]] + CollapseHyphens(s[1..]))[1..] == CollapseHyphens(s[1..]);
      }
    }
  }

  lemma StripKeepsLetters(s: string)
    ensures DropHyphens(Strip(s, {'-'})) == DropHyphens(s)
  {
    var t := Strip(s, {'-'});
    var a := |s| - |StripStart(s, {'-'})|;
    Strings.StripShape(s, {'-'});
    assert s == s[..a] + t + s[a + |t|..];
    DropHyphensAppend(s[..a] + t, s[a + |t|..]);
    DropHyphensAppend(s[..a], t);
    DropHyphensOfHyphens(s[..a]);
    DropHyphensOfHyphens(s[a + |t|..]);
  }

  lemma {:induction false} LowerKeepsLetters(s: string)
    ensures DropHyphens(AsciiLower(s)) == AsciiLower(DropHyphens(s))
    decreases |s|
  {
    if s != [] {
      assert AsciiLower(s)[1..] == AsciiLower(s[1..]);
      LowerKeepsLetters(s[1..]);
      var head := if s[0] == '-' then [] else [s[0]];
      assert AsciiLower(head + DropHyphens(s[1..])) == AsciiLower(head) + AsciiLower(DropHyphens(s[1..]));
    }
  }

  /** Apart from its `-` separators, the sanitised id is exactly the ASCII
      letters and digits of the task id, in order and lower-cased: nothing
      else is dropped and nothing is added. */
  lemma SanitizeKeepsAlnums(taskId: string)
    ensures DropHyphens(Sanitize(taskId)) == AsciiLower(AlnumsOf(taskId))
  {
    var r := ReplaceInvalid(taskId);
    var c := CollapseHyphens(r);
    var t := Strip(c, {'-'});
    ReplaceKeepsAlnums(taskId);
    CollapseKeepsLetters(r);
    StripKeepsLetters(c);
    LowerKeepsLetters(t);
  }
}

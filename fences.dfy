/** Code-fence stripping of the generated page (main.py:157-163). */
module Fences {
  import opened Wrappers
  import opened Strings

  const HtmlFence := "```html"
  const Fence := "```"

  /** The clean-up as main.py:158-163 writes it, with Python's `in`,
      `split` and `strip`. */
  function StripFences(code: string): string {
    if Contains(code, HtmlFence) then
      Strip(Split(Split(code, HtmlFence)[1], Fence)[0], PyWhitespace)
    else if Contains(code, Fence) then
      Strip(Split(Split(code, Fence)[1], Fence)[0], PyWhitespace)
    else
      Strip(code, PyWhitespace)
  }

  /** `s` up to its first "```", or all of `s` when it has none. */
  function UpToFence(s: string): string {
    match IndexOf(s, Fence)
    case Some(f) => s[..f]
    case None => s
  }

  /** The text after the first occurrence of `open` in `code`, up to the
      next "```" or to the end: the inner text of the fenced block. */
  function TextAfter(code: string, open: string): string
    requires Contains(code, open)
  {
    UpToFence(code[IndexOf(code, open).value + |open|..])
  }

  /** The first piece of a split is the text before the first separator. */
  lemma SplitFirst(s: string, sep: string)
    requires sep != []
    ensures Split(s, sep)[0] == match IndexOf(s, sep) case Some(i) => s[..i] case None => s
  {
  }

  /** The second piece of a split runs from the first separator to the next. */
  lemma SplitSecond(s: string, sep: string)
    requires sep != [] && Contains(s, sep)
    ensures var rest := s[IndexOf(s, sep).value + |sep|..];
      Split(s, sep)[1] == match IndexOf(rest, sep) case Some(j) => rest[..j] case None => rest
  {
    var rest := s[IndexOf(s, sep).value + |sep|..];
    SplitFirst(rest, sep);
  }

  /** Every "```html" is also a "```". */
  lemma HtmlFenceIsFence(s: string, j: nat)
    requires OccursAt(s, HtmlFence, j)
    ensures OccursAt(s, Fence, j)
  {
    assert s[j..j + 3] == s[j..j + 7][..3];
  }

  /** No "```" starts at `p` when one of the three characters from `p` on is
      not a backtick. */
  lemma NotFenceAt(s: string, p: nat, q: nat)
    requires p <= q < p + 3 && q < |s| && s[q] != '`'
    ensures !OccursAt(s, Fence, p)
  {
    if p + 3 <= |s| {
      assert s[p..p + 3][q - p] == s[q];
    }
  }

  /** Cutting the text after its first "```" keeps that "```" first. */
  lemma FirstFenceInPrefix(rest: string, f: nat, j: nat)
    requires IndexOf(rest, Fence) == Some(f) && f + 3 <= j <= |rest|
    ensures IndexOf(rest[..j], Fence) == Some(f)
  {
    var x := rest[..j];
    assert x[f..f + 3] == rest[f..f + 3];
    assert OccursAt(x, Fence, f);
    forall p: nat | p < f ensures !OccursAt(x, Fence, p) {
      assert !OccursAt(rest, Fence, p);
      if p + 3 <= |x| {
        assert x[p..p + 3] == rest[p..p + 3];
      }
    }
    var r := IndexOf(x, Fence);
    assert r.Some?;
    assert !(r.value < f);
  }

  /** The first "```" of `rest` starts before the first "```html" of
      `rest` and overlaps it, as in "````html" or "`````html". */
  predicate FenceOverlapsHtml(rest: string) {
    IndexOf(rest, Fence).Some? && IndexOf(rest, HtmlFence).Some? &&
    IndexOf(rest, Fence).value < IndexOf(rest, HtmlFence).value < IndexOf(rest, Fence).value + |Fence|
  }

  /** The "```html" branch: the first split cuts the text after the opening
      fence at the next "```html", and the second split then stops at the
      first "```" unless that "```" overlaps the "```html" where the cut
      was made. */
  lemma HtmlPieceUpToFence(rest: string)
    requires !FenceOverlapsHtml(rest)
    ensures var x := match IndexOf(rest, HtmlFence) case Some(j) => rest[..j] case None => rest;
      Split(x, Fence)[0] == UpToFence(rest)
  {
    SplitFirst(rest, Fence);
    match IndexOf(rest, HtmlFence)
    case None =>
    case Some(j) =>
      HtmlFenceIsFence(rest, j);
      var f := IndexOf(rest, Fence).value;
      var x := rest[..j];
      SplitFirst(x, Fence);
      if f + 3 <= j {
        FirstFenceInPrefix(rest, f, j);
      } else {
        PrefixBeforeFirst(rest, Fence, f);
      }
  }

  /** When the first "```" overlaps the next "```html", the cut at that
      "```html" breaks the "```" apart, so the second split keeps the whole
      piece, which runs past the first "```". */
  lemma HtmlPieceOverlap(rest: string)
    requires FenceOverlapsHtml(rest)
    ensures var j := IndexOf(rest, HtmlFence).value;
      Split(rest[..j], Fence)[0] == rest[..j] && |UpToFence(rest)| < j
  {
    var j := IndexOf(rest, HtmlFence).value;
    var x := rest[..j];
    forall p: nat | p <= |x| ensures !OccursAt(x, Fence, p) {
      if p + 3 <= |x| {
        assert !OccursAt(rest, Fence, p);
        assert x[p..p + 3] == rest[p..p + 3];
      }
    }
    SplitFirst(x, Fence);
  }

  /** With no "```html" in the text, the result is the trimmed text between
      the first and the second "```" (or to the end when there is no second). */
  lemma StripFencesPlain(code: string)
    requires !Contains(code, HtmlFence) && Contains(code, Fence)
    ensures StripFences(code) == Strip(TextAfter(code, Fence), PyWhitespace)
  {
    var x := Split(code, Fence)[1];
    SplitSecond(code, Fence);
    SplitFirst(x, Fence);
  }

  /** With a "```html" in the text, the result is the trimmed text between
      the first "```html" and the next "```", unless that "```" overlaps a
      later "```html". */
  lemma StripFencesHtml(code: string)
    requires Contains(code, HtmlFence)
    requires !FenceOverlapsHtml(code[IndexOf(code, HtmlFence).value + |HtmlFence|..])
    ensures StripFences(code) == Strip(TextAfter(code, HtmlFence), PyWhitespace)
  {
    var rest := code[IndexOf(code, HtmlFence).value + |HtmlFence|..];
    SplitSecond(code, HtmlFence);
    HtmlPieceUpToFence(rest);
  }

  /** When the "```" after the first "```html" overlaps a later "```html",
      the result is instead the trimmed text up to that later "```html",
      which runs past the "```". */
  lemma StripFencesHtmlOverlap(code: string)
    requires Contains(code, HtmlFence)
    requires FenceOverlapsHtml(code[IndexOf(code, HtmlFence).value + |HtmlFence|..])
    ensures var rest := code[IndexOf(code, HtmlFence).value + |HtmlFence|..];
      var j := IndexOf(rest, HtmlFence).value;
      StripFences(code) == Strip(rest[..j], PyWhitespace) && |TextAfter(code, HtmlFence)| < j
  {
    var rest := code[IndexOf(code, HtmlFence).value + |HtmlFence|..];
    SplitSecond(code, HtmlFence);
    HtmlPieceOverlap(rest);
  }

  /** Text with no fence at all is only trimmed. */
  lemma StripFencesUnfenced(code: string)
    requires !Contains(code, Fence)
    ensures StripFences(code) == Strip(code, PyWhitespace)
  {
    if Contains(code, HtmlFence) {
      var i := IndexOf(code, HtmlFence).value;
      HtmlFenceIsFence(code, i);
    }
  }

  /** Whatever the model returns, the cleaned page never holds a "```". */
  lemma StripFencesLeavesNoFence(code: string)
    ensures !Contains(StripFences(code), Fence)
  {
    var inner :=
      if Contains(code, HtmlFence) then Split(Split(code, HtmlFence)[1], Fence)[0]
      else if Contains(code, Fence) then Split(Split(code, Fence)[1], Fence)[0]
      else code;
    if Contains(code, HtmlFence) {
      var i := IndexOf(code, HtmlFence).value;
      HtmlFenceIsFence(code, i);
    }
    assert !Contains(inner, Fence);
    StripShape(inner, PyWhitespace);
    var a := |inner| - |StripStart(inner, PyWhitespace)|;
    SliceKeepsAbsence(inner, Fence, a, a + |StripFences(code)|);
  }

  /** The page with its opening newline and optional closing newline. */
  function Wrapped(page: string, newlineBeforeClose: bool): string {
    "\n" + page + (if newlineBeforeClose then "\n" else "")
  }

  /** A window of `rest` that lies inside its copy of `page` holds no "```"
      when `page` holds none. */
  lemma PageWindow(rest: string, page: string, p: nat)
    requires 1 <= p && p + 3 <= 1 + |page| <= |rest| && rest[1..1 + |page|] == page
    requires !Contains(page, Fence)
    ensures !OccursAt(rest, Fence, p)
  {
    SliceOfSlice(rest, 1, 1 + |page|, p - 1, 3);
    assert !OccursAt(page, Fence, p - 1);
  }

  /** Before its final "```", a newline, a page without "```" not ending in
      a backtick, and an optional newline hold no "```". */
  lemma NoFenceBeforeClose(rest: string, page: string, newlineBeforeClose: bool)
    requires |rest| == 1 + |page| + (if newlineBeforeClose then 1 else 0) + 3
    requires rest[0] == '\n' && rest[1..1 + |page|] == page && !Contains(page, Fence)
    requires page != [] ==> rest[|page|] != '`'
    requires newlineBeforeClose ==> rest[1 + |page|] != '`'
    ensures forall p: nat :: p < |rest| - 3 ==> !OccursAt(rest, Fence, p)
  {
    forall p: nat | p < |rest| - 3 ensures !OccursAt(rest, Fence, p) {
      if p == 0 {
        NotFenceAt(rest, 0, 0);
      } else if p + 3 <= 1 + |page| {
        PageWindow(rest, page, p);
      } else if newlineBeforeClose {
        NotFenceAt(rest, p, 1 + |page|);
      } else {
        NotFenceAt(rest, p, |page|);
      }
    }
  }

  /** In a wrapped page followed by "```", that "```" is the first one. */
  lemma ClosingFenceIsFirst(page: string, newlineBeforeClose: bool)
    requires !Contains(page, Fence)
    requires page != [] ==> page[|page| - 1] != '`'
    ensures IndexOf(Wrapped(page, newlineBeforeClose) + Fence, Fence) == Some(|Wrapped(page, newlineBeforeClose)|)
  {
    var inner := Wrapped(page, newlineBeforeClose);
    var rest := inner + Fence;
    assert rest[|inner|..] == Fence;
    assert OccursAt(rest, Fence, |inner|);
    assert rest[1..1 + |page|] == page;
    if page != [] {
      assert rest[|page|] == page[|page| - 1];
    }
    NoFenceBeforeClose(rest, page, newlineBeforeClose);
  }

  /** A "```html" starts with a "```", so text whose first "```" is its
      last three characters holds no "```html". */
  lemma NoHtmlFenceBeforeClose(s: string)
    requires |s| >= 3 && IndexOf(s, Fence) == Some(|s| - 3)
    ensures IndexOf(s, HtmlFence).None?
  {
    forall j: nat | j <= |s| ensures !OccursAt(s, HtmlFence, j) {
      if j + 7 <= |s| {
        assert !OccursAt(s, Fence, j);
        assert s[j..j + 3] == s[j..j + 7][..3];
      }
    }
  }

  /** Trimming a wrapped, already trimmed page gives the page back. */
  lemma StripWrapped(page: string, newlineBeforeClose: bool)
    requires page != [] ==> page[0] !in PyWhitespace && page[|page| - 1] !in PyWhitespace
    ensures Strip(Wrapped(page, newlineBeforeClose), PyWhitespace) == page
  {
    var inner := Wrapped(page, newlineBeforeClose);
    var tail := page + (if newlineBeforeClose then "\n" else "");
    assert inner[1..] == tail;
    assert StripStart(inner, PyWhitespace) == StripStart(tail, PyWhitespace);
    if page == [] {
      if newlineBeforeClose {
        assert StripStart("\n", PyWhitespace) == StripStart("", PyWhitespace);
      }
    } else {
      assert StripStart(tail, PyWhitespace) == tail;
      if newlineBeforeClose {
        assert tail[..|tail| - 1] == page;
        assert StripEnd(tail, PyWhitespace) == StripEnd(page, PyWhitespace);
      }
    }
  }

  /** A page wrapped in a "```html" block, with or without a newline before
      the closing fence, comes out exactly as the page. */
  lemma FencedPageUnwrapped(page: string, newlineBeforeClose: bool)
    requires !Contains(page, Fence)
    requires page != [] ==> page[0] !in PyWhitespace && page[|page| - 1] !in PyWhitespace
    requires page != [] ==> page[|page| - 1] != '`'
    ensures var close := if newlineBeforeClose then "\n```" else "```";
      StripFences(HtmlFence + "\n" + page + close) == page
  {
    var close := if newlineBeforeClose then "\n```" else "```";
    var code := HtmlFence + "\n" + page + close;
    var inner := Wrapped(page, newlineBeforeClose);
    assert code == HtmlFence + (inner + Fence);
    assert code[..|HtmlFence|] == HtmlFence;
    assert OccursAt(code, HtmlFence, 0);
    var rest := code[|HtmlFence|..];
    assert rest == inner + Fence;
    ClosingFenceIsFirst(page, newlineBeforeClose);
    NoHtmlFenceBeforeClose(rest);
    StripFencesHtml(code);
    assert TextAfter(code, HtmlFence) == inner;
    StripWrapped(page, newlineBeforeClose);
  }
}

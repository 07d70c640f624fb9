/** The optional prompt sections built by `generate_app_code`
    (main.py:114-127): the attachments block and the checks block. */
module Prompt {

  /** An attachment of the request: its `name` and its (data:) `url`. */
  datatype Attachment = Attachment(name: string, url: string)

  const AttachmentsHeader := "\n\nATTACHMENTS PROVIDED:"
  const ChecksHeader := "\n\nCRITICAL - THESE JAVASCRIPT CHECKS MUST PASS:"

  /** One item line, `f"\n- {item}"`. */
  function Bullet(item: string): string {
    "\n- " + item
  }

  /** The item text of an attachment, `f"{att['name']}: {att['url']}"`. */
  function AttachmentItem(a: Attachment): string {
    a.name + ": " + a.url
  }

  /** The item texts of the attachments, in order. */
  function AttachmentItems(attachments: seq<Attachment>): (items: seq<string>)
    ensures |items| == |attachments|
    ensures forall k :: 0 <= k < |items| ==> items[k] == AttachmentItem(attachments[k])
  {
    if attachments == [] then []
    else AttachmentItems(attachments[..|attachments| - 1]) + [AttachmentItem(attachments[|attachments| - 1])]
  }

  /** The item lines for `items`, one per item, in order. */
  function Bullets(items: seq<string>): string {
    if items == [] then "" else Bullets(items[..|items| - 1]) + Bullet(items[|items| - 1])
  }

  /** A section: empty when there are no items, else the header and the lines. */
  function Section(header: string, items: seq<string>): string {
    if items == [] then "" else header + Bullets(items)
  }

  /** Cut anywhere, the lines of a list are the lines of its two parts. */
  lemma {:induction false} BulletsSplit(items: seq<string>, m: nat)
    requires m <= |items|
    ensures Bullets(items) == Bullets(items[..m]) + Bullets(items[m..])
    decreases |items|
  {
    if m == |items| {
      assert items[..m] == items;
      assert items[m..] == [];
    } else {
      var init := items[..|items| - 1];
      BulletsSplit(init, m);
      assert init[..m] == items[..m];
      var tail := items[m..];
      assert tail[..|tail| - 1] == init[m..];
      assert tail[|tail| - 1] == items[|items| - 1];
    }
  }

  /** Item `k` sits on its own line, after the lines of the items before it
      and before the lines of the items after it. */
  lemma ItemOnItsOwnLine(items: seq<string>, k: nat)
    requires k < |items|
    ensures Bullets(items) == Bullets(items[..k]) + Bullet(items[k]) + Bullets(items[k + 1..])
  {
    var upTo := items[..k + 1];
    BulletsSplit(items, k + 1);
    assert upTo[..|upTo| - 1] == items[..k];
  }

  /** Each item line starts with a newline, so with items free of newlines
      the lines hold exactly one newline per item. */
  function Newlines(s: string): nat {
    if s == [] then 0 else Newlines(s[..|s| - 1]) + (if s[|s| - 1] == '\n' then 1 else 0)
  }

  lemma {:induction false} NewlinesAppend(a: string, b: string)
    ensures Newlines(a + b) == Newlines(a) + Newlines(b)
    decreases |b|
  {
    if b != [] {
      assert (a + b)[..|a + b| - 1] == a + b[..|b| - 1];
      NewlinesAppend(a, b[..|b| - 1]);
    } else {
      assert a + b == a;
    }
  }

  /** With items free of newlines, there is one line per item. */
  lemma {:induction false} OneLinePerItem(items: seq<string>)
    requires forall k :: 0 <= k < |items| ==> Newlines(items[k]) == 0
    ensures Newlines(Bullets(items)) == |items|
  {
    if items != [] {
      var init := items[..|items| - 1];
      var last := items[|items| - 1];
      OneLinePerItem(init);
      NewlinesAppend(Bullets(init), Bullet(last));
      NewlinesAppend("\n- ", last);
      assert Newlines("\n- ") == 1 by {
        assert "\n- "[..2] == "\n-";
        assert "\n-"[..1] == "\n";
        assert "\n"[..0] == "";
      }
    }
  }

  /** The attachments section (main.py:116-120): empty exactly when there are
      no attachments, else the header and one line per attachment. */
  method AttachmentsSection(attachments: seq<Attachment>) returns (info: string)
    ensures info == "" <==> attachments == []
    ensures info == Section(AttachmentsHeader, AttachmentItems(attachments))
  {
    info := "";
    if attachments != [] {
      info := AttachmentsHeader;
      var i := 0;
      while i < |attachments|
        invariant 0 <= i <= |attachments|
        invariant info == AttachmentsHeader + Bullets(AttachmentItems(attachments[..i]))
      {
        assert attachments[..i + 1][..i] == attachments[..i];
        info := info + "\n- " + attachments[i].name + ": " + attachments[i].url;
        i := i + 1;
      }
      assert attachments[..i] == attachments;
    }
  }

  /** The checks section (main.py:123-127): empty exactly when there are no
      checks, else the header and one line per check. */
  method ChecksSection(checks: seq<string>) returns (info: string)
    ensures info == "" <==> checks == []
    ensures info == Section(ChecksHeader, checks)
  {
    info := "";
    if checks != [] {
      info := ChecksHeader;
      var i := 0;
      while i < |checks|
        invariant 0 <= i <= |checks|
        invariant info == ChecksHeader + Bullets(checks[..i])
      {
        assert checks[..i + 1][..i] == checks[..i];
        info := info + "\n- " + checks[i];
        i := i + 1;
      }
      assert checks[..i] == checks;
    }
  }

  /** The parts of the code-generation prompt that depend on the request;
      the fixed instructions around them are prose. */
  datatype AppPrompt = AppPrompt(brief: string, attachmentInfo: string, checksInfo: string)

  /** The parts of the README prompt that depend on the request; the update
      prompt and the creation prompt differ only in their prose. */
  datatype ReadmePrompt = ReadmePrompt(repoName: string, brief: string, isUpdate: bool)
}

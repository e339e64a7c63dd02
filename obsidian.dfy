/**
 * The note normaliser `clean_obsidian` of the ingester: two regular
 * expression rewrites applied in order, written as left-to-right scanners.
 *
 *  1. `!\[\[.*?\]\]` -> "": an embedded-media span `![[...]]` is deleted.
 *     `.` excludes newlines and `.*?` stops at the first `]]`.
 *  2. `\[\[([^\|\]]+)\|?([^\]]*)\]\]` -> alias if non-empty, else target.
 *     With backtracking this matches exactly when the text after `[[` runs
 *     to its first `]`, that `]` is followed by another `]`, and the inner
 *     text is non-empty and does not start with `|`. The target is the
 *     inner text up to its first `|`, the alias everything after it.
 */
module Obsidian {
  import opened Wrappers
  import opened Text
  import Spans

  const MediaOpen := "![["
  const LinkClose := "]]"

  /** Rule 1: every embedded-media span removed. */
  function StripMedia(s: string): (r: string)
    ensures |r| <= |s|
  {
    Spans.RemoveSpans(s, MediaOpen, LinkClose, true)
  }

  /** `body` may sit between `![[` and `]]`: no newline and no `]]` starting inside it. */
  predicate IsMediaBody(body: string) {
    Spans.BodyBefore(body + LinkClose, LinkClose, |body|, true)
  }

  /** `s` starts with a link `[[inner]]` that rule 2 matches. */
  predicate IsLinkAt(s: string, inner: string) {
    StartsWith(s, "[[" + inner + "]]") && ']' !in inner && |inner| > 0 && inner[0] != '|'
  }

  /** The link rule 2 matches at the start of `s`, given by its inner text. */
  function MatchLink(s: string): (r: Option<string>)
    ensures r.Some? ==> IsLinkAt(s, r.value)
  {
    if !StartsWith(s, "[[") then None
    else
      match IndexOf(s[2..], ']', 0)
      case None => None
      case Some(e) =>
        if 2 + e + 1 < |s| && s[2 + e + 1] == ']' && e > 0 && s[2] != '|' then
          assert s[..e + 4] == "[[" + s[2..2 + e] + "]]";
          Some(s[2..2 + e])
        else None
  }

  /** A link that is present is the one matched: rule 2 never misses a link. */
  lemma MatchLinkComplete(s: string, inner: string)
    requires IsLinkAt(s, inner)
    ensures MatchLink(s) == Some(inner)
  {
    var w := "[[" + inner + "]]";
    assert s[..|w|] == w;
    var t := s[2..];
    assert t[..|inner|] == inner by {
      assert t[..|inner|] == s[2..2 + |inner|] == w[2..2 + |inner|];
    }
    assert t[|inner|] == ']' by {
      assert t[|inner|] == s[2 + |inner|] == w[2 + |inner|];
    }
    var r := IndexOf(t, ']', 0);
    assert r.Some?;
    var e := r.value;
    forall j | 0 <= j < |inner| ensures t[j] != ']' {
      assert t[j] == inner[j];
    }
    forall j | 0 <= j < e ensures t[j] != ']' {
      assert t[..e][j] == t[j];
    }
    assert e == |inner|;
    assert s[2 + e + 1] == w[|inner| + 3];
    assert s[2] == inner[0];
  }

  /** Target and alias: split at the first `|`; no `|` means an empty alias. */
  function SplitAlias(inner: string): (r: (string, string))
    ensures '|' !in r.0
    ensures '|' in inner ==> inner == r.0 + "|" + r.1
    ensures '|' !in inner ==> r.0 == inner && r.1 == ""
  {
    match IndexOf(inner, '|', 0)
    case Some(j) =>
      assert inner == inner[..j] + "|" + inner[j + 1..];
      (inner[..j], inner[j + 1..])
    case None => (inner, "")
  }

  /** A target free of `|` is split off exactly at the `|` that follows it. */
  lemma SplitAliasOf(target: string, alias: string)
    requires '|' !in target
    ensures SplitAlias(target + "|" + alias) == (target, alias)
  {
    var inner := target + "|" + alias;
    assert inner[|target|] == '|';
    var r := SplitAlias(inner);
    assert inner[|r.0|] == '|';
    forall j | 0 <= j < |target| ensures inner[j] != '|' {
      assert inner[j] == target[j];
    }
    forall j | 0 <= j < |r.0| ensures inner[j] != '|' {
      assert inner[j] == r.0[j];
    }
    assert |r.0| == |target|;
    assert inner[..|target|] == target;
    assert inner[|target| + 1..] == alias;
  }

  /** What a link shows: the alias when it is non-empty, otherwise the target. */
  function Display(inner: string): (r: string)
    ensures |r| <= |inner|
  {
    var (target, alias) := SplitAlias(inner);
    if alias != "" then alias else target
  }

  /** Rule 2: every matched link replaced by what it shows. */
  function ResolveLinks(s: string): (r: string)
    ensures |r| <= |s|
    decreases |s|
  {
    if |s| == 0 then ""
    else
      match MatchLink(s)
      case Some(inner) => Display(inner) + ResolveLinks(s[|inner| + 4..])
      case None => [s[0]] + ResolveLinks(s[1..])
  }

  /** `clean_obsidian`: media removal first, then link resolution. */
  function Clean(text: string): (r: string)
    ensures |r| <= |text|
  {
    ResolveLinks(StripMedia(text))
  }

  // ---- Rule 1 -----------------------------------------------------------

  /** A body without `]` or newline is always a media body. */
  lemma PlainMediaBody(body: string)
    requires ']' !in body && '\n' !in body
    ensures IsMediaBody(body)
  {
    var t := body + LinkClose;
    forall j | 0 <= j < |body| ensures !Spans.ClosesAt(t, LinkClose, j) && t[j] != '\n' {
      assert t[j] == body[j];
    }
  }

  /** Each `![[...]]` span after text where no embed starts is deleted without a trace. */
  lemma MediaSpanRemoved(pre: string, body: string, post: string)
    requires Spans.NoOpenBefore(pre + MediaOpen, MediaOpen, |pre|) && IsMediaBody(body)
    ensures StripMedia(pre + "![[" + body + "]]" + post) == pre + StripMedia(post)
  {
    Spans.RemoveSpansAfter(pre, body, post, MediaOpen, LinkClose, true);
  }

  /** A `![[` whose `]]` is only reachable across a newline stays literal text. */
  lemma MediaBrokenByNewline(body: string, post: string)
    requires '\n' !in body && ']' !in body
    ensures StripMedia("![[" + body + "\n]]" + post) == "!" + StripMedia("[[" + body + "\n]]" + post)
  {
    var s := "![[" + body + "\n]]" + post;
    NewlineSpanShape(body, post);
    NewlineBeforeClose(body + "\n]]" + post, |body|);
    Spans.RemoveSpansUnclosed(s, MediaOpen, LinkClose, true);
  }

  lemma NewlineSpanShape(body: string, post: string)
    requires ']' !in body
    ensures var s := "![[" + body + "\n]]" + post;
      StartsWith(s, MediaOpen) && s[0] == '!' && s[1..] == "[[" + body + "\n]]" + post
      && s[|MediaOpen|..] == body + "\n]]" + post
    ensures var t := body + "\n]]" + post;
      |body| < |t| && t[|body|] == '\n' && forall j :: 0 <= j < |body| ==> t[j] != ']'
  {
    var t := body + "\n]]" + post;
    forall j | 0 <= j < |body| ensures t[j] != ']' {
      assert t[j] == body[j];
    }
  }

  /** When a newline comes before every `]`, no `]]` is reachable on that line. */
  lemma NewlineBeforeClose(t: string, n: nat)
    requires n < |t| && t[n] == '\n'
    requires forall j :: 0 <= j < n ==> t[j] != ']'
    ensures forall k :: Spans.ClosesAt(t, LinkClose, k) ==> !Spans.BodyBefore(t, LinkClose, k, true)
  {
    forall k: nat | Spans.ClosesAt(t, LinkClose, k) ensures !Spans.BodyBefore(t, LinkClose, k, true) {
      assert t[k] == t[k..k + 2][0] == ']';
      assert k > n;
    }
  }

  // ---- Rule 2 -----------------------------------------------------------

  /** No link of rule 2 starts at any of the first `n` positions of `s`. */
  predicate NoLinkBefore(s: string, n: nat) {
    forall i :: 0 <= i < n && i < |s| ==> MatchLink(s[i..]).None?
  }

  /** Text in which no link can start is copied through unchanged, whatever follows it. */
  lemma {:induction false} ResolveLinksPrefix(pre: string, rest: string)
    requires NoLinkBefore(pre + rest, |pre|)
    ensures ResolveLinks(pre + rest) == pre + ResolveLinks(rest)
    decreases |pre|
  {
    if |pre| > 0 {
      HeadAndTail(pre, rest, ResolveLinks(rest));
      NoLinkShift(pre, rest);
      ResolveLinksPrefix(pre[1..], rest);
      ResolveLinksLiteral(pre + rest);
    } else {
      assert pre + rest == rest;
    }
  }

  /** Dropping the first character of the prefix keeps it free of links. */
  lemma NoLinkShift(pre: string, rest: string)
    requires |pre| > 0 && NoLinkBefore(pre + rest, |pre|)
    ensures MatchLink(pre + rest).None?
    ensures NoLinkBefore(pre[1..] + rest, |pre| - 1)
  {
    assert (pre + rest)[0..] == pre + rest;
    forall i | 0 <= i < |pre| - 1 ensures (pre[1..] + rest)[i..] == (pre + rest)[i + 1..] {
    }
  }

  /** A position where no link starts is copied. */
  lemma ResolveLinksLiteral(s: string)
    requires |s| > 0 && MatchLink(s).None?
    ensures ResolveLinks(s) == [s[0]] + ResolveLinks(s[1..])
  {
  }

  /**
   * A link match reads no further than the first `]` after `[[` and the
   * character after it, so text that already ends in `]]` decides it.
   */
  lemma MatchLinkAppend(t: string, y: string)
    requires |t| >= 4 && EndsWith(t, LinkClose)
    ensures MatchLink(t + y) == MatchLink(t)
  {
    var s := t + y;
    assert s[..2] == t[..2];
    assert t[|t| - 2] == t[|t| - 2..][0] == ']';
    assert t[|t| - 1] == t[|t| - 2..][1] == ']';
    if StartsWith(t, "[[") {
      assert s[2..] == t[2..] + y;
      assert t[2..][|t| - 4] == ']';
      IndexOfAppend(t[2..], y, ']');
      match IndexOf(t[2..], ']', 0)
      case Some(e) =>
        assert s[2..2 + e] == t[2..2 + e];
      case None =>
    }
  }

  /** Whether a link starts before `n` is decided by text ending in `]]` at least three characters later. */
  lemma NoLinkExtend(x: string, y: string, n: nat)
    requires n + 3 <= |x| && EndsWith(x, LinkClose)
    ensures NoLinkBefore(x + y, n) <==> NoLinkBefore(x, n)
  {
    forall i | 0 <= i < n ensures MatchLink((x + y)[i..]) == MatchLink(x[i..]) {
      assert (x + y)[i..] == x[i..] + y;
      assert x[i..][|x[i..]| - 2..] == x[|x| - 2..];
      MatchLinkAppend(x[i..], y);
    }
  }

  /** A matched link contributes exactly what it shows; scanning carries on after its `]]`. */
  lemma LinkResolved(inner: string, post: string)
    requires ']' !in inner && |inner| > 0 && inner[0] != '|'
    ensures ResolveLinks("[[" + inner + "]]" + post) == Display(inner) + ResolveLinks(post)
  {
    var s := "[[" + inner + "]]" + post;
    assert s[..|inner| + 4] == "[[" + inner + "]]";
    MatchLinkComplete(s, inner);
    assert s[|inner| + 4..] == post;
  }

  /** `[[Target|Alias]]` with a non-empty alias becomes exactly `Alias`. */
  lemma AliasLink(target: string, alias: string, post: string)
    requires |target| > 0 && '|' !in target && ']' !in target
    requires alias != "" && ']' !in alias
    ensures ResolveLinks("[[" + target + "|" + alias + "]]" + post) == alias + ResolveLinks(post)
  {
    var inner := target + "|" + alias;
    assert "[[" + target + "|" + alias + "]]" + post == "[[" + inner + "]]" + post;
    assert inner[0] == target[0];
    SplitAliasOf(target, alias);
    LinkResolved(inner, post);
  }

  /** `[[Target]]` and `[[Target|]]` both become exactly `Target`. */
  lemma TargetLink(target: string, post: string)
    requires |target| > 0 && '|' !in target && ']' !in target
    ensures ResolveLinks("[[" + target + "]]" + post) == target + ResolveLinks(post)
    ensures ResolveLinks("[[" + target + "|]]" + post) == target + ResolveLinks(post)
  {
    LinkResolved(target, post);
    EmptyAliasLink(target, post);
  }

  lemma EmptyAliasLink(target: string, post: string)
    requires |target| > 0 && '|' !in target && ']' !in target
    ensures ResolveLinks("[[" + target + "|]]" + post) == target + ResolveLinks(post)
  {
    var inner := target + "|";
    assert "[[" + target + "|]]" + post == "[[" + inner + "]]" + post;
    assert inner[0] == target[0];
    SplitAliasOf(target, "");
    assert inner == target + "|" + "";
    LinkResolved(inner, post);
  }

  /** `[[]]` and `[[|x]]` are not links: rule 2 keeps them as literal text. */
  lemma EmptyTargetKept(alias: string, post: string)
    ensures ResolveLinks("[[|" + alias + "]]" + post) == "[" + ResolveLinks("[|" + alias + "]]" + post)
  {
    var s := "[[|" + alias + "]]" + post;
    assert s[2] == '|';
    assert MatchLink(s) == None;
    assert s[1..] == "[|" + alias + "]]" + post;
  }

  /** `s` contains no `[[`. */
  predicate NoDoubleBracket(s: string) {
    forall i :: 0 <= i < |s| - 1 ==> !(s[i] == '[' && s[i + 1] == '[')
  }

  /** Text without `[[` has no link for rule 2 to resolve. */
  lemma {:induction false} ResolveLinksNoLink(s: string)
    requires NoDoubleBracket(s)
    ensures ResolveLinks(s) == s
    decreases |s|
  {
    if |s| > 0 {
      assert |s| >= 2 ==> s[..2] == [s[0], s[1]];
      assert MatchLink(s) == None;
      ResolveLinksNoLink(s[1..]);
    }
  }

  // ---- clean_obsidian ------------------------------------------------------

  /** Text containing no `[[` is returned unchanged. */
  lemma CleanWithoutBrackets(s: string)
    requires NoDoubleBracket(s)
    ensures Clean(s) == s
  {
    forall i | 0 <= i < |s| ensures !StartsWith(s[i..], MediaOpen) {
      if i + 2 < |s| {
        assert !(s[i + 1] == '[' && s[i + 2] == '[');
        assert s[i..][..3] == [s[i], s[i + 1], s[i + 2]];
      }
    }
    Spans.RemoveSpansNoOpen(s, MediaOpen, LinkClose, true);
    ResolveLinksNoLink(s);
  }

  /**
   * Media removal runs before link resolution: `![[x]]` leaves nothing,
   * never `!x`, and links are then resolved over the text around it.
   */
  lemma CleanRemovesMedia(pre: string, body: string, post: string)
    requires Spans.NoOpenBefore(pre + MediaOpen, MediaOpen, |pre|) && IsMediaBody(body)
    ensures Clean(pre + "![[" + body + "]]" + post) == ResolveLinks(pre + StripMedia(post))
    ensures NoLinkBefore(pre + StripMedia(post), |pre|) ==>
      Clean(pre + "![[" + body + "]]" + post) == pre + Clean(post)
  {
    MediaSpanRemoved(pre, body, post);
    if NoLinkBefore(pre + StripMedia(post), |pre|) {
      ResolveLinksPrefix(pre, StripMedia(post));
    }
  }

  /**
   * A link after text in which no link starts is resolved to what it shows,
   * and cleaning carries on after it, provided no embed starts before the
   * link's `]]`.
   */
  lemma CleanResolvesLink(pre: string, inner: string, post: string)
    requires ']' !in inner && |inner| > 0 && inner[0] != '|'
    requires Spans.NoOpenBefore(pre + "[[" + inner + "]]", MediaOpen, |pre| + |inner| + 2)
    requires NoLinkBefore(pre + "[[" + inner + "]]", |pre|)
    ensures Clean(pre + "[[" + inner + "]]" + post) == pre + Display(inner) + Clean(post)
  {
    var link := "[[" + inner + "]]";
    var rest := StripMedia(post);
    var x := pre + link;
    LinkInContext(pre, inner, post, rest);
    MediaFreeUpToClose(x, post);
    Spans.RemoveSpansPrefix(x, post, MediaOpen, LinkClose, true);
    assert Clean(x + post) == ResolveLinks(x + rest);
    NoLinkExtend(x, rest, |pre|);
    ResolveLinksPrefix(pre, link + rest);
    LinkResolved(inner, rest);
    assert ResolveLinks(x + rest) == pre + (Display(inner) + ResolveLinks(rest));
    Associate(pre, Display(inner), ResolveLinks(rest));
  }

  /** Sequence facts placing a link between the text before it and what follows it. */
  lemma LinkInContext(pre: string, inner: string, post: string, rest: string)
    ensures var x := pre + ("[[" + inner + "]]");
      x == pre + "[[" + inner + "]]" && |x| == |pre| + |inner| + 4 && EndsWith(x, LinkClose)
      && pre + "[[" + inner + "]]" + post == x + post
      && x + rest == pre + ("[[" + inner + "]]" + rest)
  {
    var x := pre + ("[[" + inner + "]]");
    assert x[|x| - 2..] == "]]";
  }

  /** Text ending in `]]` where no embed starts before that `]]` has none starting anywhere in it. */
  lemma MediaFreeUpToClose(x: string, post: string)
    requires |x| >= 2 && EndsWith(x, LinkClose) && Spans.NoOpenBefore(x, MediaOpen, |x| - 2)
    ensures Spans.NoOpenBefore(x + post, MediaOpen, |x|)
  {
    Spans.NoOpenExtend(x, post, MediaOpen, |x| - 2);
    forall i | |x| - 2 <= i < |x| ensures !StartsWith((x + post)[i..], MediaOpen) {
      assert (x + post)[i..][0] == x[|x| - 2..][i - (|x| - 2)] == ']';
    }
  }

  lemma Associate(a: string, b: string, c: string)
    ensures a + (b + c) == a + b + c
  {
  }

  /** In particular, text without any `[` is returned unchanged. */
  lemma CleanWithoutBracketChar(s: string)
    requires '[' !in s
    ensures Clean(s) == s
  {
    assert NoDoubleBracket(s) by {
      forall i | 0 <= i < |s| - 1 ensures s[i] != '[' {
        assert s[i] in s;
      }
    }
    CleanWithoutBrackets(s);
  }

  /** A sentence with one aliased link (`See [[Project Alpha|the project]] for details`) reads with the alias in its place. */
  lemma CleanAliasInSentence(pre: string, target: string, alias: string, post: string)
    requires '!' !in pre && '[' !in pre && '[' !in post
    requires |target| > 0 && '!' !in target && '|' !in target && ']' !in target
    requires alias != "" && '!' !in alias && ']' !in alias
    ensures Clean(pre + "[[" + target + "|" + alias + "]]" + post) == pre + alias + post
  {
    var inner := target + "|" + alias;
    assert pre + "[[" + target + "|" + alias + "]]" + post == pre + "[[" + inner + "]]" + post;
    assert inner[0] == target[0];
    SplitAliasOf(target, alias);
    CleanWithoutBracketChar(post);
    PlainLinkContext(pre, inner);
    CleanResolvesLink(pre, inner, post);
  }

  /** A sentence with one plain link (`See [[Project Alpha]] for details`) reads with the target in its place. */
  lemma CleanTargetInSentence(pre: string, target: string, post: string)
    requires '!' !in pre && '[' !in pre && '[' !in post
    requires |target| > 0 && '!' !in target && '|' !in target && ']' !in target
    ensures Clean(pre + "[[" + target + "]]" + post) == pre + target + post
  {
    CleanWithoutBracketChar(post);
    PlainLinkContext(pre, target);
    CleanResolvesLink(pre, target, post);
  }

  /** Text without `!` or `[` before a link, and no `!` inside it, starts neither an embed nor a link. */
  lemma PlainLinkContext(pre: string, inner: string)
    requires '!' !in pre && '[' !in pre && '!' !in inner
    ensures Spans.NoOpenBefore(pre + "[[" + inner + "]]", MediaOpen, |pre| + |inner| + 2)
    ensures NoLinkBefore(pre + "[[" + inner + "]]", |pre|)
  {
    var x := pre + "[[" + inner + "]]";
    forall i | 0 <= i < |pre| + |inner| + 2 && i < |x| ensures !StartsWith(x[i..], MediaOpen) {
      if i < |pre| {
        assert x[i] == pre[i];
      } else if i >= |pre| + 2 {
        assert x[i] == inner[i - |pre| - 2];
      }
      DiffersAt(x[i..], MediaOpen, 0);
    }
    forall i | 0 <= i < |pre| && i < |x| ensures MatchLink(x[i..]).None? {
      assert x[i] == pre[i];
      DiffersAt(x[i..], "[[", 0);
    }
  }

  /** A ticked checkbox before a link is not taken for a link. */
  lemma CleanCheckboxExample()
    ensures Clean("- [x] see [[Note]]") == "- [x] see Note"
  {
    var pre := "- [x] see ";
    CheckboxNoMedia(pre);
    CheckboxNoLink(pre);
    CleanResolvesLink(pre, "Note", "");
    CheckboxPieces(pre);
  }

  lemma CheckboxPieces(pre: string)
    requires pre == "- [x] see "
    ensures pre + "[[" + "Note" + "]]" + "" == "- [x] see [[Note]]"
    ensures pre + Display("Note") + Clean("") == "- [x] see Note"
  {
    assert Display("Note") == "Note" by {
      assert '|' !in "Note";
    }
    CleanWithoutBrackets("");
  }

  lemma CheckboxNoMedia(pre: string)
    requires pre == "- [x] see "
    ensures Spans.NoOpenBefore(pre + "[[" + "Note" + "]]", MediaOpen, |pre| + 6)
  {
    var x := pre + "[[" + "Note" + "]]";
    assert '!' !in x;
    forall i | 0 <= i < |x| ensures !StartsWith(x[i..], MediaOpen) {
      assert x[i] in x;
      DiffersAt(x[i..], MediaOpen, 0);
    }
  }

  lemma CheckboxNoLink(pre: string)
    requires pre == "- [x] see "
    ensures NoLinkBefore(pre + "[[" + "Note" + "]]", |pre|)
  {
    var x := pre + "[[" + "Note" + "]]";
    forall i | 0 <= i < |pre| ensures MatchLink(x[i..]).None? {
      assert x[i] == pre[i];
      if i == 2 {
        assert x[3] == pre[3] == 'x';
        DiffersAt(x[i..], "[[", 1);
      } else {
        assert pre[i] != '[' by {
          assert i == 0 || i == 1 || i == 3 || i == 4 || i == 5 || i == 6 || i == 7 || i == 8 || i == 9;
        }
        DiffersAt(x[i..], "[[", 0);
      }
    }
  }

  /** An exclamation mark before an embed is kept; the embed is removed. */
  lemma CleanBangExample()
    ensures Clean("Hi! ![[p]]") == "Hi! "
  {
    var pre := "Hi! ";
    assert "Hi! ![[p]]" == pre + "![[" + "p" + "]]" + "";
    forall i | 0 <= i < |pre| ensures !StartsWith((pre + MediaOpen)[i..], MediaOpen) {
      if i == 2 {
        DiffersAt((pre + MediaOpen)[i..], MediaOpen, 1);
      } else {
        DiffersAt((pre + MediaOpen)[i..], MediaOpen, 0);
      }
    }
    PlainMediaBody("p");
    CleanRemovesMedia(pre, "p", "");
    Spans.RemoveSpansNoOpen("", MediaOpen, LinkClose, true);
    CleanWithoutBracketChar(pre);
    assert pre + "" == pre;
  }

  /** An embedded image on its own leaves nothing. */
  lemma CleanMediaExample()
    ensures Clean("![[diagram.png]]") == ""
  {
    PlainMediaBody("diagram.png");
    assert "![[diagram.png]]" == "" + "![[" + "diagram.png" + "]]" + "";
    CleanRemovesMedia("", "diagram.png", "");
    CleanWithoutBrackets("");
  }

}

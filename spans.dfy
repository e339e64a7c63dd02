/**
 * A left-to-right scanner for the non-greedy regular expression
 * `OPEN.*?CLOSE` replaced by the empty string, with every match removed.
 * At each position the scanner tries a match: the text must start with
 * `open`, and the match ends at the FIRST later occurrence of `close`.
 * With `singleLine` (Python's `.`), a newline before that occurrence makes
 * the attempt fail; without it (JavaScript's `[\s\S]`), any character may
 * occur in between. A failed attempt keeps one character and moves on.
 */
module Spans {
  import opened Wrappers
  import opened Text

  /** `close` occurs in `t` at offset `k`. */
  predicate ClosesAt(t: string, close: string, k: nat) {
    k + |close| <= |t| && t[k..k + |close|] == close
  }

  /** `t[..k]` may be the body of a match: no earlier `close` starts in it, and no newline when `singleLine`. */
  predicate BodyBefore(t: string, close: string, k: nat, singleLine: bool) {
    k <= |t| && forall j :: 0 <= j < k ==> !ClosesAt(t, close, j) && (singleLine ==> t[j] != '\n')
  }

  /** Where the body that starts at `t[0]` ends: the first occurrence of `close` the body may reach. */
  function FindClose(t: string, close: string, singleLine: bool, from: nat): (r: Option<nat>)
    requires BodyBefore(t, close, from, singleLine)
    ensures r.Some? ==> from <= r.value && ClosesAt(t, close, r.value) && BodyBefore(t, close, r.value, singleLine)
    ensures r.None? ==> forall k :: ClosesAt(t, close, k) ==> !BodyBefore(t, close, k, singleLine)
    decreases |t| - from
  {
    if ClosesAt(t, close, from) then Some(from)
    else if from == |t| || (singleLine && t[from] == '\n') then None
    else FindClose(t, close, singleLine, from + 1)
  }

  /** There is only one place a body can end. */
  lemma BodyEndUnique(t: string, close: string, singleLine: bool, k: nat, k': nat)
    requires ClosesAt(t, close, k) && BodyBefore(t, close, k, singleLine)
    requires ClosesAt(t, close, k') && BodyBefore(t, close, k', singleLine)
    ensures k == k'
  {
  }

  /** `s` with every match of `open.*?close` removed. */
  function RemoveSpans(s: string, open: string, close: string, singleLine: bool): (r: string)
    requires |open| > 0
    ensures |r| <= |s|
    decreases |s|
  {
    if |s| == 0 then ""
    else if StartsWith(s, open) then
      match FindClose(s[|open|..], close, singleLine, 0)
      case Some(k) => RemoveSpans(s[|open| + k + |close|..], open, close, singleLine)
      case None => [s[0]] + RemoveSpans(s[1..], open, close, singleLine)
    else [s[0]] + RemoveSpans(s[1..], open, close, singleLine)
  }

  /** `open` starts at none of the first `n` positions of `s`, so no match can start there. */
  predicate NoOpenBefore(s: string, open: string, n: nat) {
    forall i :: 0 <= i < n && i < |s| ==> !StartsWith(s[i..], open)
  }

  /** Text in which no match can start is copied through unchanged, whatever follows it. */
  lemma {:induction false} RemoveSpansPrefix(pre: string, rest: string, open: string, close: string, singleLine: bool)
    requires |open| > 0 && NoOpenBefore(pre + rest, open, |pre|)
    ensures RemoveSpans(pre + rest, open, close, singleLine) == pre + RemoveSpans(rest, open, close, singleLine)
    decreases |pre|
  {
    if |pre| > 0 {
      HeadAndTail(pre, rest, RemoveSpans(rest, open, close, singleLine));
      NoOpenShift(pre, rest, open);
      RemoveSpansPrefix(pre[1..], rest, open, close, singleLine);
      RemoveSpansLiteral(pre + rest, open, close, singleLine);
    } else {
      assert pre + rest == rest;
    }
  }

  /** Dropping the first character of the prefix keeps it free of openings. */
  lemma NoOpenShift(pre: string, rest: string, open: string)
    requires |pre| > 0 && NoOpenBefore(pre + rest, open, |pre|)
    ensures !StartsWith(pre + rest, open)
    ensures NoOpenBefore(pre[1..] + rest, open, |pre| - 1)
  {
    assert (pre + rest)[0..] == pre + rest;
    forall i | 0 <= i < |pre| - 1 ensures (pre[1..] + rest)[i..] == (pre + rest)[i + 1..] {
    }
  }

  /** Whether `open` starts before `n` is decided by the first `n - 1 + |open|` characters. */
  lemma NoOpenExtend(x: string, y: string, open: string, n: nat)
    requires |open| > 0 && n + |open| <= |x| + 1
    ensures NoOpenBefore(x + y, open, n) <==> NoOpenBefore(x, open, n)
  {
    forall i | 0 <= i < n && i < |x|
      ensures StartsWith((x + y)[i..], open) <==> StartsWith(x[i..], open)
    {
      assert (x + y)[i..][..|open|] == x[i..][..|open|];
    }
  }

  /** A position where `open` does not start is copied. */
  lemma RemoveSpansLiteral(s: string, open: string, close: string, singleLine: bool)
    requires |open| > 0 && |s| > 0 && !StartsWith(s, open)
    ensures RemoveSpans(s, open, close, singleLine) == [s[0]] + RemoveSpans(s[1..], open, close, singleLine)
  {
  }

  /** A string in which `open` occurs nowhere is left unchanged. */
  lemma {:induction false} RemoveSpansNoOpen(s: string, open: string, close: string, singleLine: bool)
    requires |open| > 0
    requires forall i :: 0 <= i < |s| ==> !StartsWith(s[i..], open)
    ensures RemoveSpans(s, open, close, singleLine) == s
    decreases |s|
  {
    if |s| > 0 {
      assert !StartsWith(s[0..], open);
      assert s[0..] == s;
      forall i | 0 <= i < |s[1..]| ensures !StartsWith(s[1..][i..], open) {
        assert s[1..][i..] == s[i + 1..];
      }
      RemoveSpansNoOpen(s[1..], open, close, singleLine);
    }
  }

  /**
   * A complete span `open + body + close`, where `body` reaches no earlier
   * `close` (and no newline when `singleLine`), is removed and contributes
   * nothing; scanning carries on right after it.
   */
  lemma RemoveSpansSpan(body: string, post: string, open: string, close: string, singleLine: bool)
    requires |open| > 0
    requires BodyBefore(body + close, close, |body|, singleLine)
    ensures RemoveSpans(open + body + close + post, open, close, singleLine) == RemoveSpans(post, open, close, singleLine)
  {
    var s := open + body + close + post;
    var t := s[|open|..];
    assert t == body + close + post;
    assert (body + close + post)[..|body| + |close|] == body + close;
    assert ClosesAt(t, close, |body|);
    assert BodyBefore(t, close, |body|, singleLine) by {
      forall j | 0 <= j < |body| ensures !ClosesAt(t, close, j) && (singleLine ==> t[j] != '\n') {
        assert !ClosesAt(body + close, close, j);
        assert t[j..j + |close|] == (body + close)[j..j + |close|];
      }
    }
    assert StartsWith(s, open);
    match FindClose(t, close, singleLine, 0)
    case Some(k) =>
      BodyEndUnique(t, close, singleLine, k, |body|);
      assert s[|open| + k + |close|..] == post;
    case None =>
      assert false;
  }

  /** Every span that starts after text in which no match can start is cut out. */
  lemma {:induction false} RemoveSpansAfter(pre: string, body: string, post: string, open: string, close: string, singleLine: bool)
    requires |open| > 0 && NoOpenBefore(pre + open, open, |pre|)
    requires BodyBefore(body + close, close, |body|, singleLine)
    ensures RemoveSpans(pre + open + body + close + post, open, close, singleLine)
         == pre + RemoveSpans(post, open, close, singleLine)
  {
    assert pre + open + body + close + post == pre + open + (body + close + post);
    NoOpenExtend(pre + open, body + close + post, open, |pre|);
    assert pre + open + (body + close + post) == pre + (open + body + close + post);
    RemoveSpansPrefix(pre, open + body + close + post, open, close, singleLine);
    RemoveSpansSpan(body, post, open, close, singleLine);
  }

  /** An opening without a reachable closing is kept as literal text. */
  lemma RemoveSpansUnclosed(s: string, open: string, close: string, singleLine: bool)
    requires |open| > 0 && StartsWith(s, open)
    requires forall k :: ClosesAt(s[|open|..], close, k) ==> !BodyBefore(s[|open|..], close, k, singleLine)
    ensures RemoveSpans(s, open, close, singleLine) == [s[0]] + RemoveSpans(s[1..], open, close, singleLine)
  {
    var t := s[|open|..];
    match FindClose(t, close, singleLine, 0)
    case Some(k) =>
      assert false;
    case None =>
  }
}

/**
 * String helpers shared by the ingester, the server and the chat page:
 * prefix/suffix tests, first occurrence of a character, join/split,
 * trimming with a language-specific whitespace set, and the decimal
 * rendering of a natural number (Python's `str(i)` inside an f-string).
 */
module Text {
  import opened Wrappers

  predicate StartsWith(s: string, w: string) {
    |w| <= |s| && s[..|w|] == w
  }

  predicate EndsWith(s: string, w: string) {
    |w| <= |s| && s[|s| - |w|..] == w
  }

  /** A string that differs from `w` at position `k` does not start with `w`. */
  lemma DiffersAt(s: string, w: string, k: nat)
    requires k < |w| && (k >= |s| || s[k] != w[k])
    ensures !StartsWith(s, w)
  {
    if |w| <= |s| {
      assert s[..|w|][k] == s[k];
    }
  }

  /** Index of the first occurrence of `c` in `t`, if any. */
  function IndexOf(t: string, c: char, from: nat): (r: Option<nat>)
    requires from <= |t|
    requires c !in t[..from]
    ensures r.Some? ==> from <= r.value < |t| && t[r.value] == c && c !in t[..r.value]
    ensures r.None? ==> c !in t
    decreases |t| - from
  {
    if from == |t| then
      assert t[..from] == t;
      None
    else if t[from] == c then Some(from)
    else
      assert t[..from + 1] == t[..from] + [t[from]];
      IndexOf(t, c, from + 1)
  }

  /** Sequence facts about taking the first character of `pre + rest`. */
  lemma HeadAndTail(pre: string, rest: string, r: string)
    requires |pre| > 0
    ensures (pre + rest)[0] == pre[0] && (pre + rest)[1..] == pre[1..] + rest
    ensures forall c :: c in pre[1..] ==> c in pre
    ensures [pre[0]] + (pre[1..] + r) == pre + r
  {
    assert pre == [pre[0]] + pre[1..];
  }

  /** `sep.join(parts)` in Python, `parts.join(sep)` in JavaScript. */
  function Join(parts: seq<string>, sep: string): string
  {
    if |parts| == 0 then ""
    else if |parts| == 1 then parts[0]
    else Join(parts[..|parts| - 1], sep) + sep + parts[|parts| - 1]
  }

  /** Joining the first `i` parts gives a prefix of joining all of them. */
  lemma {:induction false} JoinPrefix(parts: seq<string>, sep: string, i: nat)
    requires 1 <= i <= |parts|
    ensures StartsWith(Join(parts, sep), Join(parts[..i], sep))
    decreases |parts|
  {
    var n := |parts|;
    if i < n {
      JoinPrefix(parts[..n - 1], sep, i);
      assert parts[..n - 1][..i] == parts[..i];
      var front := Join(parts[..n - 1], sep);
      assert Join(parts, sep) == front + (sep + parts[n - 1]);
    } else {
      assert parts[..i] == parts;
    }
  }

  /**
   * Every part occurs in the joined string right after the earlier parts
   * and one separator, starting at the returned position.
   */
  lemma JoinContains(parts: seq<string>, sep: string, k: nat) returns (pos: nat)
    requires k < |parts|
    ensures pos == if k == 0 then 0 else |Join(parts[..k], sep)| + |sep|
    ensures k == 0 ==> StartsWith(Join(parts, sep), parts[0])
    ensures k > 0 ==> StartsWith(Join(parts, sep), Join(parts[..k], sep) + sep + parts[k])
    ensures pos + |parts[k]| <= |Join(parts, sep)|
    ensures Join(parts, sep)[pos..pos + |parts[k]|] == parts[k]
  {
    JoinPrefix(parts, sep, k + 1);
    var front := parts[..k + 1];
    if k == 0 {
      pos := 0;
      assert Join(front, sep) == parts[0];
      StartsWithSlice(Join(parts, sep), "", parts[0]);
    } else {
      pos := |Join(parts[..k], sep)| + |sep|;
      assert front[..k] == parts[..k];
      assert Join(front, sep) == Join(parts[..k], sep) + sep + parts[k];
      StartsWithSlice(Join(parts, sep), Join(parts[..k], sep) + sep, parts[k]);
    }
  }

  /** A string that starts with `a + b` holds `b` right after `a`. */
  lemma StartsWithSlice(s: string, a: string, b: string)
    requires StartsWith(s, a + b)
    ensures |a| + |b| <= |s| && s[|a|..|a| + |b|] == b
  {
    assert s[|a|..|a| + |b|] == s[..|a| + |b|][|a|..];
  }

  /** A slice of the middle part of `a + b + c`. */
  lemma SliceOfMiddle(a: string, b: string, c: string, i: nat, n: nat)
    requires i + n <= |b|
    ensures |a| + i + n <= |a + b + c| && (a + b + c)[|a| + i..|a| + i + n] == b[i..i + n]
  {
  }

  /** The first `c` of `a + b` is the first `c` of `a` when `a` has one. */
  lemma IndexOfAppend(a: string, b: string, c: char)
    requires c in a
    ensures IndexOf(a + b, c, 0) == IndexOf(a, c, 0)
  {
    var e0 := IndexOf(a, c, 0).value;
    var r := IndexOf(a + b, c, 0);
    assert (a + b)[e0] == c;
    assert (a + b)[..e0] == a[..e0];
  }

  /**
   * JavaScript's `s.split(c)` for a one-character separator and no limit:
   * the pieces between consecutive occurrences of `c`, so that
   * `"".split(c)` is `[""]` and two adjacent separators give an empty piece.
   */
  function Split(s: string, c: char): (r: seq<string>)
    ensures |r| >= 1
    ensures forall i :: 0 <= i < |r| ==> c !in r[i]
    decreases |s|
  {
    if |s| == 0 then [""]
    else
      var init := Split(s[..|s| - 1], c);
      var x := s[|s| - 1];
      if x == c then init + [""]
      else init[..|init| - 1] + [init[|init| - 1] + [x]]
  }

  lemma JoinSnoc(parts: seq<string>, last: string, sep: string)
    requires |parts| > 0
    ensures Join(parts + [last], sep) == Join(parts, sep) + sep + last
  {
    assert (parts + [last])[..|parts|] == parts;
  }

  /** How `Split` extends when one character is appended. */
  lemma SplitSnoc(front: string, x: char, c: char)
    ensures var init := Split(front, c);
      Split(front + [x], c) == if x == c then init + [""] else init[..|init| - 1] + [init[|init| - 1] + [x]]
  {
    assert (front + [x])[..|front|] == front;
  }

  /** Joining the pieces of a split with the separator gives back the string. */
  lemma {:induction false} JoinSplit(s: string, c: char)
    ensures Join(Split(s, c), [c]) == s
    decreases |s|
  {
    if |s| > 0 {
      var front, x := s[..|s| - 1], s[|s| - 1];
      assert s == front + [x];
      var init := Split(front, c);
      JoinSplit(front, c);
      SplitSnoc(front, x, c);
      var n := |init|;
      if x == c {
        JoinSnoc(init, "", [c]);
      } else if n > 1 {
        var y := init[n - 1] + [x];
        JoinSnoc(init[..n - 1], y, [c]);
        assert init == init[..n - 1] + [init[n - 1]];
        JoinSnoc(init[..n - 1], init[n - 1], [c]);
      }
    }
  }

  lemma {:induction false} SplitSeparatorFree(w: string, c: char)
    requires c !in w
    ensures Split(w, c) == [w]
    decreases |w|
  {
    if |w| > 0 {
      SplitSeparatorFree(w[..|w| - 1], c);
      assert w == w[..|w| - 1] + [w[|w| - 1]];
    }
  }

  lemma {:induction false} SplitAfterSeparator(a: string, c: char, last: string)
    requires c !in last
    ensures Split(a + [c] + last, c) == Split(a, c) + [last]
    decreases |last|
  {
    if |last| == 0 {
      assert a + [c] + last == a + [c];
      assert (a + [c])[..|a|] == a;
    } else {
      var front, x := last[..|last| - 1], last[|last| - 1];
      SplitAfterSeparator(a, c, front);
      assert a + [c] + last == (a + [c] + front) + [x] by {
        assert last == front + [x];
      }
      SplitSnoc(a + [c] + front, x, c);
      var init := Split(a + [c] + front, c);
      assert init == Split(a, c) + [front];
      assert init[..|init| - 1] == Split(a, c);
    }
  }

  /** Splitting a join of separator-free words gives back the words. */
  lemma {:induction false} SplitJoin(words: seq<string>, c: char)
    requires |words| >= 1
    requires forall i :: 0 <= i < |words| ==> c !in words[i]
    ensures Split(Join(words, [c]), c) == words
    decreases |words|
  {
    var n := |words|;
    if n == 1 {
      SplitSeparatorFree(words[0], c);
    } else {
      var init := words[..n - 1];
      SplitJoin(init, c);
      SplitAfterSeparator(Join(init, [c]), c, words[n - 1]);
      assert words == init + [words[n - 1]];
    }
  }

  /** Drops the leading characters that satisfy `ws`. */
  function TrimStart(s: string, ws: char -> bool): (r: string)
    ensures |r| <= |s| && r == s[|s| - |r|..]
    ensures r == [] || !ws(r[0])
    ensures forall k :: 0 <= k < |s| - |r| ==> ws(s[k])
    decreases |s|
  {
    if |s| > 0 && ws(s[0]) then TrimStart(s[1..], ws) else s
  }

  /** Drops the trailing characters that satisfy `ws`. */
  function TrimEnd(s: string, ws: char -> bool): (r: string)
    ensures |r| <= |s| && r == s[..|r|]
    ensures r == [] || !ws(r[|r| - 1])
    ensures forall k :: |r| <= k < |s| ==> ws(s[k])
    decreases |s|
  {
    if |s| > 0 && ws(s[|s| - 1]) then TrimEnd(s[..|s| - 1], ws) else s
  }

  /** Python's `s.strip()` / JavaScript's `s.trim()` for the whitespace set `ws`. */
  function Trim(s: string, ws: char -> bool): string
  {
    TrimEnd(TrimStart(s, ws), ws)
  }

  /** The trimmed string neither begins nor ends with whitespace. */
  lemma TrimBoundaries(s: string, ws: char -> bool)
    ensures var r := Trim(s, ws); r == [] || (!ws(r[0]) && !ws(r[|r| - 1]))
  {
    var t := TrimStart(s, ws);
    var r := TrimEnd(t, ws);
    if r != [] {
      assert r[0] == t[0];
    }
  }

  /** Trimming leaves nothing exactly when every character is whitespace. */
  lemma TrimEmptyIffBlank(s: string, ws: char -> bool)
    ensures Trim(s, ws) == [] <==> forall k :: 0 <= k < |s| ==> ws(s[k])
  {
    var t := TrimStart(s, ws);
    if Trim(s, ws) == [] {
      assert t == [];
    }
  }

  /** `r` is `s[i..j]`, and everything outside `i..j` satisfies `ws`. */
  predicate TrimmedTo(s: string, r: string, ws: char -> bool, i: int, j: int) {
    0 <= i <= j <= |s| && r == s[i..j]
    && (forall k :: 0 <= k < i ==> ws(s[k]))
    && (forall k :: j <= k < |s| ==> ws(s[k]))
  }

  /** Trimming cuts out an infix of the string and drops only whitespace around it. */
  lemma TrimIsInfix(s: string, ws: char -> bool)
    ensures exists i, j :: TrimmedTo(s, Trim(s, ws), ws, i, j)
  {
    var t := TrimStart(s, ws);
    var r := TrimEnd(t, ws);
    assert Trim(s, ws) == r;
    TrimmedAt(s, t, r, ws);
  }

  /** What trimming promises: an infix cut out of the string, with no whitespace left at either end. */
  lemma TrimFacts(s: string, ws: char -> bool)
    ensures |Trim(s, ws)| <= |s|
    ensures exists i, j :: TrimmedTo(s, Trim(s, ws), ws, i, j)
    ensures var r := Trim(s, ws); r == [] || (!ws(r[0]) && !ws(r[|r| - 1]))
  {
    TrimBoundaries(s, ws);
    TrimIsInfix(s, ws);
  }

  /** A suffix after leading whitespace, cut before trailing whitespace, is such an infix. */
  lemma TrimmedAt(s: string, t: string, r: string, ws: char -> bool)
    requires |t| <= |s| && t == s[|s| - |t|..]
    requires forall k :: 0 <= k < |s| - |t| ==> ws(s[k])
    requires |r| <= |t| && r == t[..|r|]
    requires forall k :: |r| <= k < |t| ==> ws(t[k])
    ensures TrimmedTo(s, r, ws, |s| - |t|, |s| - |t| + |r|)
  {
    var i := |s| - |t|;
    forall k | i + |r| <= k < |s| ensures ws(s[k]) {
      assert s[k] == t[k - i];
    }
  }

  function DigitChar(d: nat): (c: char)
    requires d < 10
    ensures '0' <= c <= '9'
  {
    ('0' as int + d) as char
  }

  predicate AllDigits(s: string) {
    forall k :: 0 <= k < |s| ==> '0' <= s[k] <= '9'
  }

  /** Decimal rendering of `n`, as Python's `str(n)`: digits only, no leading zero. */
  function NatToDecimal(n: nat): (r: string)
    ensures |r| >= 1 && AllDigits(r)
    ensures |r| > 1 ==> r[0] != '0'
  {
    if n < 10 then [DigitChar(n)] else NatToDecimal(n / 10) + [DigitChar(n % 10)]
  }

  /** Value of a string of decimal digits. */
  function DecimalValue(s: string): nat
    requires AllDigits(s)
  {
    if |s| == 0 then 0 else DecimalValue(s[..|s| - 1]) * 10 + (s[|s| - 1] as int - '0' as int)
  }

  lemma {:induction false} DecimalRoundTrip(n: nat)
    ensures DecimalValue(NatToDecimal(n)) == n
  {
    if n >= 10 {
      DecimalRoundTrip(n / 10);
      var r := NatToDecimal(n);
      assert r[..|r| - 1] == NatToDecimal(n / 10);
    }
  }

  lemma DecimalInjective(i: nat, j: nat)
    requires NatToDecimal(i) == NatToDecimal(j)
    ensures i == j
  {
    DecimalRoundTrip(i);
    DecimalRoundTrip(j);
  }
}

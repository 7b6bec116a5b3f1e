/**
 * The Python `str` operations the feed processor relies on, stated over Dafny
 * strings (sequences of Unicode code points): `isspace`, `strip`,
 * `splitlines`, `replace`, `startswith` and slicing with `[:n]`.
 */
module PyText {

  /** `str.isspace()` on one character: what `str.strip()` removes when given no argument. */
  predicate IsSpace(c: char) {
    || ('\t' <= c <= '\r')
    || ('\U{1C}' <= c <= ' ')
    || c == '\U{85}' || c == '\U{A0}' || c == '\U{1680}'
    || ('\U{2000}' <= c <= '\U{200A}')
    || c == '\U{2028}' || c == '\U{2029}' || c == '\U{202F}' || c == '\U{205F}' || c == '\U{3000}'
  }

  /** The line boundaries `str.splitlines()` splits on ("\r\n" counts as one boundary). */
  predicate IsLineBreak(c: char) {
    || ('\n' <= c <= '\r')
    || ('\U{1C}' <= c <= '\U{1E}')
    || c == '\U{85}' || c == '\U{2028}' || c == '\U{2029}'
  }

  predicate StartsWith(s: string, prefix: string) {
    |prefix| <= |s| && s[..|prefix|] == prefix
  }

  /** `pat` occurs in `s` at index `i`. */
  predicate StartsAt(s: string, pat: string, i: nat) {
    i + |pat| <= |s| && s[i..i + |pat|] == pat
  }

  predicate Contains(s: string, pat: string) {
    exists i: nat | i <= |s| :: StartsAt(s, pat, i)
  }

  /** `s[:n]`: at most the first `n` characters. */
  function Truncate(s: string, n: nat): (r: string)
    ensures |r| == (if |s| <= n then |s| else n) && StartsWith(s, r)
    ensures |s| <= n ==> r == s
  {
    if |s| <= n then s else s[..n]
  }

  // ---------------------------------------------------------------- strip

  /** Removes leading characters satisfying `drop`. */
  function TrimLeft(s: string, drop: char -> bool): (r: string)
    ensures |r| <= |s| && r == s[|s| - |r|..]
    ensures forall i :: 0 <= i < |s| - |r| ==> drop(s[i])
    ensures r == [] || !drop(r[0])
  {
    if s != [] && drop(s[0]) then TrimLeft(s[1..], drop) else s
  }

  /** Removes trailing characters satisfying `drop`. */
  function TrimRight(s: string, drop: char -> bool): (r: string)
    ensures |r| <= |s| && r == s[..|r|]
    ensures forall i :: |r| <= i < |s| ==> drop(s[i])
    ensures r == [] || !drop(r[|r| - 1])
  {
    if s != [] && drop(s[|s| - 1]) then TrimRight(s[..|s| - 1], drop) else s
  }

  /** `s.strip(chars)`, with the set of characters given as a predicate. */
  function Trim(s: string, drop: char -> bool): string {
    TrimRight(TrimLeft(s, drop), drop)
  }

  /**
   * `r` is `s` with its leading and trailing `drop` characters removed: a
   * slice of `s` with only such characters outside it, and neither starting
   * nor ending with one itself.
   */
  predicate TrimmedOf(s: string, r: string, drop: char -> bool) {
    && (r == [] || (!drop(r[0]) && !drop(r[|r| - 1])))
    && exists i: nat | i + |r| <= |s| :: TrimmedAt(s, r, drop, i)
  }

  /** `r` sits at index `i` of `s`, with only `drop` characters before and after it. */
  predicate TrimmedAt(s: string, r: string, drop: char -> bool, i: nat)
    requires i + |r| <= |s|
  {
    && r == s[i..i + |r|]
    && (forall k | 0 <= k < i :: drop(s[k]))
    && (forall k | i + |r| <= k < |s| :: drop(s[k]))
  }

  /** `strip` removes exactly the leading and trailing run of trimmed characters. */
  lemma TrimIsTrimmedOf(s: string, drop: char -> bool)
    ensures TrimmedOf(s, Trim(s, drop), drop)
  {
    var l := TrimLeft(s, drop);
    var r := TrimRight(l, drop);
    var i := |s| - |l|;
    assert l == s[i..] && r == l[..|r|];
    assert r == s[i..i + |r|];
    forall k | i + |r| <= k < |s|
      ensures drop(s[k])
    {
      assert s[k] == l[k - i];
    }
    assert TrimmedAt(s, r, drop, i);
    if r != [] {
      assert r[0] == l[0];
    }
  }

  /** `s.strip()`. */
  function Strip(s: string): string {
    Trim(s, IsSpace)
  }

  /** The result of `strip` is empty exactly when every character of the input is trimmed. */
  lemma TrimEmptyIffAllDropped(s: string, drop: char -> bool)
    ensures Trim(s, drop) == [] <==> forall i :: 0 <= i < |s| ==> drop(s[i])
  {
  }

  /** Stripping twice is stripping once (the source strips the address a second time). */
  lemma TrimIdempotent(s: string, drop: char -> bool)
    ensures Trim(Trim(s, drop), drop) == Trim(s, drop)
  {
  }

  // ----------------------------------------------------------- splitlines

  /** The index of the first line boundary of `s`, or `|s|` when there is none. */
  function LineLength(s: string): (n: nat)
    ensures n <= |s|
    ensures forall i :: 0 <= i < n ==> !IsLineBreak(s[i])
    ensures n < |s| ==> IsLineBreak(s[n])
  {
    if s == [] || IsLineBreak(s[0]) then 0 else 1 + LineLength(s[1..])
  }

  predicate NoLineBreak(line: string) {
    forall i :: 0 <= i < |line| ==> !IsLineBreak(line[i])
  }

  /** Where the line after the first boundary of `s` starts: "\r\n" is one boundary. */
  function NextLine(s: string): (next: nat)
    requires LineLength(s) < |s|
    ensures LineLength(s) < next <= |s|
  {
    var n := LineLength(s);
    if s[n] == '\r' && n + 1 < |s| && s[n + 1] == '\n' then n + 2 else n + 1
  }

  /**
   * `s.splitlines()`: the lines of `s` without their boundaries; a boundary at
   * the very end does not start another (empty) line.
   */
  function SplitLines(s: string): (lines: seq<string>)
    ensures |lines| <= |s|
    ensures s == [] <==> lines == []
    ensures forall l <- lines :: NoLineBreak(l)
    decreases |s|
  {
    if s == [] then []
    else
      var n := LineLength(s);
      if n == |s| then [s]
      else [s[..n]] + SplitLines(s[NextLine(s)..])
  }

  /** A line boundary as `splitlines` consumes it: one break character, or "\r\n" taken together. */
  predicate IsBoundary(b: string) {
    b == "\r\n" || (|b| == 1 && IsLineBreak(b[0]))
  }

  /** The boundaries `SplitLines` removes, in order. */
  function Breaks(s: string): seq<string>
    decreases |s|
  {
    if s == [] then []
    else
      var n := LineLength(s);
      if n == |s| then []
      else [s[n..NextLine(s)]] + Breaks(s[NextLine(s)..])
  }

  /** Lines with their boundaries put back between them (and after the last, when there is one more boundary). */
  function JoinLines(lines: seq<string>, breaks: seq<string>): string
    requires |breaks| <= |lines| <= |breaks| + 1
    decreases |lines|
  {
    if lines == [] then []
    else if breaks == [] then lines[0]
    else lines[0] + breaks[0] + JoinLines(lines[1..], breaks[1..])
  }

  /** One step of `SplitLines`: the first line, then the lines after its boundary. */
  lemma SplitLinesStep(s: string)
    requires s != [] && LineLength(s) < |s|
    ensures SplitLines(s) == [s[..LineLength(s)]] + SplitLines(s[NextLine(s)..])
  {
  }

  /** The first line of non-empty text runs up to its first boundary. */
  lemma FirstLine(s: string)
    requires s != []
    ensures SplitLines(s)[0] == s[..LineLength(s)]
  {
  }

  /** One step of `Breaks`: the first boundary, then the boundaries after it. */
  lemma BreaksStep(s: string)
    requires s != [] && LineLength(s) < |s|
    ensures Breaks(s) == [s[LineLength(s)..NextLine(s)]] + Breaks(s[NextLine(s)..])
  {
  }

  /**
   * `splitlines` loses nothing but the boundaries: putting them back gives
   * the text, and there is one more line than boundaries exactly when the
   * text does not end on a boundary.
   */
  lemma {:induction false} SplitLinesJoin(s: string)
    ensures |Breaks(s)| <= |SplitLines(s)| <= |Breaks(s)| + 1
    ensures JoinLines(SplitLines(s), Breaks(s)) == s
    ensures |SplitLines(s)| == |Breaks(s)| + 1 <==> s != [] && !IsLineBreak(s[|s| - 1])
    decreases |s|
  {
    if s != [] && LineLength(s) < |s| {
      var n, next := LineLength(s), NextLine(s);
      var rest := s[next..];
      SplitLinesJoin(rest);
      SplitLinesStep(s);
      BreaksStep(s);
      var lines, breaks := SplitLines(s), Breaks(s);
      assert lines[1..] == SplitLines(rest) && breaks[1..] == Breaks(rest);
      assert s == s[..n] + s[n..next] + rest;
      if rest == [] {
        assert s[|s| - 1] == s[next - 1];
      } else {
        assert s[|s| - 1] == rest[|rest| - 1];
      }
    }
  }

  /** Every piece `SplitLines` removes is one boundary. */
  lemma {:induction false} BreaksAreBoundaries(s: string)
    ensures forall b <- Breaks(s) :: IsBoundary(b)
    decreases |s|
  {
    if s != [] && LineLength(s) < |s| {
      var n, next := LineLength(s), NextLine(s);
      var first := s[n..next];
      assert IsBoundary(first) by {
        if next == n + 2 {
          assert first[0] == '\r' && first[1] == '\n';
        } else {
          assert first[0] == s[n];
        }
      }
      BreaksAreBoundaries(s[next..]);
      BreaksStep(s);
    }
  }

  /** "\r\n" is a single boundary: a "\r" boundary is never followed by an empty line ended by "\n". */
  lemma {:induction false} CrLfCountsOnce(s: string, i: nat)
    requires i + 1 < |Breaks(s)| && i + 1 < |SplitLines(s)|
    requires Breaks(s)[i] == "\r" && SplitLines(s)[i + 1] == []
    ensures Breaks(s)[i + 1] != "\n"
    decreases |s|
  {
    var n, next := LineLength(s), NextLine(s);
    var rest := s[next..];
    SplitLinesStep(s);
    BreaksStep(s);
    if i == 0 {
      // a lone "\r": the text after it does not start with "\n"
      assert |"\r"| == 1 && "\r"[0] == '\r';
      assert next == n + 1 && rest != [];
      assert rest[0] == s[n + 1] && rest[0] != '\n';
      FirstLine(rest);
      assert LineLength(rest) == 0;
      BreaksStep(rest);
      assert Breaks(s)[1][0] == rest[0];
      assert "\n"[0] == '\n';
    } else {
      CrLfCountsOnce(rest, i - 1);
    }
  }

  // -------------------------------------------------------------- replace

  /**
   * `s.replace(pat, rep, count)`: one left-to-right pass replacing
   * non-overlapping occurrences of `pat`; a negative `count` means all of them.
   */
  function Replace(s: string, pat: string, rep: string, count: int): string
    requires pat != []
    decreases |s|
  {
    if count == 0 || |s| < |pat| then s
    else if s[..|pat|] == pat then rep + Replace(s[|pat|..], pat, rep, if count > 0 then count - 1 else count)
    else [s[0]] + Replace(s[1..], pat, rep, count)
  }

  function ReplaceAll(s: string, pat: string, rep: string): string
    requires pat != []
  {
    Replace(s, pat, rep, -1)
  }

    /** An occurrence at the front is replaced, and the pass goes on after it. */
  lemma ReplaceAtMatch(s: string, pat: string, rep: string, count: int)
    requires pat != [] && count != 0 && StartsAt(s, pat, 0)
    ensures Replace(s, pat, rep, count) == rep + Replace(s[|pat|..], pat, rep, if count > 0 then count - 1 else count)
  {
  }

  /** A front character that starts no occurrence is copied. */
  lemma ReplaceNoMatch(s: string, pat: string, rep: string, count: int)
    requires pat != [] && s != [] && !StartsAt(s, pat, 0)
    ensures Replace(s, pat, rep, count) == [s[0]] + Replace(s[1..], pat, rep, count)
  {
    if count == 0 || |s| < |pat| {
      assert Replace(s[1..], pat, rep, count) == s[1..];
    }
  }

  /** Occurrences in `s[1..]` are those of `s`, one index earlier. */
  lemma StartsAtShift(s: string, pat: string, i: nat)
    requires s != []
    ensures StartsAt(s[1..], pat, i) == StartsAt(s, pat, i + 1)
  {
    if i + |pat| <= |s| - 1 {
      assert s[1..][i..i + |pat|] == s[i + 1..i + 1 + |pat|];
    }
  }

  /** A prefix in which no occurrence of `pat` starts is copied unchanged. */
  lemma {:induction false} ReplaceSkip(s: string, pat: string, rep: string, count: int, n: nat)
    requires pat != [] && n <= |s|
    requires forall i: nat :: i < n ==> !StartsAt(s, pat, i)
    ensures Replace(s, pat, rep, count) == s[..n] + Replace(s[n..], pat, rep, count)
  {
    if n == 0 {
      assert s[..0] == [] && s[0..] == s;
    } else {
      assert !StartsAt(s, pat, 0);
      ReplaceNoMatch(s, pat, rep, count);
      var t := s[1..];
      forall i: nat | i < n - 1 ensures !StartsAt(t, pat, i) {
        StartsAtShift(s, pat, i);
      }
      ReplaceSkip(t, pat, rep, count, n - 1);
      assert [s[0]] + t[..n - 1] == s[..n];
      assert t[n - 1..] == s[n..];
    }
  }

  /** Text without an occurrence of `pat` is left as it is. */
  lemma ReplaceAbsent(s: string, pat: string, rep: string, count: int)
    requires pat != [] && !Contains(s, pat)
    ensures Replace(s, pat, rep, count) == s
  {
    ReplaceSkip(s, pat, rep, count, |s|);
    assert s[..|s|] == s && s[|s|..] == [];
  }

  /** Characters of `pat[0]`-free text are copied unchanged. */
  lemma ReplaceFreePrefix(a: string, b: string, pat: string, rep: string, count: int)
    requires pat != [] && pat[0] !in a
    ensures Replace(a + b, pat, rep, count) == a + Replace(b, pat, rep, count)
  {
    var s := a + b;
    forall i: nat | i < |a| ensures !StartsAt(s, pat, i) {
      if i + |pat| <= |s| {
        assert s[i..i + |pat|][0] == s[i] == a[i] != pat[0];
      }
    }
    ReplaceSkip(s, pat, rep, count, |a|);
    assert s[..|a|] == a && s[|a|..] == b;
  }

  /** Wrapping text in a character that neither starts nor ends `pat` adds no occurrence of it. */
  lemma WrapKeepsAbsent(t: string, c: char, pat: string)
    requires pat != [] && pat[0] != c && pat[|pat| - 1] != c
    requires !Contains(t, pat)
    ensures !Contains([c] + t + [c], pat)
  {
    var w := [c] + t + [c];
    forall i: nat | i <= |w| ensures !StartsAt(w, pat, i) {
      if i + |pat| <= |w| {
        var u := w[i..i + |pat|];
        if i == 0 {
          assert u[0] == c;
        } else if i + |pat| == |w| {
          assert u[|pat| - 1] == c;
        } else {
          assert u == t[i - 1..i - 1 + |pat|];
          assert !StartsAt(t, pat, i - 1);
        }
      }
    }
  }
}

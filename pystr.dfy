/**
 * The three operations of Python's `str` that the volume scan relies on:
 * `splitlines()`, `split()` with no argument, and the substring test `in`.
 * Strings are sequences of Unicode scalar values, as Python 3 `str` is.
 */
module PyStr {

  /** Characters for which Python's `str.isspace()` is true. */
  predicate IsSpace(c: char) {
    || c == ' '
    || '\t' <= c <= '\r'              // \t \n \v \f \r
    || '\U{1C}' <= c <= '\U{1F}'      // file, group, record and unit separators
    || c == '\U{85}' || c == '\U{A0}' || c == '\U{1680}'
    || '\U{2000}' <= c <= '\U{200A}'
    || c == '\U{2028}' || c == '\U{2029}' || c == '\U{202F}' || c == '\U{205F}' || c == '\U{3000}'
  }

  predicate NotSpace(c: char) {
    !IsSpace(c)
  }

  /** The line boundaries recognised by `str.splitlines()` (`\r\n` counts as one, see BreakWidth). */
  predicate IsLineBreak(c: char) {
    || '\n' <= c <= '\r'              // \n \v \f \r
    || '\U{1C}' <= c <= '\U{1E}'
    || c == '\U{85}' || c == '\U{2028}' || c == '\U{2029}'
  }

  predicate NotLineBreak(c: char) {
    !IsLineBreak(c)
  }

  ghost predicate NoLineBreak(s: string) {
    forall i :: 0 <= i < |s| ==> NotLineBreak(s[i])
  }

  ghost predicate AllBreaks(t: string) {
    forall i :: 0 <= i < |t| ==> IsLineBreak(t[i])
  }

  /** A token of `split()`: non-empty and free of whitespace. */
  ghost predicate IsWord(w: string) {
    w != [] && forall i :: 0 <= i < |w| ==> NotSpace(w[i])
  }

  ghost predicate AllSpace(s: string) {
    forall i :: 0 <= i < |s| ==> IsSpace(s[i])
  }

  // ---------------------------------------------------------------------------
  // Maximal runs at either end of a string

  /** The character classes whose runs the operations below measure. */
  datatype CharClass = Whitespace | NonWhitespace | NonBreak

  predicate InClass(c: char, cls: CharClass) {
    match cls
    case Whitespace => IsSpace(c)
    case NonWhitespace => NotSpace(c)
    case NonBreak => NotLineBreak(c)
  }

  /** Length of the longest prefix of `s` whose characters all belong to class `cls`. */
  function Span(s: string, cls: CharClass): (n: nat)
    ensures n <= |s|
    ensures forall i :: 0 <= i < n ==> InClass(s[i], cls)
    ensures n < |s| ==> !InClass(s[n], cls)
  {
    if s == [] || !InClass(s[0], cls) then 0 else 1 + Span(s[1..], cls)
  }

  /** Length of the longest suffix of `s` whose characters all belong to class `cls`. */
  function RSpan(s: string, cls: CharClass): (n: nat)
    ensures n <= |s|
    ensures forall i :: |s| - n <= i < |s| ==> InClass(s[i], cls)
    ensures n < |s| ==> !InClass(s[|s| - 1 - n], cls)
  {
    if s == [] || !InClass(s[|s| - 1], cls) then 0 else 1 + RSpan(s[..|s| - 1], cls)
  }

  /** The run lengths are determined by their contracts. */
  lemma SpanIs(s: string, cls: CharClass, n: nat)
    requires n <= |s|
    requires forall i :: 0 <= i < n ==> InClass(s[i], cls)
    requires n < |s| ==> !InClass(s[n], cls)
    ensures Span(s, cls) == n
  {
  }

  lemma RSpanIs(s: string, cls: CharClass, n: nat)
    requires n <= |s|
    requires forall i :: |s| - n <= i < |s| ==> InClass(s[i], cls)
    requires n < |s| ==> !InClass(s[|s| - 1 - n], cls)
    ensures RSpan(s, cls) == n
  {
  }

  // ---------------------------------------------------------------------------
  // str.split() with no argument

  /**
   * Python's `s.split()`: the maximal runs of non-whitespace characters, in order;
   * runs of whitespace separate them and no empty piece is produced.
   */
  function Split(s: string): seq<string>
    decreases |s|
  {
    var k := Span(s, Whitespace);
    if k == |s| then []
    else
      var e := k + Span(s[k..], NonWhitespace);
      [s[k..e]] + Split(s[e..])
  }

  /** Every piece of `split()` is non-empty and free of whitespace. */
  lemma {:induction false} SplitWords(s: string)
    ensures forall k :: 0 <= k < |Split(s)| ==> IsWord(Split(s)[k])
    decreases |s|
  {
    var k := Span(s, Whitespace);
    if k < |s| {
      var t := s[k..];
      var n := Span(t, NonWhitespace);
      var e := k + n;
      assert t[0] == s[k];
      SpanWord(t, n);
      assert s[k..e] == t[..n];
      SplitUnfold(s, k, e);
      SplitWords(s[e..]);
      WordsCons(s[k..e], Split(s[e..]));
    }
  }

  /** The leading non-whitespace run of a string that starts with one is a token. */
  lemma SpanWord(t: string, n: nat)
    requires t != [] && NotSpace(t[0])
    requires n == Span(t, NonWhitespace)
    ensures IsWord(t[..n])
  {
    assert InClass(t[0], NonWhitespace);
    forall i | 0 <= i < n
      ensures NotSpace(t[..n][i])
    {
      assert t[..n][i] == t[i] && InClass(t[i], NonWhitespace);
    }
  }

  /** A token in front of a list of tokens gives a list of tokens. */
  lemma WordsCons(w: string, rest: seq<string>)
    requires IsWord(w)
    requires forall k :: 0 <= k < |rest| ==> IsWord(rest[k])
    ensures forall k :: 0 <= k < |[w] + rest| ==> IsWord(([w] + rest)[k])
  {
    forall k | 0 <= k < |[w] + rest|
      ensures IsWord(([w] + rest)[k])
    {
      if k > 0 {
        assert ([w] + rest)[k] == rest[k - 1];
      }
    }
  }

  /** `split()` yields nothing exactly when the string is all whitespace. */
  lemma SplitEmptyIff(s: string)
    ensures Split(s) == [] <==> AllSpace(s)
  {
    var k := Span(s, Whitespace);
    if k < |s| {
      assert !IsSpace(s[k]);
    }
  }

  /** `line.split()[-1]`. */
  function LastWord(s: string): (w: string)
    requires Split(s) != []
    ensures IsWord(w)
  {
    var words := Split(s);
    SplitWords(s);
    words[|words| - 1]
  }

  /**
   * An independent description of the last token: drop the trailing whitespace,
   * then take the longest whitespace-free suffix of what is left.
   */
  function FinalRun(s: string): string {
    FinalWord(TrimEnd(s))
  }

  /** `s.rstrip()`. */
  function TrimEnd(s: string): string {
    s[..|s| - RSpan(s, Whitespace)]
  }

  /** The longest whitespace-free suffix. */
  function FinalWord(t: string): string {
    t[|t| - RSpan(t, NonWhitespace)..]
  }

  /** RSpan is unaffected by a prefix when the suffix holds a character outside the run. */
  lemma RSpanOfAppend(a: string, b: string, cls: CharClass, j: nat)
    requires j < |b| && !InClass(b[j], cls)
    ensures RSpan(a + b, cls) == RSpan(b, cls)
  {
    var n := RSpan(b, cls);
    var s := a + b;
    assert forall i :: |s| - n <= i < |s| ==> s[i] == b[i - |a|];
    assert s[|s| - 1 - n] == b[|b| - 1 - n];
    RSpanIs(s, cls, n);
  }

  /** A whitespace-free run after whitespace (or at the start), followed only by whitespace, is the final run. */
  lemma FinalRunIs(s: string, k: nat, e: nat)
    requires k < e <= |s|
    requires forall i :: k <= i < e ==> NotSpace(s[i])
    requires k > 0 ==> IsSpace(s[k - 1])
    requires forall i :: e <= i < |s| ==> IsSpace(s[i])
    ensures FinalRun(s) == s[k..e]
  {
    assert NotSpace(s[e - 1]);
    RSpanIs(s, Whitespace, |s| - e);
    FinalWordOfPrefix(s, k, e);
  }

  /** The final run of `s[..e]` when `s[k..e]` is a maximal whitespace-free run. */
  lemma FinalWordOfPrefix(s: string, k: nat, e: nat)
    requires k < e <= |s|
    requires forall i :: k <= i < e ==> NotSpace(s[i])
    requires k > 0 ==> IsSpace(s[k - 1])
    ensures FinalWord(s[..e]) == s[k..e]
  {
    var t := s[..e];
    assert forall i :: k <= i < e ==> t[i] == s[i];
    assert k > 0 ==> t[k - 1] == s[k - 1];
    RSpanIs(t, NonWhitespace, e - k);
  }

  /** Text before a whitespace boundary does not affect the final run of what follows it. */
  lemma FinalRunOfAppend(a: string, b: string, j: nat)
    requires b != [] && IsSpace(b[0])
    requires j < |b| && NotSpace(b[j])
    ensures FinalRun(a + b) == FinalRun(b)
  {
    TrimEndOfAppend(a, b, j);
    var t := TrimEnd(b);
    assert t[0] == b[0];
    FinalWordOfAppend(a, t);
  }

  /** Trailing whitespace lies within `b` when `b` holds a non-whitespace character. */
  lemma TrimEndOfAppend(a: string, b: string, j: nat)
    requires j < |b| && NotSpace(b[j])
    ensures |TrimEnd(b)| > j
    ensures TrimEnd(a + b) == a + TrimEnd(b)
  {
    RSpanOfAppend(a, b, Whitespace, j);
  }

  /** The final word lies within `t` when `t` starts with whitespace. */
  lemma FinalWordOfAppend(a: string, t: string)
    requires t != [] && IsSpace(t[0])
    ensures FinalWord(a + t) == FinalWord(t)
  {
    RSpanOfAppend(a, t, NonWhitespace, 0);
    var r := RSpan(t, NonWhitespace);
    assert (a + t)[|a + t| - r..] == t[|t| - r..];
  }

  /** The first token of a string that is not all whitespace, as positions in the string. */
  lemma SplitFirst(s: string) returns (k: nat, e: nat)
    requires Split(s) != []
    ensures k < e <= |s|
    ensures k > 0 ==> IsSpace(s[k - 1])
    ensures forall i :: k <= i < e ==> NotSpace(s[i])
    ensures e < |s| ==> IsSpace(s[e])
    ensures Split(s) == [s[k..e]] + Split(s[e..])
  {
    k := Span(s, Whitespace);
    assert k < |s|;
    var rest := s[k..];
    var n := Span(rest, NonWhitespace);
    e := k + n;
    SplitUnfold(s, k, e);
    assert rest[0] == s[k];
    forall i | k <= i < e
      ensures NotSpace(s[i])
    {
      assert s[i] == rest[i - k];
    }
    if e < |s| {
      assert s[e] == rest[n];
    }
  }

  /** One step of `split()`: the first token, then the split of what follows it. */
  lemma SplitUnfold(s: string, k: nat, e: nat)
    requires k == Span(s, Whitespace) < |s|
    requires e == k + Span(s[k..], NonWhitespace)
    ensures Split(s) == [s[k..e]] + Split(s[e..])
  {
  }

  lemma TakeDrop(s: string, e: nat)
    requires e <= |s|
    ensures s[..e] + s[e..] == s
  {
  }

  /** `split()[-1]` is the final run of non-whitespace characters of the string. */
  lemma {:induction false} LastWordIsFinalRun(s: string)
    requires Split(s) != []
    ensures LastWord(s) == FinalRun(s)
    decreases |s|
  {
    var k, e := SplitFirst(s);
    var tail := s[e..];
    SplitEmptyIff(tail);
    if Split(tail) == [] {
      assert forall i :: e <= i < |s| ==> s[i] == tail[i - e];
      FinalRunIs(s, k, e);
    } else {
      LastWordIsFinalRun(tail);
      var j :| 0 <= j < |tail| && NotSpace(tail[j]);
      assert tail[0] == s[e];
      FinalRunOfAppend(s[..e], tail, j);
      TakeDrop(s, e);
      assert LastWord(s) == LastWord(tail);
    }
  }

  /** Words separated (and preceded) by single spaces: the inverse of `split()`. */
  function Spaced(words: seq<string>): string {
    if words == [] then [] else " " + words[0] + Spaced(words[1..])
  }

  /** Splitting text assembled from well-formed words gives the words back. */
  lemma {:induction false} SplitSpaced(words: seq<string>)
    requires forall k :: 0 <= k < |words| ==> IsWord(words[k])
    ensures Split(Spaced(words)) == words
  {
    if words != [] {
      var w, more := words[0], Spaced(words[1..]);
      var s := Spaced(words);
      assert IsWord(w);
      SpacedFirst(w, more);
      SpanIs(s, Whitespace, 1);
      var rest := s[1..];
      if more != [] {
        assert more[0] == ' ';
      }
      SpanIs(rest, NonWhitespace, |w|);
      assert Split(s) == [w] + Split(more);
      SplitSpaced(words[1..]);
      HeadTail(words);
    }
  }

  /** The pieces of one space-led word followed by more text. */
  lemma SpacedFirst(w: string, more: string)
    requires w != []
    ensures var s := " " + w + more;
      && |s| == 1 + |w| + |more| && s[0] == ' ' && s[1] == w[0]
      && (forall i :: 0 <= i < |w| ==> s[1..][i] == w[i])
      && (more != [] ==> s[1..][|w|] == more[0])
      && s[1..1 + |w|] == w && s[1 + |w|..] == more
  {
    var s := " " + w + more;
    assert s[1..] == w + more;
    assert s[1..1 + |w|] == s[1..][..|w|];
  }

  // ---------------------------------------------------------------------------
  // str.splitlines()

  /** Width of the line boundary at `s[n]`: `\r\n` is a single two-character boundary. */
  function BreakWidth(s: string, n: nat): (w: nat)
    requires n < |s|
    ensures 1 <= w <= 2 && n + w <= |s|
  {
    if s[n] == '\r' && n + 1 < |s| && s[n + 1] == '\n' then 2 else 1
  }

  /**
   * Python's `s.splitlines()`: the pieces between line boundaries, boundaries removed;
   * a boundary at the very end does not start an extra empty line.
   */
  function SplitLines(s: string): (lines: seq<string>)
    ensures forall k :: 0 <= k < |lines| ==> NoLineBreak(lines[k])
    decreases |s|
  {
    if s == [] then []
    else
      var n := Span(s, NonBreak);
      if n == |s| then [s]
      else [s[..n]] + SplitLines(s[n + BreakWidth(s, n)..])
  }

  /** A non-empty sequence is its first element followed by the rest. */
  lemma HeadTail<T>(xs: seq<T>)
    requires xs != []
    ensures xs == [xs[0]] + xs[1..]
  { }

  /** Lines each followed by a newline, as a command prints them. */
  function Terminated(lines: seq<string>): string {
    if lines == [] then [] else lines[0] + "\n" + Terminated(lines[1..])
  }

  /** `splitlines()` recovers the lines of newline-terminated text. */
  lemma {:induction false} SplitLinesTerminated(lines: seq<string>)
    requires forall k :: 0 <= k < |lines| ==> NoLineBreak(lines[k])
    ensures SplitLines(Terminated(lines)) == lines
  {
    if lines != [] {
      var l, more := lines[0], Terminated(lines[1..]);
      var s := Terminated(lines);
      TerminatedFirst(l, more);
      assert forall i :: 0 <= i < |l| ==> NotLineBreak(s[i]) by {
        assert NoLineBreak(lines[0]);
      }
      SpanIs(s, NonBreak, |l|);
      assert BreakWidth(s, |l|) == 1;
      SplitLinesUnfold(s, |l|, 1);
      SplitLinesTerminated(lines[1..]);
      HeadTail(lines);
    }
  }

  /** The pieces of one newline-terminated line followed by more text. */
  lemma TerminatedFirst(l: string, more: string)
    ensures var s := l + "\n" + more;
      && |s| == |l| + 1 + |more|
      && (forall i :: 0 <= i < |l| ==> s[i] == l[i])
      && s[|l|] == '\n'
      && s[..|l|] == l && s[|l| + 1..] == more
  {
    var s := l + "\n" + more;
    assert s == l + ("\n" + more);
  }

  // ---------------------------------------------------------------------------
  // The substring test `pat in s`

  predicate Contains(s: string, pat: string) {
    exists i :: 0 <= i <= |s| && pat <= s[i..]
  }

  lemma ContainsAt(s: string, pat: string, i: nat)
    requires i <= |s| && pat <= s[i..]
    ensures Contains(s, pat)
  {
  }

  /** An occurrence inside `a` is an occurrence inside `a + b`, shifted by nothing. */
  lemma ContainsLeft(a: string, b: string, pat: string)
    requires Contains(a, pat)
    ensures Contains(a + b, pat)
  {
    var i :| 0 <= i <= |a| && pat <= a[i..];
    assert (a + b)[i..] == a[i..] + b;
    ContainsAt(a + b, pat, i);
  }

  /** An occurrence inside `b` is an occurrence inside `a + b`, shifted by `|a|`. */
  lemma ContainsRight(a: string, b: string, pat: string)
    requires Contains(b, pat)
    ensures Contains(a + b, pat)
  {
    var i :| 0 <= i <= |b| && pat <= b[i..];
    assert (a + b)[|a| + i..] == b[i..];
    ContainsAt(a + b, pat, |a| + i);
  }

  /** An occurrence of a pattern without line boundaries cannot overlap a run of boundaries. */
  lemma ContainsAcrossBreak(line: string, brk: string, rest: string, pat: string)
    requires pat != [] && NoLineBreak(pat)
    requires brk != [] && AllBreaks(brk)
    requires Contains(line + brk + rest, pat)
    ensures Contains(line, pat) || Contains(rest, pat)
  {
    var s := line + brk + rest;
    var i :| 0 <= i <= |s| && pat <= s[i..];
    var n, m := |line|, |line| + |brk|;
    // the first position of the occurrence at or after the start of the break
    var j := if i < n then n else i;
    OccurrenceChar(s, pat, i, j);
    assert j < m ==> IsLineBreak(s[j]) by {
      if j < m {
        assert s[j] == (line + brk)[j] == brk[j - n];
      }
    }
    if i + |pat| <= n {
      PrefixInLeft(line + brk, rest, pat, i);
      PrefixInLeft(line, brk, pat, i);
      ContainsAt(line, pat, i);
    } else if m <= i {
      PrefixInRight(line + brk, rest, pat, i);
      ContainsAt(rest, pat, i - m);
    } else {
      assert false;
    }
  }

  /** A character of an occurrence of `pat` at `i` is the matching character of `pat`. */
  lemma OccurrenceChar(s: string, pat: string, i: nat, j: nat)
    requires i <= |s| && pat <= s[i..] && i <= j
    ensures j < i + |pat| ==> j < |s| && s[j] == pat[j - i]
  {
    if j < i + |pat| {
      assert s[i..][j - i] == s[j];
    }
  }

  /** An occurrence that ends inside `a` is an occurrence in `a`. */
  lemma PrefixInLeft(a: string, b: string, pat: string, i: nat)
    requires i + |pat| <= |a| && pat <= (a + b)[i..]
    ensures pat <= a[i..]
  {
    assert forall k :: 0 <= k < |pat| ==> a[i..][k] == (a + b)[i..][k];
  }

  /** An occurrence that starts inside `b` is an occurrence in `b`. */
  lemma PrefixInRight(a: string, b: string, pat: string, i: nat)
    requires |a| <= i <= |a + b| && pat <= (a + b)[i..]
    ensures pat <= b[i - |a|..]
  {
    assert (a + b)[i..] == b[i - |a|..];
  }

  /** The first line of text that holds a line boundary, its boundary, and the rest. */
  lemma SplitLinesFirst(s: string) returns (line: string, brk: string, rest: string)
    requires Span(s, NonBreak) < |s|
    ensures s == line + brk + rest == line + (brk + rest)
    ensures brk != [] && AllBreaks(brk)
    ensures SplitLines(s) == [line] + SplitLines(rest)
  {
    var n := Span(s, NonBreak);
    var w := BreakWidth(s, n);
    line, brk, rest := s[..n], s[n..n + w], s[n + w..];
    assert IsLineBreak(s[n]);
    BoundaryChars(s, n, w);
    ThreeSlices(s, n, n + w);
    SplitLinesUnfold(s, n, w);
  }

  /** The characters of the boundary that ends the first line are all line breaks. */
  lemma BoundaryChars(s: string, n: nat, w: nat)
    requires n < |s| && IsLineBreak(s[n])
    requires w == BreakWidth(s, n)
    ensures AllBreaks(s[n..n + w])
  {
    var brk := s[n..n + w];
    forall i | 0 <= i < |brk|
      ensures IsLineBreak(brk[i])
    {
      if i == 0 {
        assert brk[i] == s[n];
      } else {
        assert w == 2 && brk[i] == s[n + 1] == '\n';
      }
    }
  }

  /** One step of `splitlines()` on text that holds a line boundary. */
  lemma SplitLinesUnfold(s: string, n: nat, w: nat)
    requires n == Span(s, NonBreak) < |s|
    requires w == BreakWidth(s, n)
    ensures SplitLines(s) == [s[..n]] + SplitLines(s[n + w..])
  { }

  /** A string is the concatenation of its three slices at `n` and `m`, grouped either way. */
  lemma ThreeSlices(s: string, n: nat, m: nat)
    requires n <= m <= |s|
    ensures s == s[..n] + s[n..m] + s[m..] == s[..n] + (s[n..m] + s[m..])
  {
    assert s[..m] == s[..n] + s[n..m];
    assert s == s[..m] + s[m..];
  }

  /**
   * A pattern without line boundaries occurs in `s` exactly when it occurs in one of
   * the lines of `s.splitlines()`: no occurrence can straddle a boundary.
   */
  lemma {:induction false} ContainsInSomeLine(s: string, pat: string)
    requires pat != [] && NoLineBreak(pat)
    ensures Contains(s, pat) <==> exists line :: line in SplitLines(s) && Contains(line, pat)
    decreases |s|
  {
    if s == [] {
      assert !Contains(s, pat) by {
        assert forall i :: 0 <= i <= |s| ==> !(pat <= s[i..]);
      }
    } else if Span(s, NonBreak) == |s| {
      assert SplitLines(s) == [s];
    } else {
      var line, brk, rest := SplitLinesFirst(s);
      ContainsInSomeLine(rest, pat);
      if Contains(s, pat) {
        ContainsAcrossBreak(line, brk, rest, pat);
        assert line in SplitLines(s);
      }
      if exists l :: l in SplitLines(s) && Contains(l, pat) {
        var l :| l in SplitLines(s) && Contains(l, pat);
        if l == line {
          ContainsLeft(line, brk + rest, pat);
        } else {
          assert l in SplitLines(rest);
          ContainsRight(line + brk, rest, pat);
        }
      }
    }
  }
}

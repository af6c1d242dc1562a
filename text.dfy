/**
 * Characters and lines as the message regexes see them.
 *
 * A line is a piece of text ending just after a line feed, or the last piece
 * of the text when it does not end with one; a CR before the LF belongs to the
 * line's ending. Messages are assumed to keep every CR in front of an LF and to
 * contain no U+2028/U+2029, so that for JavaScript's `.`, `^` (multiline) and
 * `\r?\n` exactly these pieces are the lines.
 */
module Text {

  /** JavaScript's `\s`: the whitespace and line terminator characters. */
  predicate IsWs(c: char) {
    || c == '\t' || c == '\n' || c == '\U{B}' || c == '\U{C}' || c == '\r' || c == ' '
    || c == '\U{A0}' || c == '\U{1680}' || ('\U{2000}' <= c <= '\U{200A}')
    || c == '\U{2028}' || c == '\U{2029}' || c == '\U{202F}' || c == '\U{205F}'
    || c == '\U{3000}' || c == '\U{FEFF}'
  }

  /** JavaScript's line terminators: what `.` does not match and `^` follows. */
  predicate IsLineBreak(c: char) {
    c == '\n' || c == '\r' || c == '\U{2028}' || c == '\U{2029}'
  }

  /** Position `i` of `s` is neither U+2028 nor U+2029, nor a CR without an LF after it. */
  predicate OkAt(s: string, i: nat)
    requires i < |s|
  {
    s[i] != '\U{2028}' && s[i] != '\U{2029}' && (s[i] == '\r' ==> i + 1 < |s| && s[i + 1] == '\n')
  }

  /** The text restriction under which lines are the LF-terminated pieces. */
  predicate TextOk(s: string) {
    forall i :: 0 <= i < |s| ==> OkAt(s, i)
  }

  /** Text with no line terminator at all, such as an address. */
  predicate SingleLine(s: string) {
    forall i :: 0 <= i < |s| ==> !IsLineBreak(s[i])
  }

  predicate StartsWith(s: string, p: string) {
    |p| <= |s| && s[..|p|] == p
  }

  /** Text that differs from `p` at position `k`, or ends before it, does not start with `p`. */
  lemma NotStartsWith(s: string, p: string, k: nat)
    requires k < |p| && (|s| <= k || s[k] != p[k])
    ensures !StartsWith(s, p)
  {
    if |p| <= |s| {
      assert s[..|p|][k] == s[k];
    }
  }

  /** The case folding of a non-unicode `/i` regex on ASCII letters. */
  function Fold(c: char): (r: char) {
    if 'A' <= c <= 'Z' then (c as int + 32) as char else c
  }

  /** Equality up to ASCII letter case, as `/i` compares a literal. */
  predicate EqualsCI(a: string, b: string)
    decreases |a|
  {
    |a| == |b| && (a == [] || (Fold(a[0]) == Fold(b[0]) && EqualsCI(a[1..], b[1..])))
  }

  predicate StartsWithCI(s: string, p: string) {
    |p| <= |s| && EqualsCI(s[..|p|], p)
  }

  predicate EndsWithCI(s: string, p: string) {
    |p| <= |s| && EqualsCI(s[|s| - |p|..], p)
  }

  /** Texts equal ignoring case agree at every position up to case. */
  lemma {:induction false} EqualsCIAt(a: string, b: string, k: nat)
    requires EqualsCI(a, b) && k < |a|
    ensures |a| == |b| && Fold(a[k]) == Fold(b[k])
    decreases k
  {
    if k > 0 {
      EqualsCIAt(a[1..], b[1..], k - 1);
    }
  }

  /** Texts that differ at position `k` in every case are not equal ignoring case. */
  lemma {:induction false} NotEqualsCIAt(a: string, b: string, k: nat)
    requires k < |a| && k < |b| && Fold(a[k]) != Fold(b[k])
    ensures !EqualsCI(a, b)
    decreases k
  {
    if k > 0 && |a| == |b| {
      NotEqualsCIAt(a[1..], b[1..], k - 1);
    }
  }

  /** Text that differs from `p` at position `k` in every case, or ends before it, does not start with `p` ignoring case. */
  lemma NotStartsWithCI(s: string, p: string, k: nat)
    requires k < |p| && (|s| <= k || Fold(s[k]) != Fold(p[k]))
    ensures !StartsWithCI(s, p)
  {
    if |p| <= |s| {
      NotEqualsCIAt(s[..|p|], p, k);
    }
  }

  /** Text whose suffix of the length of `p` differs from `p` at position `k` does not end with `p` ignoring case. */
  lemma NotEndsWithCI(s: string, p: string, k: nat)
    requires k < |p| && (|s| < |p| || Fold(s[|s| - |p| + k]) != Fold(p[k]))
    ensures !EndsWithCI(s, p)
  {
    if |p| <= |s| {
      NotEqualsCIAt(s[|s| - |p|..], p, k);
    }
  }

  /** Every text equals itself ignoring case. */
  lemma {:induction false} EqualsCIRefl(a: string)
    ensures EqualsCI(a, a)
    decreases |a|
  {
    if a != [] {
      EqualsCIRefl(a[1..]);
    }
  }

  /** `p + s` starts with `p` and ends as `s` does. */
  lemma PrefixedText(p: string, s: string)
    ensures StartsWith(p + s, p)
    ensures |s| > 0 ==> (p + s)[|p + s| - 1] == s[|s| - 1]
  {
    assert (p + s)[..|p|] == p;
  }

  /** Text that starts with `p` also starts with it ignoring case. */
  lemma StartsWithThenCI(s: string, p: string)
    requires StartsWith(s, p)
    ensures StartsWithCI(s, p)
  {
    EqualsCIRefl(p);
  }

  predicate Terminated(l: string) {
    |l| > 0 && l[|l| - 1] == '\n'
  }

  /** A line: non-empty, no LF before its last character, every CR before an LF. */
  predicate IsLine(l: string) {
    |l| > 0 && (forall i :: 0 <= i < |l| - 1 ==> l[i] != '\n') && TextOk(l)
  }

  /** A sequence of lines as the splitting of some text yields them. */
  predicate WfLines(ls: seq<string>) {
    && (forall i :: 0 <= i < |ls| ==> IsLine(ls[i]))
    && (forall i :: 0 <= i < |ls| - 1 ==> Terminated(ls[i]))
  }

  /** Every line ends with an LF (the text ends with a line break or is empty). */
  predicate AllTerminated(ls: seq<string>) {
    forall i :: 0 <= i < |ls| ==> Terminated(ls[i])
  }

  function Concat(ls: seq<string>): (r: string) {
    if ls == [] then [] else ls[0] + Concat(ls[1..])
  }

  lemma {:induction false} ConcatAppend(a: seq<string>, b: seq<string>)
    ensures Concat(a + b) == Concat(a) + Concat(b)
    decreases |a|
  {
    if a == [] {
      assert a + b == b;
    } else {
      assert (a + b)[1..] == a[1..] + b;
      ConcatAppend(a[1..], b);
    }
  }

  /** The length of the first line of `s`: up to and including the first LF, or all of `s`. */
  function LineEnd(s: string): (k: nat)
    ensures k <= |s|
    ensures s != [] ==> k > 0
    ensures forall i :: 0 <= i < k - 1 ==> s[i] != '\n'
    ensures k < |s| ==> s[k - 1] == '\n'
    decreases |s|
  {
    if s == [] then 0 else if s[0] == '\n' then 1 else 1 + LineEnd(s[1..])
  }

  /** The lines of `s`: splitting keeps every character, and within a TextOk text yields lines. */
  function SplitLines(s: string): (ls: seq<string>)
    ensures Concat(ls) == s
    ensures TextOk(s) ==> WfLines(ls)
    decreases |s|
  {
    if s == [] then []
    else
      var k := LineEnd(s);
      var rest := SplitLines(s[k..]);
      assert s[..k] + s[k..] == s;
      TextOkSplit(s, k);
      [s[..k]] + rest
  }

  /** In any text, only the last line may lack an LF. */
  lemma {:induction false} SplitLinesTerminated(s: string)
    ensures forall i :: 0 <= i < |SplitLines(s)| - 1 ==> Terminated(SplitLines(s)[i])
    decreases |s|
  {
    if s != [] {
      var k := LineEnd(s);
      var ls, rest := SplitLines(s), SplitLines(s[k..]);
      SplitLinesTerminated(s[k..]);
      SplitLinesCons(s);
      forall i | 0 <= i < |ls| - 1 ensures Terminated(ls[i]) {
        if i == 0 {
          FirstLineTerminated(s);
        } else {
          assert ls[i] == rest[i - 1];
        }
      }
    }
  }

  /** A non-empty text splits into its first line and the lines of the rest. */
  lemma SplitLinesCons(s: string)
    requires s != []
    ensures SplitLines(s) == [s[..LineEnd(s)]] + SplitLines(s[LineEnd(s)..])
  {
  }

  /** A first line followed by more text ends with an LF. */
  lemma FirstLineTerminated(s: string)
    requires LineEnd(s) < |s|
    ensures Terminated(s[..LineEnd(s)])
  {
    var k := LineEnd(s);
    assert s[..k][k - 1] == s[k - 1];
  }

  /** In any text, no line has an LF before its end. */
  lemma {:induction false} SplitLinesNoInnerLf(s: string)
    ensures forall i, j :: 0 <= i < |SplitLines(s)| && 0 <= j < |SplitLines(s)[i]| - 1 ==> SplitLines(s)[i][j] != '\n'
    decreases |s|
  {
    if s != [] {
      var k := LineEnd(s);
      var ls, rest := SplitLines(s), SplitLines(s[k..]);
      SplitLinesNoInnerLf(s[k..]);
      assert ls == [s[..k]] + rest;
      forall i, j | 0 <= i < |ls| && 0 <= j < |ls[i]| - 1 ensures ls[i][j] != '\n' {
        if i > 0 {
          assert ls[i] == rest[i - 1];
        } else {
          assert ls[0] == s[..k] && s[..k][j] == s[j];
        }
      }
    }
  }

  /** A TextOk text cut after an LF or at its end leaves two TextOk texts. */
  lemma TextOkSplit(s: string, k: nat)
    requires k <= |s| && (k == 0 || k == |s| || s[k - 1] == '\n')
    ensures TextOk(s) ==> TextOk(s[..k]) && TextOk(s[k..])
  {
    if TextOk(s) {
      TextOkPrefix(s, k);
      TextOkSuffix(s, k);
    }
  }

  /** A prefix of a TextOk text that ends after an LF, or is all of it, is TextOk. */
  lemma TextOkPrefix(s: string, k: nat)
    requires k <= |s| && (k == 0 || k == |s| || s[k - 1] == '\n') && TextOk(s)
    ensures TextOk(s[..k])
  {
    var a := s[..k];
    forall i | 0 <= i < |a| ensures OkAt(a, i) {
      assert OkAt(s, i);
      assert a[i] == s[i];
      if i + 1 < k {
        assert a[i + 1] == s[i + 1];
      }
    }
  }

  /** Every suffix of a TextOk text is TextOk. */
  lemma TextOkSuffix(s: string, k: nat)
    requires k <= |s| && TextOk(s)
    ensures TextOk(s[k..])
  {
    var b := s[k..];
    forall i | 0 <= i < |b| ensures OkAt(b, i) {
      assert OkAt(s, k + i);
      assert b[i] == s[k + i];
      if i + 1 < |b| {
        assert b[i + 1] == s[k + i + 1];
      }
    }
  }

  /** Joining two TextOk texts gives a TextOk text (the first cannot end in a CR). */
  lemma TextOkJoin(a: string, b: string)
    requires TextOk(a) && TextOk(b)
    ensures TextOk(a + b)
  {
    var s := a + b;
    forall i | 0 <= i < |s| ensures OkAt(s, i) {
      if i < |a| {
        assert OkAt(a, i);
        assert s[i] == a[i];
        if i + 1 < |a| {
          assert s[i + 1] == a[i + 1];
        }
      } else {
        assert OkAt(b, i - |a|);
        assert s[i] == b[i - |a|];
        if i + 1 < |s| {
          assert s[i + 1] == b[i + 1 - |a|];
        }
      }
    }
  }

  /** The line ending of `l`: CR LF, LF, or nothing for an unterminated last line. */
  function Ending(l: string): (e: string)
    ensures e == "\r\n" || e == "\n" || e == ""
    ensures |e| <= |l| && l[|l| - |e|..] == e
    ensures e == "" <==> !Terminated(l)
  {
    if |l| >= 2 && l[|l| - 2] == '\r' && l[|l| - 1] == '\n' then "\r\n"
    else if Terminated(l) then "\n"
    else ""
  }

  /** A line without its ending: what `.*` matches from the start of the line. */
  function Content(l: string): (c: string)
    ensures c + Ending(l) == l
  {
    l[..|l| - |Ending(l)|]
  }

  /** The content of a line holds no line terminator. */
  lemma ContentSingleLine(l: string)
    requires IsLine(l)
    ensures SingleLine(Content(l))
  {
    var c := Content(l);
    forall j | 0 <= j < |l| && l[j] == '\r' ensures j == |l| - 2 && Ending(l) == "\r\n" {
      assert OkAt(l, j);
      assert l[j + 1] == '\n';
    }
    forall i | 0 <= i < |c| ensures !IsLineBreak(c[i]) {
      assert OkAt(l, i);
      assert c[i] == l[i];
    }
  }

  /** Text that is whitespace from start to end. */
  predicate WsOnly(l: string) {
    forall i :: 0 <= i < |l| ==> IsWs(l[i])
  }
}

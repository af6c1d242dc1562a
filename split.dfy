/**
 * The split of a raw message into header and body done by the first regex of
 * `processMessage`, `/^((?:.+\r?\n)*)(\r?\n(?:.*\s+)*)/m`, restated on lines.
 *
 * The regex succeeds at the start of the message whenever some line is blank
 * (LF or CR LF alone): group 1 is then the lines before the first blank line,
 * and group 2 runs from that blank line up to and including the last
 * whitespace character of the message, because `(?:.*\s+)*` must end on
 * whitespace. Without a blank line it can still succeed at the position
 * between the CR and the LF of the first CR LF, since multiline `^` matches
 * after a lone CR there: group 1 is then empty. Otherwise it fails, and the
 * whole message is the header with an empty body.
 */
module Splitter {
  import opened Wrappers
  import opened Seqs
  import opened Text

  /** A line holding only its ending: the header/body separator. */
  predicate IsBlank(l: string) {
    l == "\n" || l == "\r\n"
  }

  function FirstBlankFrom(ls: seq<string>, i: nat): (r: Option<nat>)
    requires i <= |ls|
    ensures r.Some? ==> i <= r.value < |ls| && IsBlank(ls[r.value]) && forall j :: i <= j < r.value ==> !IsBlank(ls[j])
    ensures r.None? ==> forall j :: i <= j < |ls| ==> !IsBlank(ls[j])
    decreases |ls| - i
  {
    if i == |ls| then None else if IsBlank(ls[i]) then Some(i) else FirstBlankFrom(ls, i + 1)
  }

  /** The index of the first blank line, if any. */
  function FirstBlank(ls: seq<string>): (r: Option<nat>)
    ensures r.Some? ==> r.value < |ls| && IsBlank(ls[r.value]) && forall j :: 0 <= j < r.value ==> !IsBlank(ls[j])
    ensures r.None? ==> forall j :: 0 <= j < |ls| ==> !IsBlank(ls[j])
  {
    FirstBlankFrom(ls, 0)
  }

  /** What `(?:.*\s+)*` keeps of a text: the longest prefix ending in whitespace. */
  function UpToLastWs(s: string): (r: string)
    ensures |r| <= |s| && r == s[..|r|]
    ensures r == [] || IsWs(r[|r| - 1])
    ensures forall i :: |r| <= i < |s| ==> !IsWs(s[i])
    decreases |s|
  {
    if s == [] then []
    else if IsWs(s[|s| - 1]) then s
    else UpToLastWs(s[..|s| - 1])
  }

  /** No whitespace character from position `n` on. */
  predicate NoWsFrom(s: string, n: nat) {
    forall i :: n <= i < |s| ==> !IsWs(s[i])
  }

  /** Group 1 as lines, and group 2 (or `''` when the regex fails). */
  datatype Parts = Parts(header: seq<string>, body: string)

  function Split(msg: string): (r: Parts) {
    var ls := SplitLines(msg);
    match FirstBlank(ls)
    case Some(b) => Parts(ls[..b], UpToLastWs(Concat(ls[b..])))
    case None =>
      if '\r' in msg then Parts([], UpToLastWs(msg[IndexOf(msg, '\r') + 1..]))
      else Parts(ls, "")
  }

  lemma ConcatSplit(ls: seq<string>, b: nat)
    requires b <= |ls|
    ensures Concat(ls) == Concat(ls[..b]) + Concat(ls[b..])
  {
    assert ls == ls[..b] + ls[b..];
    ConcatAppend(ls[..b], ls[b..]);
  }

  /**
   * With a blank line, the header is the message's lines before the first blank
   * line: all of them complete, none blank.
   */
  lemma SplitHeaderLines(msg: string)
    requires TextOk(msg)
    requires FirstBlank(SplitLines(msg)).Some?
    ensures var ls := SplitLines(msg);
      var h := Split(msg).header;
      && h == ls[..FirstBlank(ls).value]
      && WfLines(h) && AllTerminated(h)
      && forall j :: 0 <= j < |h| ==> !IsBlank(h[j])
  {
    var ls := SplitLines(msg);
    var b := FirstBlank(ls).value;
    assert Split(msg).header == ls[..b];
    PrefixBeforeBlank(ls, b);
  }

  lemma PrefixBeforeBlank(ls: seq<string>, b: nat)
    requires WfLines(ls) && b < |ls|
    requires forall j :: 0 <= j < b ==> !IsBlank(ls[j])
    ensures WfLines(ls[..b]) && AllTerminated(ls[..b])
    ensures forall j :: 0 <= j < b ==> !IsBlank(ls[..b][j])
  {
  }

  /**
   * With a blank line, the message is the header followed by text that starts
   * with the blank line, and header plus body is the message up to its last
   * whitespace character: only the text after that character is lost.
   */
  lemma SplitAtBlankLine(msg: string)
    requires FirstBlank(SplitLines(msg)).Some?
    ensures var p := Split(msg);
      var n := |Concat(p.header)| + |p.body|;
      && |Concat(p.header)| < n <= |msg|
      && Concat(p.header) + p.body == msg[..n]
      && IsWs(msg[n - 1])
      && NoWsFrom(msg, n)
  {
    var ls := SplitLines(msg);
    var b := FirstBlank(ls).value;
    var p := Split(msg);
    assert p.header == ls[..b] && p.body == UpToLastWs(Concat(ls[b..])) by {
      SplitSome(msg);
    }
    BodyFromBlank(ls, b, msg, p.header, p.body);
  }

  /** With a blank line, the text after the header is the message's lines from the first blank line on. */
  lemma SplitBodyStartsAtBlank(msg: string)
    requires FirstBlank(SplitLines(msg)).Some?
    ensures var ls := SplitLines(msg);
      var b := FirstBlank(ls).value;
      var h := Concat(Split(msg).header);
      && |h| <= |msg|
      && msg[|h|..] == Concat(ls[b..])
      && IsBlank(ls[b])
  {
    var ls := SplitLines(msg);
    SplitSome(msg);
    var p := Split(msg);
    BodyFromBlank(ls, FirstBlank(ls).value, msg, p.header, p.body);
  }

  lemma SplitSome(msg: string)
    requires FirstBlank(SplitLines(msg)).Some?
    ensures var ls := SplitLines(msg);
      var b := FirstBlank(ls).value;
      Split(msg) == Parts(ls[..b], UpToLastWs(Concat(ls[b..])))
  {
  }

  lemma BodyFromBlank(ls: seq<string>, b: nat, msg: string, header: seq<string>, body: string)
    requires b < |ls| && IsBlank(ls[b])
    requires msg == Concat(ls) && header == ls[..b] && body == UpToLastWs(Concat(ls[b..]))
    ensures var h := Concat(header);
      var n := |h| + |body|;
      && |h| < n <= |msg|
      && h + body == msg[..n]
      && msg[|h|..] == Concat(ls[b..])
      && IsWs(msg[n - 1])
      && NoWsFrom(msg, n)
  {
    var rest := Concat(ls[b..]);
    ConcatSplit(ls, b);
    BlankStartsRest(ls, b);
    BodyNotEmpty(rest, |ls[b]| - 1, body);
    JoinBody(msg, Concat(header), rest, body);
    LastKeptIsWs(msg, Concat(header), rest, body);
  }

  /** With a blank line and a whitespace character at the end, nothing is lost. */
  lemma WholeFromBlank(ls: seq<string>, b: nat, msg: string, header: seq<string>, body: string)
    requires b < |ls| && IsBlank(ls[b])
    requires msg == Concat(ls) && header == ls[..b] && body == UpToLastWs(Concat(ls[b..]))
    requires |msg| > 0 && IsWs(msg[|msg| - 1])
    ensures Concat(header) + body == msg
  {
    BodyFromBlank(ls, b, msg, header, body);
    NothingLostBeforeWs(msg, Concat(header), body);
  }

  /** `UpToLastWs` keeps at least everything up to a known whitespace character. */
  lemma BodyNotEmpty(rest: string, k: nat, body: string)
    requires k < |rest| && rest[k] == '\n' && body == UpToLastWs(rest)
    ensures k < |body|
  {
    assert IsWs(rest[k]);
  }

  /** The last character kept after the header is whitespace. */
  lemma LastKeptIsWs(msg: string, h: string, rest: string, body: string)
    requires msg == h + rest && body == UpToLastWs(rest) && 0 < |body|
    ensures IsWs(msg[|h| + |body| - 1])
  {
    assert msg[|h| + |body| - 1] == rest[|body| - 1];
  }

  /** Header text followed by the kept part of what comes after it. */
  lemma JoinBody(msg: string, h: string, rest: string, body: string)
    requires msg == h + rest && body == UpToLastWs(rest) && 0 < |body|
    ensures var n := |h| + |body|;
      && |h| < n <= |msg|
      && h + body == msg[..n]
      && msg[|h|..] == rest
      && NoWsFrom(msg, n)
  {
    JoinPrefix(h, rest, |body|);
    forall i | |h| + |body| <= i < |msg| ensures !IsWs(msg[i]) {
      assert msg[i] == rest[i - |h|];
    }
    assert NoWsFrom(msg, |h| + |body|);
  }

  /** The text from a blank line on starts with that line, which ends in an LF. */
  lemma BlankStartsRest(ls: seq<string>, b: nat)
    requires b < |ls| && IsBlank(ls[b])
    ensures |ls[b]| <= |Concat(ls[b..])| && Concat(ls[b..])[|ls[b]| - 1] == '\n'
  {
    assert ls[b..][0] == ls[b] && ls[b..][1..] == ls[b + 1..];
    assert Concat(ls[b..]) == ls[b] + Concat(ls[b + 1..]);
  }

  /** Cutting `h + rest` after `h` and `k` more characters. */
  lemma JoinPrefix(h: string, rest: string, k: nat)
    requires k <= |rest|
    ensures h + rest[..k] == (h + rest)[..|h| + k]
    ensures (h + rest)[|h|..] == rest
  {
  }

  /** A message that has a blank line and ends with whitespace is split without loss. */
  lemma SplitRoundTrip(msg: string)
    requires FirstBlank(SplitLines(msg)).Some?
    requires |msg| > 0 && IsWs(msg[|msg| - 1])
    ensures Concat(Split(msg).header) + Split(msg).body == msg
  {
    var ls := SplitLines(msg);
    var b := FirstBlank(ls).value;
    var p := Split(msg);
    assert p.header == ls[..b] && p.body == UpToLastWs(Concat(ls[b..])) by {
      SplitSome(msg);
    }
    WholeFromBlank(ls, b, msg, p.header, p.body);
  }

  /**
   * Header text and body that give the message up to a point after which no
   * whitespace follows give all of it when the message ends with whitespace.
   */
  lemma NothingLostBeforeWs(msg: string, h: string, body: string)
    requires |h| + |body| <= |msg| && h + body == msg[..|h| + |body|]
    requires NoWsFrom(msg, |h| + |body|)
    requires |msg| > 0 && IsWs(msg[|msg| - 1])
    ensures h + body == msg
  {
    assert msg[..|msg|] == msg;
  }

  /** Without a blank line or CR, the whole message is the header and the body is empty. */
  lemma SplitWithoutBlankLine(msg: string)
    requires FirstBlank(SplitLines(msg)).None? && '\r' !in msg
    ensures Concat(Split(msg).header) == msg && Split(msg).body == ""
  {
  }

  /**
   * Without a blank line but with a CR LF, the match starts between the first
   * CR and its LF: the header is empty, and the body is the rest of the message
   * from that LF up to its last whitespace character. Everything up to that CR,
   * the first header line among it, is dropped from the result.
   */
  lemma SplitCrLfWithoutBlankLine(msg: string)
    requires TextOk(msg)
    requires FirstBlank(SplitLines(msg)).None? && '\r' in msg
    ensures var c := IndexOf(msg, '\r');
      && Split(msg).header == []
      && Split(msg).body == UpToLastWs(msg[c + 1..])
      && |Split(msg).body| > 0 && Split(msg).body[0] == '\n'
      && |Split(msg).body| <= |msg| - (c + 1)
  {
    var c := IndexOf(msg, '\r');
    assert OkAt(msg, c);
    assert msg[c + 1] == '\n';
    assert IsWs(msg[c + 1..][0]);
    SplitNoBlank(msg);
  }

  lemma SplitNoBlank(msg: string)
    requires FirstBlank(SplitLines(msg)).None? && '\r' in msg
    ensures Split(msg) == Parts([], UpToLastWs(msg[IndexOf(msg, '\r') + 1..]))
  {
  }
}

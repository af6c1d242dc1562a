/**
 * The five header transformations of `processMessage`, each a regex replace
 * restated on the header's lines. Header names are matched case-sensitively
 * and must be followed by a space, except `Reply-To: `, which is matched
 * ignoring ASCII case.
 */
module Headers {
  import opened Wrappers
  import opened Seqs
  import opened Text

  // ---------------------------------------------------------------------------
  // Step 1: add `Reply-To:` with the value of the first `From:` line

  /** A line `/^Reply-To: (.*\r?\n)/im` matches: complete, name in any case. */
  predicate IsReplyToLine(l: string) {
    Terminated(l) && StartsWithCI(l, "Reply-To: ")
  }

  predicate HasReplyTo(ls: seq<string>) {
    exists i :: 0 <= i < |ls| && IsReplyToLine(ls[i])
  }

  /** A line `/^From: (.*\r?\n)/m` matches: complete, name exactly `From: `. */
  predicate IsFromLine(l: string) {
    Terminated(l) && StartsWith(l, "From: ")
  }

  function FirstFromLineFrom(ls: seq<string>, i: nat): (r: Option<nat>)
    requires i <= |ls|
    ensures r.Some? ==> i <= r.value < |ls| && IsFromLine(ls[r.value]) && forall j :: i <= j < r.value ==> !IsFromLine(ls[j])
    ensures r.None? ==> forall j :: i <= j < |ls| ==> !IsFromLine(ls[j])
    decreases |ls| - i
  {
    if i == |ls| then None else if IsFromLine(ls[i]) then Some(i) else FirstFromLineFrom(ls, i + 1)
  }

  /** The first complete `From: ` line, which the non-global match finds. */
  function FirstFromLine(ls: seq<string>): (r: Option<nat>)
    ensures r.Some? ==> r.value < |ls| && IsFromLine(ls[r.value]) && forall j :: 0 <= j < r.value ==> !IsFromLine(ls[j])
    ensures r.None? ==> forall j :: 0 <= j < |ls| ==> !IsFromLine(ls[j])
  {
    FirstFromLineFrom(ls, 0)
  }

  /**
   * Appending text to the header string: a new line after a complete last
   * line, otherwise a continuation of the unterminated last line.
   */
  function AppendText(ls: seq<string>, t: string): (r: seq<string>)
    ensures Concat(r) == Concat(ls) + t
    ensures AllTerminated(ls) ==> r == ls + [t]
  {
    if ls == [] || Terminated(ls[|ls| - 1]) then
      ConcatAppend(ls, [t]);
      ls + [t]
    else
      var n := |ls| - 1;
      assert ls == ls[..n] + [ls[n]];
      ConcatAppend(ls[..n], [ls[n]]);
      ConcatAppend(ls[..n], [ls[n] + t]);
      ls[..n] + [ls[n] + t]
  }

  /** `Reply-To: ` followed by the rest of the line `l` after `From: `, ending included. */
  function ReplyToFor(l: string): (r: string)
    requires StartsWith(l, "From: ")
  {
    "Reply-To: " + l[6..]
  }

  /**
   * Step 1. A header with a `Reply-To:` line, or without a complete `From:`
   * line, is unchanged; otherwise `Reply-To: ` and the rest of the first
   * `From:` line are appended to the header text.
   */
  function AddReplyTo(ls: seq<string>): (r: seq<string>)
    ensures HasReplyTo(ls) ==> r == ls
    ensures !HasReplyTo(ls) && FirstFromLine(ls).None? ==> r == ls
    ensures !HasReplyTo(ls) && FirstFromLine(ls).Some? ==>
      Concat(r) == Concat(ls) + ReplyToFor(ls[FirstFromLine(ls).value])
  {
    if HasReplyTo(ls) then ls
    else match FirstFromLine(ls)
      case None => ls
      case Some(i) => AppendText(ls, ReplyToFor(ls[i]))
  }

  /** An appended `Reply-To:` line is itself a well-formed, complete line. */
  lemma ReplyToLine(l: string)
    requires IsLine(l) && IsFromLine(l)
    ensures IsLine(ReplyToFor(l)) && IsReplyToLine(ReplyToFor(l))
  {
    ReplyToIsLine(l);
    ReplyToIsComplete(l);
  }

  lemma ReplyToIsLine(l: string)
    requires IsLine(l) && StartsWith(l, "From: ")
    ensures IsLine(ReplyToFor(l))
  {
    TextOkSuffix(l, 6);
    PrefixedLine("Reply-To: ", l[6..]);
  }

  lemma ReplyToIsComplete(l: string)
    requires IsFromLine(l)
    ensures IsReplyToLine(ReplyToFor(l))
  {
    assert |l| > 6 by {
      assert l[5] == l[..6][5] == ' ';
    }
    PrefixedText("Reply-To: ", l[6..]);
    StartsWithThenCI(ReplyToFor(l), "Reply-To: ");
  }

  /** Text without line breaks put before a line tail keeps it a line. */
  lemma PrefixedLine(p: string, s: string)
    requires SingleLine(p) && |p| > 0 && TextOk(s)
    requires forall i :: 0 <= i < |s| - 1 ==> s[i] != '\n'
    ensures IsLine(p + s)
  {
    var t := p + s;
    forall i | 0 <= i < |t| - 1 ensures t[i] != '\n' {
      if i >= |p| {
        assert t[i] == s[i - |p|];
      } else {
        assert t[i] == p[i] && !IsLineBreak(p[i]);
      }
    }
    forall i | 0 <= i < |t| ensures OkAt(t, i) {
      if i >= |p| {
        assert OkAt(s, i - |p|);
        assert t[i] == s[i - |p|];
        if i + 1 < |t| {
          assert t[i + 1] == s[i + 1 - |p|];
        }
      } else {
        assert t[i] == p[i] && !IsLineBreak(p[i]);
      }
    }
  }

  /** Step 1 keeps the header well formed. */
  lemma AddReplyToWf(ls: seq<string>)
    requires WfLines(ls)
    ensures WfLines(AddReplyTo(ls))
    ensures AllTerminated(ls) ==> AllTerminated(AddReplyTo(ls))
  {
    if !HasReplyTo(ls) && FirstFromLine(ls).Some? {
      var i := FirstFromLine(ls).value;
      ReplyToLine(ls[i]);
      AppendTextWf(ls, ReplyToFor(ls[i]));
    }
  }

  lemma AppendTextWf(ls: seq<string>, t: string)
    requires WfLines(ls) && IsLine(t) && Terminated(t)
    ensures WfLines(AppendText(ls, t))
    ensures AllTerminated(ls) ==> AllTerminated(AppendText(ls, t))
  {
    if !(ls == [] || Terminated(ls[|ls| - 1])) {
      var n := |ls| - 1;
      AppendTextMerge(ls[n], t);
      var r := AppendText(ls, t);
      assert r == ls[..n] + [ls[n] + t];
      assert forall j :: 0 <= j < n ==> r[j] == ls[j];
    }
  }

  lemma AppendTextMerge(l: string, t: string)
    requires IsLine(l) && !Terminated(l) && IsLine(t)
    ensures IsLine(l + t)
  {
    TextOkJoin(l, t);
    var m := l + t;
    forall i | 0 <= i < |m| - 1 ensures m[i] != '\n' {
      if i < |l| {
        assert m[i] == l[i];
      } else {
        assert m[i] == t[i - |l|];
      }
    }
  }

  /**
   * With every line complete (as before a blank line), step 1 is idempotent,
   * and afterwards a `Reply-To:` line exists whenever a `From:` line does.
   */
  lemma AddReplyToIdempotent(ls: seq<string>)
    requires WfLines(ls) && AllTerminated(ls)
    ensures FirstFromLine(ls).Some? ==> HasReplyTo(AddReplyTo(ls))
    ensures AddReplyTo(AddReplyTo(ls)) == AddReplyTo(ls)
  {
    if !HasReplyTo(ls) && FirstFromLine(ls).Some? {
      var i := FirstFromLine(ls).value;
      ReplyToLine(ls[i]);
      var r := AddReplyTo(ls);
      assert r == ls + [ReplyToFor(ls[i])];
      assert IsReplyToLine(r[|ls|]);
    }
  }

  // ---------------------------------------------------------------------------
  // Step 2: rewrite every `From:` line to the verified sender

  /** What the three replacements make of one character. */
  function SanitizeChar(c: char): (r: string)
    ensures |r| <= 1
    ensures forall i :: 0 <= i < |r| ==> r[i] != '"' && r[i] != '<' && r[i] != '>' && (!IsLineBreak(c) ==> !IsLineBreak(r[i]))
  {
    if c == '"' then "" else if c == '<' then "(" else if c == '>' then ")" else [c]
  }

  /** `.replace(/"/g, '').replace(/</g, '(').replace(/>/g, ')')` */
  function Sanitize(v: string): (r: string)
    ensures forall i :: 0 <= i < |r| ==> r[i] != '"' && r[i] != '<' && r[i] != '>'
    ensures SingleLine(v) ==> SingleLine(r)
    ensures |r| <= |v|
    decreases |v|
  {
    if v == [] then []
    else
      var head := SanitizeChar(v[0]);
      var rest := Sanitize(v[1..]);
      assert SingleLine(v) ==> SingleLine(v[1..]) && !IsLineBreak(v[0]);
      head + rest
  }

  /** Text without quotes and angle brackets passes through unchanged. */
  lemma {:induction false} SanitizeClean(v: string)
    requires forall i :: 0 <= i < |v| ==> v[i] != '"' && v[i] != '<' && v[i] != '>'
    ensures Sanitize(v) == v
    decreases |v|
  {
    if v != [] {
      SanitizeClean(v[1..]);
      assert [v[0]] + v[1..] == v;
    }
  }

  /** Sanitizing works character by character, so it distributes over concatenation. */
  lemma {:induction false} SanitizeAppend(a: string, b: string)
    ensures Sanitize(a + b) == Sanitize(a) + Sanitize(b)
    decreases |a|
  {
    if a == [] {
      assert a + b == b;
    } else {
      assert (a + b)[0] == a[0];
      assert (a + b)[1..] == a[1..] + b;
      SanitizeAppend(a[1..], b);
      var head := SanitizeChar(a[0]);
      assert Sanitize(a + b) == head + Sanitize(a[1..] + b);
      assert head + (Sanitize(a[1..]) + Sanitize(b)) == (head + Sanitize(a[1..])) + Sanitize(b);
    }
  }

  /** Each `"` is deleted, each `<` becomes `(` and each `>` becomes `)`, wherever it stands. */
  lemma SanitizeReplacements(a: string, b: string)
    ensures Sanitize(a + "\"" + b) == Sanitize(a) + Sanitize(b)
    ensures Sanitize(a + "<" + b) == Sanitize(a) + "(" + Sanitize(b)
    ensures Sanitize(a + ">" + b) == Sanitize(a) + ")" + Sanitize(b)
  {
    assert Sanitize(a + "\"" + b) == Sanitize(a) + Sanitize(b) by {
      SanitizeAround(a, '"', b);
      assert Sanitize(a) + "" == Sanitize(a);
    }
    assert Sanitize(a + "<" + b) == Sanitize(a) + "(" + Sanitize(b) by {
      SanitizeAround(a, '<', b);
    }
    assert Sanitize(a + ">" + b) == Sanitize(a) + ")" + Sanitize(b) by {
      SanitizeAround(a, '>', b);
    }
  }

  /** A character between two texts is sanitized on its own. */
  lemma SanitizeAround(a: string, c: char, b: string)
    ensures Sanitize(a + [c] + b) == Sanitize(a) + SanitizeChar(c) + Sanitize(b)
  {
    SanitizeAppend(a + [c], b);
    SanitizeAppend(a, [c]);
    assert [c][1..] == [];
  }

  /** The new `From:` header: the sanitized display text in quotes, then the sender's address. */
  function RenderFrom(display: string, address: string): (r: string) {
    "From: \"" + display + "\" <" + address + ">"
  }

  /** What `(.*)` captures after `From: `: the rest of the line without its ending. */
  function FromValue(l: string): (r: string) {
    var c := Content(l);
    if |c| >= 6 then c[6..] else ""
  }

  function RewriteFromLine(l: string, origRecipient: string): (r: string) {
    if StartsWith(l, "From: ") then RenderFrom(Sanitize(FromValue(l)), origRecipient) + Ending(l) else l
  }

  /**
   * Step 2, `/^From: (.*)/mg`: every line starting with `From: ` becomes
   * `From: "<value sanitized>" <origRecipient>` with its line ending kept;
   * every other line is unchanged.
   */
  function RewriteFrom(ls: seq<string>, origRecipient: string): (r: seq<string>)
    ensures |r| == |ls|
    ensures forall i :: 0 <= i < |ls| && !StartsWith(ls[i], "From: ") ==> r[i] == ls[i]
    ensures forall i :: 0 <= i < |ls| && StartsWith(ls[i], "From: ") ==>
      r[i] == RenderFrom(Sanitize(FromValue(ls[i])), origRecipient) + Ending(ls[i])
  {
    seq(|ls|, i requires 0 <= i < |ls| => RewriteFromLine(ls[i], origRecipient))
  }

  /** A complete LF-terminated `From:` line built from its value. */
  lemma FromLineParts(v: string)
    requires SingleLine(v)
    ensures var l := "From: " + v + "\n";
      && IsFromLine(l) && Ending(l) == "\n" && FromValue(l) == v
      && ReplyToFor(l) == "Reply-To: " + v + "\n"
  {
    var l := "From: " + v + "\n";
    assert l[..6] == "From: ";
    if |v| > 0 {
      assert l[|l| - 2] == v[|v| - 1];
    }
    assert Content(l) == l[..|l| - 1] == "From: " + v;
    assert l[6..] == v + "\n";
  }

  /** A line's content differs from the line only by its ending. */
  lemma FromLineShape(l: string)
    requires IsLine(l) && StartsWith(l, "From: ")
    ensures |Content(l)| >= 6 && Content(l)[..6] == "From: "
    ensures SingleLine(FromValue(l))
  {
    ContentSingleLine(l);
    var c := Content(l);
    var e := Ending(l);
    // the ending starts with CR or LF, which `From: ` does not hold
    assert forall i :: 0 <= i < 6 ==> l[i] == "From: "[i];
    assert e != "" ==> l[|c|] == e[0];
    assert c[..6] == l[..6];
    assert FromValue(l) == c[6..];
  }

  /** A rewritten `From:` line is a well-formed line with the original ending. */
  lemma RewriteFromLineWf(l: string, origRecipient: string)
    requires IsLine(l) && SingleLine(origRecipient)
    ensures IsLine(RewriteFromLine(l, origRecipient))
    ensures Terminated(RewriteFromLine(l, origRecipient)) <==> Terminated(l)
    ensures Ending(RewriteFromLine(l, origRecipient)) == Ending(l)
  {
    if StartsWith(l, "From: ") {
      FromLineShape(l);
      var c := RenderFrom(Sanitize(FromValue(l)), origRecipient);
      RenderFromSingleLine(Sanitize(FromValue(l)), origRecipient);
      SingleLineWithEnding(c, Ending(l));
    }
  }

  /** The new `From:` line holds a line break only where the display text or the address does. */
  lemma RenderFromSingleLine(d: string, a: string)
    requires SingleLine(d) && SingleLine(a)
    ensures SingleLine(RenderFrom(d, a)) && |RenderFrom(d, a)| > 0
  {
    var c := RenderFrom(d, a);
    forall i | 0 <= i < |c| ensures !IsLineBreak(c[i]) {
      if 7 <= i < 7 + |d| {
        assert c[i] == d[i - 7];
      } else if 10 + |d| <= i < 10 + |d| + |a| {
        assert c[i] == a[i - 10 - |d|];
      }
    }
  }

  /** Text without line breaks followed by a line ending is a line with that ending. */
  lemma SingleLineWithEnding(c: string, e: string)
    requires SingleLine(c) && |c| > 0 && (e == "\r\n" || e == "\n" || e == "")
    ensures IsLine(c + e) && Ending(c + e) == e
    ensures Terminated(c + e) <==> e != ""
  {
    var l := c + e;
    forall i | 0 <= i < |l| ensures l[i] != '\U{2028}' && l[i] != '\U{2029}' && (l[i] == '\r' ==> i + 1 < |l| && l[i + 1] == '\n') {
      if i < |c| {
        assert l[i] == c[i];
        assert !IsLineBreak(c[i]);
      } else {
        assert l[i] == e[i - |c|];
      }
    }
    forall i | 0 <= i < |l| - 1 ensures l[i] != '\n' {
      if i < |c| {
        assert l[i] == c[i];
      } else {
        assert l[i] == e[i - |c|];
      }
    }
    if e == "" {
      assert l == c;
      assert !IsLineBreak(c[|c| - 1]);
    } else if e == "\n" {
      assert l[|l| - 1] == '\n';
      assert l[|l| - 2] == c[|c| - 1];
    }
  }

  /** Step 2 keeps the header well formed and every line's ending. */
  lemma RewriteFromWf(ls: seq<string>, origRecipient: string)
    requires WfLines(ls) && SingleLine(origRecipient)
    ensures WfLines(RewriteFrom(ls, origRecipient))
    ensures AllTerminated(ls) ==> AllTerminated(RewriteFrom(ls, origRecipient))
  {
    var r := RewriteFrom(ls, origRecipient);
    forall i | 0 <= i < |ls| ensures IsLine(r[i]) && (Terminated(r[i]) <==> Terminated(ls[i])) {
      RewriteFromLineWf(ls[i], origRecipient);
      assert r[i] == RewriteFromLine(ls[i], origRecipient);
    }
  }

  /** The shape of a rewritten `From:` line: the sender's address and a display without quotes or angle brackets. */
  ghost predicate IsSenderFrom(l: string, origRecipient: string) {
    exists display: string :: (forall i :: 0 <= i < |display| ==> display[i] != '"' && display[i] != '<' && display[i] != '>')
      && l == RenderFrom(display, origRecipient) + Ending(l)
  }

  /** After step 2, every line starting with `From: ` names the sender. */
  lemma RewriteFromAllSender(ls: seq<string>, origRecipient: string)
    requires WfLines(ls) && SingleLine(origRecipient)
    ensures forall l :: l in RewriteFrom(ls, origRecipient) && StartsWith(l, "From: ") ==> IsSenderFrom(l, origRecipient)
  {
    var r := RewriteFrom(ls, origRecipient);
    forall l | l in r && StartsWith(l, "From: ") ensures IsSenderFrom(l, origRecipient) {
      var i :| 0 <= i < |r| && r[i] == l;
      RewriteFromLineWf(ls[i], origRecipient);
      assert StartsWith(ls[i], "From: ");
      var d := Sanitize(FromValue(ls[i]));
      assert l == RenderFrom(d, origRecipient) + Ending(l);
    }
  }

  // ---------------------------------------------------------------------------
  // Steps 3 and 4: remove `Return-Path:` and `Sender:` lines

  /** A complete line starting with `name`, which `/^<name>(.*)\r?\n/mg` removes. */
  predicate IsHeaderLine(l: string, name: string) {
    Terminated(l) && StartsWith(l, name)
  }

  function CountHeaderLines(ls: seq<string>, name: string): (r: nat) {
    if ls == [] then 0 else (if IsHeaderLine(ls[0], name) then 1 else 0) + CountHeaderLines(ls[1..], name)
  }

  /**
   * Steps 3 and 4: the complete lines starting with `name` are deleted.
   * Exactly those go: the result has none of them, keeps the other lines in
   * their order, and is shorter by their number.
   */
  function RemoveHeader(ls: seq<string>, name: string): (r: seq<string>)
    ensures forall i :: 0 <= i < |r| ==> !IsHeaderLine(r[i], name)
    ensures IsSubseq(r, ls)
    ensures |r| == |ls| - CountHeaderLines(ls, name)
    decreases |ls|
  {
    if ls == [] then []
    else
      var rest := RemoveHeader(ls[1..], name);
      if IsHeaderLine(ls[0], name) then
        SubseqSkip(ls[0], rest, ls[1..]);
        assert [ls[0]] + ls[1..] == ls;
        rest
      else
        SubseqCons(ls[0], rest, ls[1..]);
        assert [ls[0]] + ls[1..] == ls;
        [ls[0]] + rest
  }

  /** Removing a header twice removes nothing more. */
  lemma {:induction false} RemoveHeaderIdempotent(ls: seq<string>, name: string)
    ensures RemoveHeader(RemoveHeader(ls, name), name) == RemoveHeader(ls, name)
  {
    NothingToRemove(RemoveHeader(ls, name), name);
  }

  /** A header with no such line is unchanged. */
  lemma {:induction false} NothingToRemove(ls: seq<string>, name: string)
    requires forall i :: 0 <= i < |ls| ==> !IsHeaderLine(ls[i], name)
    ensures RemoveHeader(ls, name) == ls
    decreases |ls|
  {
    if ls != [] {
      NothingToRemove(ls[1..], name);
      assert [ls[0]] + ls[1..] == ls;
    }
  }

  /** Only the header line itself is removed: a folded continuation line after it stays. */
  lemma FoldedContinuationKept(l: string, c: string, name: string)
    requires IsHeaderLine(l, name) && |c| > 0 && IsWs(c[0]) && |name| > 0 && !IsWs(name[0])
    ensures RemoveHeader([l, c], name) == [c]
  {
    NotStartsWith(c, name, 0);
    assert [l, c][1..] == [c];
    assert [c][1..] == [];
  }

  /** Every line kept by a removal step was a line of the input, so well-formedness carries over. */
  lemma SubseqWf(a: seq<string>, b: seq<string>)
    requires IsSubseq(a, b) && WfLines(b) && AllTerminated(b)
    ensures WfLines(a) && AllTerminated(a)
  {
    SubseqMembers(a, b);
    forall i | 0 <= i < |a| ensures IsLine(a[i]) && Terminated(a[i]) {
      assert a[i] in b;
    }
  }

  // ---------------------------------------------------------------------------
  // Step 5: remove `DKIM-Signature:` headers with their continuation lines

  /** A line `^DKIM-Signature: .*\r?\n` matches. */
  predicate IsDkimLine(l: string) {
    Terminated(l) && StartsWith(l, "DKIM-Signature: ")
  }

  /** The number of leading lines that are whitespace only. */
  function WsOnlyRun(ls: seq<string>): (m: nat)
    ensures m <= |ls|
    ensures forall j :: 0 <= j < m ==> WsOnly(ls[j])
    ensures m < |ls| ==> !WsOnly(ls[m])
    decreases |ls|
  {
    if ls == [] || !WsOnly(ls[0]) then 0 else 1 + WsOnlyRun(ls[1..])
  }

  /**
   * One iteration of `(\s+.*\r?\n)` at the start of `ls`: the index of the
   * last line it consumes. `\s+` may run through whitespace-only lines into the
   * leading whitespace of the next line, whose rest `.*` then takes; when that
   * line cannot be completed, backtracking ends the iteration at the latest
   * complete line within reach. An iteration ending on a lone `\n` line that
   * it also starts fails, since `\s+` would have to take the `\n` itself.
   */
  function IterationEnd(ls: seq<string>): (r: Option<nat>)
    ensures r.Some? ==> r.value < |ls|
  {
    if ls == [] || |ls[0]| == 0 || !IsWs(ls[0][0]) then None
    else
      var m := WsOnlyRun(ls);
      var cap := if m < |ls| then m else |ls| - 1;
      var k := if Terminated(ls[cap]) then cap else cap - 1;
      if k > 0 || (k == 0 && ls[0] != "\n") then Some(k) else None
  }

  /** How many lines `(\s+.*\r?\n)*` consumes at the start of `ls`. */
  function ContinuationLength(ls: seq<string>): (n: nat)
    ensures n <= |ls|
    decreases |ls|
  {
    match IterationEnd(ls)
    case None => 0
    case Some(k) => k + 1 + ContinuationLength(ls[k + 1..])
  }

  /**
   * Step 5, `^DKIM-Signature: .*\r?\n(\s+.*\r?\n)*` (global, multiline): every complete
   * `DKIM-Signature: ` line is deleted together with the lines its
   * continuation group consumes.
   */
  function RemoveDkim(ls: seq<string>): (r: seq<string>)
    ensures forall i :: 0 <= i < |r| ==> !IsDkimLine(r[i])
    ensures IsSubseq(r, ls)
    decreases |ls|
  {
    if ls == [] then []
    else if IsDkimLine(ls[0]) then
      var rest := ls[1 + ContinuationLength(ls[1..])..];
      var r := RemoveDkim(rest);
      SubseqDrop(r, ls, 1 + ContinuationLength(ls[1..]));
      r
    else
      var r := RemoveDkim(ls[1..]);
      SubseqCons(ls[0], r, ls[1..]);
      assert [ls[0]] + ls[1..] == ls;
      [ls[0]] + r
  }

  /** A folded continuation line: complete, led by whitespace. */
  predicate IsContinuation(l: string) {
    Terminated(l) && |l| > 0 && IsWs(l[0])
  }

  /**
   * Reference definition of step 5 as the header format describes it: drop
   * each `DKIM-Signature:` line and the continuation lines immediately after
   * it; `inSignature` says the previous line was dropped as part of one.
   */
  function DropSignatures(ls: seq<string>, inSignature: bool): (r: seq<string>)
    ensures forall i :: 0 <= i < |r| ==> !IsDkimLine(r[i])
    decreases |ls|
  {
    if ls == [] then []
    else if IsDkimLine(ls[0]) then DropSignatures(ls[1..], true)
    else if inSignature && IsContinuation(ls[0]) then DropSignatures(ls[1..], true)
    else [ls[0]] + DropSignatures(ls[1..], false)
  }

  /** The number of leading continuation lines. */
  function FoldRun(ls: seq<string>): (n: nat)
    ensures n <= |ls|
    decreases |ls|
  {
    if ls != [] && IsContinuation(ls[0]) then 1 + FoldRun(ls[1..]) else 0
  }

  predicate NoWsOnlyLines(ls: seq<string>) {
    forall i :: 0 <= i < |ls| ==> !WsOnly(ls[i])
  }

  /** Without whitespace-only lines the continuation group consumes exactly the leading continuation lines. */
  lemma {:induction false} ContinuationIsFoldRun(ls: seq<string>)
    requires NoWsOnlyLines(ls)
    ensures ContinuationLength(ls) == FoldRun(ls)
    decreases |ls|
  {
    if ls != [] {
      assert WsOnlyRun(ls) == 0;
      assert NoWsOnlyLines(ls[1..]);
      if IsContinuation(ls[0]) {
        assert IterationEnd(ls) == Some(0);
        assert ls[1..] == ls[0 + 1..];
        ContinuationIsFoldRun(ls[1..]);
      } else {
        assert IterationEnd(ls) == None;
      }
    }
  }

  /** Skipping the leading continuation lines is what a dropped signature does to them. */
  lemma {:induction false} DropFoldRun(ls: seq<string>)
    ensures DropSignatures(ls, true) == DropSignatures(ls[FoldRun(ls)..], false)
    decreases |ls|
  {
    if ls != [] && IsContinuation(ls[0]) {
      DropFoldRun(ls[1..]);
      assert ls[1..][FoldRun(ls[1..])..] == ls[FoldRun(ls)..];
    }
  }

  /**
   * When no header line is whitespace only, step 5 as written removes exactly
   * the signature lines and their continuation lines.
   */
  lemma {:induction false} RemoveDkimDropsSignatures(ls: seq<string>)
    requires NoWsOnlyLines(ls)
    ensures RemoveDkim(ls) == DropSignatures(ls, false)
    decreases |ls|
  {
    if ls != [] {
      assert NoWsOnlyLines(ls[1..]);
      if IsDkimLine(ls[0]) {
        ContinuationIsFoldRun(ls[1..]);
        var n := FoldRun(ls[1..]);
        DropFoldRun(ls[1..]);
        assert ls[1..][n..] == ls[1 + n..];
        assert NoWsOnlyLines(ls[1 + n..]);
        RemoveDkimDropsSignatures(ls[1 + n..]);
      } else {
        RemoveDkimDropsSignatures(ls[1..]);
      }
    }
  }

  /**
   * A whitespace-only line after a signature lets `\s+` reach the next line,
   * which is then removed although it does not start with whitespace.
   */
  lemma WsOnlyLineSwallowsNext()
    ensures RemoveDkim(["DKIM-Signature: a\n", " \n", "Subject: x\n"]) == []
    ensures DropSignatures(["DKIM-Signature: a\n", " \n", "Subject: x\n"], false) == ["Subject: x\n"]
  {
    var ls := ["DKIM-Signature: a\n", " \n", "Subject: x\n"];
    var tail := ls[1..];
    assert WsOnly(tail[0]);
    assert !WsOnly(tail[1]) by {
      assert !IsWs(tail[1][0]);
    }
    assert WsOnlyRun(tail[1..]) == 0;
    assert WsOnlyRun(tail) == 1;
    assert IterationEnd(tail) == Some(1);
    assert tail[2..] == [];
    assert ContinuationLength(tail) == 2;
    assert ls[3..] == [];
  }

  /**
   * An unterminated last line after a whitespace-only line is not reached:
   * `\s+` backtracks to the whitespace-only line alone, and the line is kept.
   */
  lemma WsOnlyLineKeepsIncompleteNext()
    ensures RemoveDkim(["DKIM-Signature: a\n", " \n", "X: y"]) == ["X: y"]
  {
    var ls := ["DKIM-Signature: a\n", " \n", "X: y"];
    var tail := ls[1..];
    assert WsOnly(tail[0]);
    assert !WsOnly(tail[1]) by {
      assert !IsWs(tail[1][0]);
    }
    assert WsOnlyRun(tail[1..]) == 0;
    assert WsOnlyRun(tail) == 1;
    assert !Terminated(tail[1]);
    assert IterationEnd(tail) == Some(0);
    assert tail[1..] == ["X: y"];
    assert IterationEnd(["X: y"]) == None;
    assert ContinuationLength(tail) == 1;
    assert ls[2..] == ["X: y"];
    assert !IsDkimLine("X: y");
    assert RemoveDkim(["X: y"][1..]) == [];
  }

  /** A lone `\n` line after a signature cannot complete an iteration, so it is kept. */
  lemma LoneLfAfterSignatureKept()
    ensures RemoveDkim(["DKIM-Signature: a\n", "\n"]) == ["\n"]
  {
    var ls := ["DKIM-Signature: a\n", "\n"];
    var tail := ls[1..];
    assert WsOnly(tail[0]);
    assert WsOnlyRun(tail) == 1;
    assert IterationEnd(tail) == None;
    assert ContinuationLength(tail) == 0;
    assert ls[1..] == ["\n"];
    assert !IsDkimLine("\n");
    assert RemoveDkim(["\n"][1..]) == [];
  }
}

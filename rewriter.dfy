/**
 * `processMessage`: split the raw message, pass the header through the five
 * steps in order, and join the rewritten header with the body.
 */
module Rewriter {
  import opened Wrappers
  import opened Seqs
  import opened Text
  import opened Splitter
  import opened Headers

  /** Calling `.match` on a `null` message (a failed fetch) throws. */
  datatype MessageError = NoMessage

  /** The header after the five steps, in the order `processMessage` applies them. */
  function RewriteHeader(header: seq<string>, origRecipient: string): (r: seq<string>) {
    var withReplyTo := AddReplyTo(header);
    var fromRewritten := RewriteFrom(withReplyTo, origRecipient);
    var noReturnPath := RemoveHeader(fromRewritten, "Return-Path: ");
    var noSender := RemoveHeader(noReturnPath, "Sender: ");
    RemoveDkim(noSender)
  }

  /** The message `processMessage` returns for a fetched message. */
  function Rewrite(msg: string, origRecipient: string): (r: string) {
    var parts := Split(msg);
    Concat(RewriteHeader(parts.header, origRecipient)) + parts.body
  }

  /** `processMessage(origMessage, origRecipient)`, reassigning the header step by step. */
  method ProcessMessage(origMessage: Option<string>, origRecipient: string) returns (r: Result<string, MessageError>)
    ensures origMessage.None? ==> r == Err(NoMessage)
    ensures origMessage.Some? ==> r == Ok(Rewrite(origMessage.value, origRecipient))
  {
    if origMessage.None? {
      return Err(NoMessage);
    }
    var parts := Split(origMessage.value);
    var header := parts.header;
    var body := parts.body;
    header := AddReplyTo(header);
    header := RewriteFrom(header, origRecipient);
    header := RemoveHeader(header, "Return-Path: ");
    header := RemoveHeader(header, "Sender: ");
    header := RemoveDkim(header);
    return Ok(Concat(header) + body);
  }

  /**
   * After the five steps no complete line is a `Return-Path:`, `Sender:` or
   * `DKIM-Signature:` header; every line starting with `From: ` carries the
   * sender's address and a display without quotes or angle brackets; and the
   * remaining lines are the lines after the first two steps, in their order.
   */
  lemma RewriteHeaderSpec(header: seq<string>, origRecipient: string)
    requires WfLines(header) && SingleLine(origRecipient)
    ensures var r := RewriteHeader(header, origRecipient);
      && (forall i :: 0 <= i < |r| ==>
            !IsHeaderLine(r[i], "Return-Path: ") && !IsHeaderLine(r[i], "Sender: ") && !IsDkimLine(r[i]))
      && (forall i :: 0 <= i < |r| && StartsWith(r[i], "From: ") ==> IsSenderFrom(r[i], origRecipient))
      && IsSubseq(r, RewriteFrom(AddReplyTo(header), origRecipient))
  {
    var a := AddReplyTo(header);
    var b := RewriteFrom(a, origRecipient);
    var c := RemoveHeader(b, "Return-Path: ");
    var d := RemoveHeader(c, "Sender: ");
    var r := RemoveDkim(d);
    AddReplyToWf(header);
    RewriteFromAllSender(a, origRecipient);
    SubseqMembers(d, c);
    SubseqMembers(r, d);
    SubseqMembers(c, b);
    SubseqTrans(r, d, c);
    SubseqTrans(r, c, b);
    forall i | 0 <= i < |r| ensures !IsHeaderLine(r[i], "Return-Path: ") && !IsHeaderLine(r[i], "Sender: ") {
      assert r[i] in d;
      var j :| 0 <= j < |d| && d[j] == r[i];
      assert d[j] in c;
    }
    forall i | 0 <= i < |r| && StartsWith(r[i], "From: ") ensures IsSenderFrom(r[i], origRecipient) {
      assert r[i] in b;
    }
  }

  /**
   * With every header line complete (the message has a blank line), none of
   * the output header's lines starts with `Return-Path: `, `Sender: ` or
   * `DKIM-Signature: ` at all.
   */
  lemma RemovedHeadersAbsent(header: seq<string>, origRecipient: string)
    requires WfLines(header) && AllTerminated(header) && SingleLine(origRecipient)
    ensures var r := RewriteHeader(header, origRecipient);
      forall i :: 0 <= i < |r| ==>
        !StartsWith(r[i], "Return-Path: ") && !StartsWith(r[i], "Sender: ") && !StartsWith(r[i], "DKIM-Signature: ")
  {
    RewriteHeaderSpec(header, origRecipient);
    var a := AddReplyTo(header);
    var b := RewriteFrom(a, origRecipient);
    AddReplyToWf(header);
    RewriteFromWf(a, origRecipient);
    var r := RewriteHeader(header, origRecipient);
    SubseqWf(r, b);
  }

  /**
   * A header line that is not a `From:`, `Return-Path:`, `Sender:` or
   * `DKIM-Signature:` line and does not start with whitespace is kept
   * byte for byte (when all lines are complete and none is whitespace only).
   */
  lemma UntouchedLineKept(header: seq<string>, origRecipient: string, l: string)
    requires WfLines(header) && AllTerminated(header) && NoWsOnlyLines(header) && SingleLine(origRecipient)
    requires l in header && !StartsWith(l, "From: ") && !StartsWith(l, "Return-Path: ")
    requires !StartsWith(l, "Sender: ") && !StartsWith(l, "DKIM-Signature: ") && !IsWs(l[0])
    ensures l in RewriteHeader(header, origRecipient)
  {
    var a := AddReplyTo(header);
    var b := RewriteFrom(a, origRecipient);
    var c := RemoveHeader(b, "Return-Path: ");
    var d := RemoveHeader(c, "Sender: ");
    ReplyToKeepsLines(header);
    assert l in a;
    var i :| 0 <= i < |a| && a[i] == l;
    assert b[i] == l;
    RemoveHeaderKeeps(b, "Return-Path: ", l);
    RemoveHeaderKeeps(c, "Sender: ", l);
    NoWsOnlyAfterSteps(header, origRecipient);
    RemoveDkimDropsSignatures(d);
    DropSignaturesKeeps(d, false, l);
  }

  /** With complete lines, step 1 keeps every line and adds at most one that is not whitespace only. */
  lemma ReplyToKeepsLines(header: seq<string>)
    requires WfLines(header) && AllTerminated(header)
    ensures forall l :: l in header ==> l in AddReplyTo(header)
    ensures NoWsOnlyLines(header) ==> NoWsOnlyLines(AddReplyTo(header))
  {
    if !HasReplyTo(header) && FirstFromLine(header).Some? {
      var t := ReplyToFor(header[FirstFromLine(header).value]);
      assert AddReplyTo(header) == header + [t];
      assert !IsWs(t[0]);
    }
  }

  /** The lines reaching step 5 are not whitespace only when the header's lines were not. */
  lemma NoWsOnlyAfterSteps(header: seq<string>, origRecipient: string)
    requires WfLines(header) && AllTerminated(header) && NoWsOnlyLines(header)
    ensures NoWsOnlyLines(RemoveHeader(RemoveHeader(RewriteFrom(AddReplyTo(header), origRecipient), "Return-Path: "), "Sender: "))
  {
    var a := AddReplyTo(header);
    ReplyToKeepsLines(header);
    var b := RewriteFrom(a, origRecipient);
    forall i | 0 <= i < |b| ensures !WsOnly(b[i]) {
      if StartsWith(a[i], "From: ") {
        assert b[i][0] == 'F';
      } else {
        assert b[i] == a[i];
      }
    }
    var c := RemoveHeader(b, "Return-Path: ");
    var d := RemoveHeader(c, "Sender: ");
    SubseqMembers(c, b);
    SubseqMembers(d, c);
    forall i | 0 <= i < |d| ensures !WsOnly(d[i]) {
      assert d[i] in c;
      var j :| 0 <= j < |c| && c[j] == d[i];
      assert c[j] in b;
    }
  }

  lemma {:induction false} RemoveHeaderKeeps(ls: seq<string>, name: string, l: string)
    requires l in ls && !StartsWith(l, name)
    ensures l in RemoveHeader(ls, name)
    decreases |ls|
  {
    if ls[0] != l {
      RemoveHeaderKeeps(ls[1..], name, l);
    }
  }

  lemma {:induction false} DropSignaturesKeeps(ls: seq<string>, inSignature: bool, l: string)
    requires l in ls && !IsDkimLine(l) && |l| > 0 && !IsWs(l[0])
    ensures l in DropSignatures(ls, inSignature)
    decreases |ls|
  {
    if ls[0] != l {
      DropSignaturesKeeps(ls[1..], IsDkimLine(ls[0]) || (inSignature && IsContinuation(ls[0])), l);
    }
  }

  /**
   * The rewritten message is the rewritten header followed by the original
   * text from the blank line on; when the message ends with whitespace that
   * text is the whole rest of the message, so the body is byte-identical.
   */
  lemma BodyPreserved(msg: string, origRecipient: string)
    requires TextOk(msg) && FirstBlank(SplitLines(msg)).Some?
    requires |msg| > 0 && IsWs(msg[|msg| - 1])
    ensures var h := Split(msg).header;
      && |Concat(h)| < |msg|
      && Rewrite(msg, origRecipient) == Concat(RewriteHeader(h, origRecipient)) + msg[|Concat(h)|..]
  {
    var p := Split(msg);
    var h := Concat(p.header);
    SplitAtBlankLine(msg);
    SplitRoundTrip(msg);
    assert h + p.body == msg;
    assert msg[|h|..] == p.body;
  }

  /**
   * Scenario: a header whose only line is `From: <display> <<address>>` gets
   * a `Reply-To:` with the original value, and its `From:` becomes the
   * sender's address under a display naming the original one.
   */
  lemma ReplyToAndFromScenario(display: string, address: string, sender: string)
    requires SingleLine(display) && SingleLine(address)
    requires forall i :: 0 <= i < |display| ==> display[i] != '"' && display[i] != '<' && display[i] != '>'
    requires forall i :: 0 <= i < |address| ==> address[i] != '"' && address[i] != '<' && address[i] != '>'
    ensures RewriteHeader(["From: " + display + " <" + address + ">\n"], sender)
      == [RenderFrom(display + " (" + address + ")", sender) + "\n", "Reply-To: " + display + " <" + address + ">\n"]
  {
    var l := "From: " + display + " <" + address + ">\n";
    var t := "Reply-To: " + display + " <" + address + ">\n";
    var f := RenderFrom(display + " (" + address + ")", sender) + "\n";
    ScenarioReplyTo(display, address, l, t);
    ScenarioFrom(display, address, sender, l, t);
    assert RemoveDkim(RemoveHeader(RemoveHeader([f, t], "Return-Path: "), "Sender: ")) == [f, t] by {
      assert f[..6] == "From: " && t[..10] == "Reply-To: ";
      ScenarioRemovals(f, t);
    }
    RewriteHeaderSteps([l], sender, [l, t], [f, t], [f, t]);
  }

  /** Chains the outcomes of the individual steps. */
  lemma RewriteHeaderSteps(h: seq<string>, sender: string, a: seq<string>, f: seq<string>, r: seq<string>)
    requires AddReplyTo(h) == a && RewriteFrom(a, sender) == f
    requires RemoveDkim(RemoveHeader(RemoveHeader(f, "Return-Path: "), "Sender: ")) == r
    ensures RewriteHeader(h, sender) == r
  {
  }

  lemma ScenarioReplyTo(display: string, address: string, l: string, t: string)
    requires SingleLine(display) && SingleLine(address)
    requires l == "From: " + display + " <" + address + ">\n"
    requires t == "Reply-To: " + display + " <" + address + ">\n"
    ensures IsFromLine(l) && FromValue(l) == display + " <" + address + ">" && Ending(l) == "\n"
    ensures AddReplyTo([l]) == [l, t]
  {
    var v := display + " <" + address + ">";
    assert IsFromLine(l) && FromValue(l) == v && Ending(l) == "\n" && ReplyToFor(l) == t by {
      assert SingleLine(v);
      FromLineParts(v);
      assert l == "From: " + v + "\n";
      assert t == "Reply-To: " + v + "\n";
    }
    assert l[..6] == "From: ";
    NotStartsWithCI(l, "Reply-To: ", 0);
    assert !HasReplyTo([l]);
    assert FirstFromLine([l]) == Some(0);
  }

  lemma ScenarioFrom(display: string, address: string, sender: string, l: string, t: string)
    requires forall i :: 0 <= i < |display| ==> display[i] != '"' && display[i] != '<' && display[i] != '>'
    requires forall i :: 0 <= i < |address| ==> address[i] != '"' && address[i] != '<' && address[i] != '>'
    requires IsFromLine(l) && FromValue(l) == display + " <" + address + ">" && Ending(l) == "\n"
    requires t == "Reply-To: " + display + " <" + address + ">\n"
    ensures RewriteFrom([l, t], sender) == [RenderFrom(display + " (" + address + ")", sender) + "\n", t]
  {
    SanitizedDisplay(display, address);
    assert t[0] == 'R';
    NotStartsWith(t, "From: ", 0);
  }

  /** `"Name <addr>"` is sanitized to `"Name (addr)"`. */
  lemma SanitizedDisplay(display: string, address: string)
    requires forall i :: 0 <= i < |display| ==> display[i] != '"' && display[i] != '<' && display[i] != '>'
    requires forall i :: 0 <= i < |address| ==> address[i] != '"' && address[i] != '<' && address[i] != '>'
    ensures Sanitize(display + " <" + address + ">") == display + " (" + address + ")"
  {
    SanitizeAppend(display + " <" + address, ">");
    SanitizeAppend(display + " <", address);
    SanitizeAppend(display, " <");
    SanitizeClean(display);
    SanitizeClean(address);
    SanitizeBrackets();
  }

  lemma SanitizeBrackets()
    ensures Sanitize(" <") == " (" && Sanitize(">") == ")"
  {
    assert " <"[1..] == "<" && "<"[1..] == [] && ">"[1..] == [];
  }

  lemma ScenarioRemovals(f: string, t: string)
    requires StartsWith(f, "From: ") && StartsWith(t, "Reply-To: ")
    ensures RemoveDkim(RemoveHeader(RemoveHeader([f, t], "Return-Path: "), "Sender: ")) == [f, t]
  {
    assert f[..6] == "From: " && t[..10] == "Reply-To: ";
    assert f[0] == 'F' && t[0] == 'R' && t[2] == 'p';
    NotStartsWith(f, "Return-Path: ", 0);
    NotStartsWith(t, "Return-Path: ", 2);
    NothingToRemove([f, t], "Return-Path: ");
    NotStartsWith(f, "Sender: ", 0);
    NotStartsWith(t, "Sender: ", 0);
    NothingToRemove([f, t], "Sender: ");
    NotStartsWith(f, "DKIM-Signature: ", 0);
    NotStartsWith(t, "DKIM-Signature: ", 0);
    assert [f, t][1..] == [t];
    assert RemoveDkim([t]) == [t];
  }

  /**
   * Scenario: a signature folded over three lines disappears with its
   * continuation lines, and the next header is kept.
   */
  lemma FoldedSignatureScenario(a: string, b: string, c: string, d: string, sender: string)
    requires SingleLine(a) && SingleLine(b) && SingleLine(c) && SingleLine(d)
    requires |b| > 0 && !IsWs(b[0]) && |c| > 0 && !IsWs(c[0])
    ensures RewriteHeader(["DKIM-Signature: " + a + "\n", "\t" + b + "\n", " " + c + "\n", "Subject: " + d + "\n"], sender)
      == ["Subject: " + d + "\n"]
  {
    var h := ["DKIM-Signature: " + a + "\n", "\t" + b + "\n", " " + c + "\n", "Subject: " + d + "\n"];
    FoldedSignatureLines(a, b, c, d, h);
    assert AddReplyTo(h) == h && RewriteFrom(h, sender) == h by {
      assert FirstFromLine(h) == None;
    }
    assert RemoveHeader(RemoveHeader(h, "Return-Path: "), "Sender: ") == h by {
      NothingToRemove(h, "Return-Path: ");
      NothingToRemove(h, "Sender: ");
    }
    FoldedSignatureDropped(h);
    RewriteHeaderSteps(h, sender, h, h, [h[3]]);
  }

  /** What each line of the folded-signature scenario is. */
  lemma FoldedSignatureLines(a: string, b: string, c: string, d: string, h: seq<string>)
    requires |b| > 0 && !IsWs(b[0]) && |c| > 0 && !IsWs(c[0])
    requires h == ["DKIM-Signature: " + a + "\n", "\t" + b + "\n", " " + c + "\n", "Subject: " + d + "\n"]
    ensures forall i :: 0 <= i < |h| ==>
      && !StartsWith(h[i], "From: ") && !IsReplyToLine(h[i])
      && !IsHeaderLine(h[i], "Return-Path: ") && !IsHeaderLine(h[i], "Sender: ")
    ensures IsDkimLine(h[0]) && IsContinuation(h[1]) && IsContinuation(h[2])
    ensures !IsDkimLine(h[3]) && !IsContinuation(h[3]) && NoWsOnlyLines(h)
  {
    assert h[0][..16] == "DKIM-Signature: " && h[3][..9] == "Subject: ";
    assert h[0][0] == 'D' && h[1][0] == '\t' && h[2][0] == ' ' && h[3][0] == 'S' && h[3][1] == 'u';
    assert h[1][1] == b[0] && h[2][1] == c[0];
    forall i | 0 <= i < |h|
      ensures !StartsWith(h[i], "From: ") && !IsReplyToLine(h[i])
      ensures !IsHeaderLine(h[i], "Return-Path: ") && !IsHeaderLine(h[i], "Sender: ")
    {
      NotStartsWith(h[i], "From: ", 0);
      NotStartsWithCI(h[i], "Reply-To: ", 0);
      NotStartsWith(h[i], "Return-Path: ", 0);
      if i == 3 {
        NotStartsWith(h[i], "Sender: ", 1);
      } else {
        NotStartsWith(h[i], "Sender: ", 0);
      }
    }
    assert NoWsOnlyLines(h) by {
      assert !WsOnly(h[0]) && !WsOnly(h[1]) && !WsOnly(h[2]) && !WsOnly(h[3]);
    }
    NotStartsWith(h[3], "DKIM-Signature: ", 0);
  }

  /** A signature line and two continuation lines go; the next header stays. */
  lemma FoldedSignatureDropped(h: seq<string>)
    requires |h| == 4 && NoWsOnlyLines(h)
    requires IsDkimLine(h[0]) && IsContinuation(h[1]) && IsContinuation(h[2])
    requires !IsDkimLine(h[3]) && !IsContinuation(h[3])
    ensures RemoveDkim(h) == [h[3]]
  {
    RemoveDkimDropsSignatures(h);
    assert h[1..][1..] == h[2..] && h[2..][1..] == h[3..] && h[3..][1..] == [];
    calc {
      DropSignatures(h, false);
      DropSignatures(h[1..], true);
      DropSignatures(h[2..], true);
      DropSignatures(h[3..], true);
      [h[3]];
    }
  }
}

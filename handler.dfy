/**
 * The Lambda entry point: validate the SES notification, resolve the
 * recipients, and either let the message bounce or fetch it, rewrite it and
 * send it on. The S3 fetch and the SES send are given as functions; the
 * handler records every call it makes to them, in order.
 */
module Handler {
  import opened Wrappers
  import opened Seqs
  import opened Event
  import opened Aliases
  import opened Rewriter

  /** A call to the outside world: reading the stored message, or sending the raw message. */
  datatype Call =
    | Fetch(mail: Mail)
    | Send(destinations: seq<string>, source: string, data: string)

  /** The receipt rule disposition the handler resolves with. */
  datatype Disposition = Continue | StopRule

  /** Why the handler rejects. */
  datatype Failure =
    | InvalidEvent(reason: ParseError)   // `parseRecord` threw
    | NoMessageContent                   // the fetch failed and `processMessage` got `null`
    | ForwardFailed                      // "Failed to forward email"

  /** What the handler resolves with and the calls it makes, as a function of the event and the outside world. */
  function HandleEvent<P>(event: Event, aliases: seq<AliasRule<P>>, matches: (P, string) -> bool,
                          fetch: Mail -> Option<string>, send: (seq<string>, string, string) -> bool)
    : (r: (Result<Disposition, Failure>, seq<Call>))
  {
    match ParseRecord(event)
    case Err(e) => (Err(InvalidEvent(e)), [])
    case Ok((mail, origRecipients)) =>
      var res := Resolve(origRecipients, aliases, matches);
      if res.recipients == [] then (Ok(Continue), [])
      else
        var sender := if res.origRecipient.Some? then res.origRecipient.value else "";
        match fetch(mail)
        case None => (Err(NoMessageContent), [Fetch(mail)])
        case Some(msg) =>
          var data := Rewrite(msg, sender);
          var calls := [Fetch(mail), Send(res.recipients, sender, data)];
          if send(res.recipients, sender, data) then (Ok(StopRule), calls) else (Err(ForwardFailed), calls)
  }

  /** `exports.handler`, calling the imperative alias resolution and message rewriting. */
  method Handle<P>(event: Event, aliases: seq<AliasRule<P>>, matches: (P, string) -> bool,
                   fetch: Mail -> Option<string>, send: (seq<string>, string, string) -> bool)
    returns (outcome: Result<Disposition, Failure>, calls: seq<Call>)
    ensures (outcome, calls) == HandleEvent(event, aliases, matches, fetch, send)
  {
    calls := [];
    var parsed := ParseRecord(event);
    if parsed.Err? {
      return Err(InvalidEvent(parsed.error)), calls;
    }
    var (mail, origRecipients) := parsed.value;
    var recipients, origRecipient := ProcessAliases(origRecipients, aliases, matches);
    if recipients == [] {
      return Ok(Continue), calls;
    }
    RecipientsNeedSender(origRecipients, aliases, matches);
    var sender := origRecipient.value;
    var origMessage := fetch(mail);
    calls := [Fetch(mail)];
    var message := ProcessMessage(origMessage, sender);
    if message.Err? {
      return Err(NoMessageContent), calls;
    }
    calls := [Fetch(mail), Send(recipients, sender, message.value)];
    var sent := send(recipients, sender, message.value);
    if !sent {
      return Err(ForwardFailed), calls;
    }
    return Ok(StopRule), calls;
  }

  /**
   * Outcomes and calls: an invalid event and an empty resolution make no call;
   * every other run fetches first; a message is sent at most once, and the
   * handler stops the rule exactly when that send succeeded.
   */
  lemma HandleEventCalls<P>(event: Event, aliases: seq<AliasRule<P>>, matches: (P, string) -> bool,
                            fetch: Mail -> Option<string>, send: (seq<string>, string, string) -> bool)
    ensures var (outcome, calls) := HandleEvent(event, aliases, matches, fetch, send);
      && (ParseRecord(event).Err? ==> outcome == Err(InvalidEvent(ParseRecord(event).error)) && calls == [])
      && (ParseRecord(event).Ok? ==>
            var (mail, rs) := ParseRecord(event).value;
            && (Resolve(rs, aliases, matches).recipients == [] <==> outcome == Ok(Continue))
            && (outcome == Ok(Continue) ==> calls == [])
            && (outcome != Ok(Continue) ==> |calls| > 0 && calls[0] == Fetch(mail))
            && (outcome == Err(NoMessageContent) <==> outcome != Ok(Continue) && fetch(mail).None?))
      && |calls| <= 2
      && (forall i :: 0 < i < |calls| ==> calls[i].Send? && i == 1)
      && (outcome == Ok(StopRule) <==>
            |calls| == 2 && send(calls[1].destinations, calls[1].source, calls[1].data))
      && (outcome == Err(ForwardFailed) <==>
            |calls| == 2 && !send(calls[1].destinations, calls[1].source, calls[1].data))
  {
  }

  /**
   * What is sent: the resolved recipients, non-empty and without duplicates,
   * from an original recipient that a rule accepted, with the stored message
   * rewritten for that sender.
   */
  lemma SentMessage<P>(event: Event, aliases: seq<AliasRule<P>>, matches: (P, string) -> bool,
                       fetch: Mail -> Option<string>, send: (seq<string>, string, string) -> bool)
    requires ParseRecord(event).Ok?
    ensures var (outcome, calls) := HandleEvent(event, aliases, matches, fetch, send);
      var (mail, rs) := ParseRecord(event).value;
      forall c :: c in calls && c.Send? ==>
        && c.destinations == Resolve(rs, aliases, matches).recipients
        && c.destinations != [] && NoDups(c.destinations)
        && (exists i: nat :: AcceptedAt(rs, aliases, matches, i) && rs[i] == c.source)
        && fetch(mail).Some? && c.data == Rewrite(fetch(mail).value, c.source)
  {
    var (mail, rs) := ParseRecord(event).value;
    var res := Resolve(rs, aliases, matches);
    if res.recipients != [] && fetch(mail).Some? {
      ResolvedForSending(rs, aliases, matches);
      var s := res.origRecipient.value;
      var calls := HandleEvent(event, aliases, matches, fetch, send).1;
      assert calls == [Fetch(mail), Send(res.recipients, s, Rewrite(fetch(mail).value, s))];
    }
  }

  /** A resolution with recipients has no duplicates and a sender that a rule accepted. */
  lemma ResolvedForSending<P>(rs: seq<string>, rules: seq<AliasRule<P>>, matches: (P, string) -> bool)
    requires Resolve(rs, rules, matches).recipients != []
    ensures var res := Resolve(rs, rules, matches);
      && NoDups(res.recipients) && res.origRecipient.Some?
      && exists i: nat :: AcceptedAt(rs, rules, matches, i) && rs[i] == res.origRecipient.value
  {
    ResolveRecipients(rs, rules, matches);
    RecipientsNeedSender(rs, rules, matches);
    SenderAccepted(rs, rules, matches);
  }

  /** The sender is one of the recipients that a rule accepted. */
  lemma SenderAccepted<P>(rs: seq<string>, rules: seq<AliasRule<P>>, matches: (P, string) -> bool)
    requires SenderOf(rs, rules, matches).Some?
    ensures exists i: nat :: AcceptedAt(rs, rules, matches, i) && rs[i] == SenderOf(rs, rules, matches).value
  {
    SenderOfSpec(rs, rules, matches);
    if SenderOf(rs, rules, matches).value == "" {
      SenderEmptyAccepted(rs, rules, matches);
    }
  }

  /** An empty sender is still one of the accepted recipients. */
  lemma SenderEmptyAccepted<P>(rs: seq<string>, rules: seq<AliasRule<P>>, matches: (P, string) -> bool)
    requires SenderOf(rs, rules, matches) == Some("")
    ensures exists i: nat :: AcceptedAt(rs, rules, matches, i) && rs[i] == ""
  {
    SenderOfSpec(rs, rules, matches);
    var i :| 0 <= i < |rs| && AcceptedAt(rs, rules, matches, i);
    SenderEmptyPrefix(rs, rules, matches, i);
  }
}

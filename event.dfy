/**
 * The SES receipt notification and its validation (`parseRecord`).
 * Every field the validator reads may be missing, so each is optional; the
 * parts of the notification the forwarder never reads are left out.
 */
module Event {
  import opened Wrappers

  /** `ses.mail`: the stored message is found from its `messageId`. */
  datatype Mail = Mail(messageId: string)

  /** `ses.receipt`: the original recipient addresses, when present. */
  datatype Receipt = Receipt(recipients: Option<seq<string>>)

  datatype Ses = Ses(mail: Option<Mail>, receipt: Option<Receipt>)

  datatype Record = Record(eventSource: Option<string>, eventVersion: Option<string>, ses: Option<Ses>)

  /** `event.Records`: an array whose entries may be `null`. */
  datatype Event = Event(records: Option<seq<Option<Record>>>)

  /** The errors `parseRecord` throws, one per guard, in the order they are checked. */
  datatype ParseError =
    | NoRecordFound
    | WrongRecordCount(count: nat)
    | WrongEventSource(source: Option<string>)
    | WrongEventVersion(version: Option<string>)
    | NoMail
    | NoRecipients

  const ExpectedSource := "aws:ses"
  const ExpectedVersion := "1.0"

  /** `_.get(event, 'Records[0]')`: the first record, when there is a non-null one. */
  function FirstRecord(e: Event): (r: Option<Record>) {
    if e.records.Some? && |e.records.value| > 0 then e.records.value[0] else None
  }

  /** `_.get(record, 'ses.mail')` */
  function MailOf(r: Record): (m: Option<Mail>) {
    if r.ses.Some? then r.ses.value.mail else None
  }

  /** `_.get(record, 'ses.receipt.recipients')`; an empty array is present (truthy). */
  function RecipientsOf(r: Record): (rs: Option<seq<string>>) {
    if r.ses.Some? && r.ses.value.receipt.Some? then r.ses.value.receipt.value.recipients else None
  }

  /** What the forwarder accepts: exactly one record, from SES, version 1.0, with mail and recipients. */
  predicate WellFormed(e: Event) {
    && e.records.Some?
    && |e.records.value| == 1
    && e.records.value[0].Some?
    && e.records.value[0].value.eventSource == Some(ExpectedSource)
    && e.records.value[0].value.eventVersion == Some(ExpectedVersion)
    && MailOf(e.records.value[0].value).Some?
    && RecipientsOf(e.records.value[0].value).Some?
  }

  /**
   * `parseRecord`: succeeds exactly on well-formed events, returning that
   * record's mail and recipients; otherwise fails with the error of the first
   * guard that does not hold.
   */
  function ParseRecord(e: Event): (r: Result<(Mail, seq<string>), ParseError>)
    ensures r.Ok? <==> WellFormed(e)
    ensures r.Ok? ==> r.value == (MailOf(e.records.value[0].value).value, RecipientsOf(e.records.value[0].value).value)
    ensures r == Err(NoRecordFound) <==> FirstRecord(e).None?
    ensures r.Err? && r.error.WrongRecordCount? ==> e.records.Some? && |e.records.value| == r.error.count != 1
  {
    match FirstRecord(e)
    case None => Err(NoRecordFound)
    case Some(record) =>
      if |e.records.value| != 1 then Err(WrongRecordCount(|e.records.value|))
      else if record.eventSource != Some(ExpectedSource) then Err(WrongEventSource(record.eventSource))
      else if record.eventVersion != Some(ExpectedVersion) then Err(WrongEventVersion(record.eventVersion))
      else if MailOf(record).None? then Err(NoMail)
      else if RecipientsOf(record).None? then Err(NoRecipients)
      else Ok((MailOf(record).value, RecipientsOf(record).value))
  }

  /** Two records are refused with the count, whatever the records hold. */
  lemma TwoRecordsRefused(a: Record, b: Record)
    ensures ParseRecord(Event(Some([Some(a), Some(b)]))) == Err(WrongRecordCount(2))
  {
  }

  /** An empty recipients array passes validation. */
  lemma EmptyRecipientsAccepted(m: Mail)
    ensures
      var ses := Ses(Some(m), Some(Receipt(Some([]))));
      var record := Record(Some(ExpectedSource), Some(ExpectedVersion), Some(ses));
      ParseRecord(Event(Some([Some(record)]))) == Ok((m, []))
  {
  }
}

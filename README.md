# ses-forwarder, modelled in Dafny

ses-forwarder is an AWS Lambda function that lets Amazon SES forward mail it
receives for a domain. An SES receipt rule stores the incoming message in S3 and
invokes the function with a receipt notification. The function does four things:

- it validates the notification (`parseRecord`);
- it maps the original recipients through an ordered table of alias rules
  (`processAliases`). The first rule whose pattern matches a recipient decides,
  and that rule's reject pattern can suppress the recipient;
- it rewrites the stored message so that SES will send it again
  (`processMessage`):
  - it adds `Reply-To:` with the original `From:` value;
  - it replaces `From:` with the verified recipient address;
  - it strips `Return-Path:`, `Sender:` and `DKIM-Signature:`;
- it sends the result to the resolved destinations and stops the rule. When no
  destination remains, it lets the rule continue so that the message bounces.

The model covers `src/process-email/index.js` module by module:

- `Event` covers `parseRecord`. It is a function over a notification whose
  fields may each be missing.
- `Aliases` covers `processAliases`. There are two imperative methods: the rule
  scan with its early returns (`MatchRecipient`) and the `map` with the mutable
  `origRecipient` (`ProcessAliases`). Each is proved equal to a specification
  function (`Select`, `Resolve`), and lemmas about those functions state
  first-match precedence, reject override, deduplication, first-seen order and
  the choice of sender.
- `Seqs` gives lodash's `_.flatten` and `_.uniq` their semantics.
- `Text` and `Splitter` restate on lines what the message regexes do:
  - JavaScript's `\s`, `.` and multiline `^`;
  - the header/body split.
- `Headers` covers the five header steps, each a function over the header's
  lines that corresponds to the JavaScript replace on the header string. The
  DKIM step is modelled as the regex behaves, and it is proved equal to a
  simple reference definition whenever no header line is whitespace only.
- `Rewriter` covers `processMessage`. It is a method that reassigns the header
  step by step and is proved equal to the function `Rewrite`. Lemmas give the
  end-to-end properties.
- `Handler` covers `exports.handler`. The S3 fetch and the SES send are function
  parameters. The handler returns its outcome and the sequence of calls it made
  to them.
- `ExampleConfig` is the alias table of `config.example.js`, with its regexes
  written out. Lemmas give what the table resolves some recipients to.

Regex matching of alias patterns is opaque: every operation takes
`matches: (P, string) -> bool` for an arbitrary pattern type `P`.

The code behaves as follows where a plain reading would expect otherwise:

- Header names other than `Reply-To` are matched case-sensitively. Each name
  must be followed by a space.
- An empty recipients array passes validation. It resolves to no destinations,
  so the handler continues. It is not a failure.
- A rule with an empty destination list still makes its recipient the sender,
  because the callback sets the sender before it returns the list, whatever
  the list holds. So "no sender exactly when no destinations" holds only when
  every rule lists an address.
- An accepted recipient becomes the sender only while the sender is still
  unset or empty; a rejected match does not count.
- The body is not always passed through unchanged:
  - text after the message's last whitespace character is dropped;
  - a message without a blank line but with a CR LF loses its text up to that
    CR, and its header becomes empty.
- Continuation lines of `Return-Path:` and `Sender:` stay.
- A `DKIM-Signature:` followed by a whitespace-only line also removes the line
  after that one when that line is complete; an unterminated last line stays.
- Header lines are not joined with their continuation lines before the steps run.

## Model

| member | source | states |
|---|---|---|
| Event.ParseRecord | src/process-email/index.js:14-67 | succeeds exactly when there is one non-null record with `eventSource` `aws:ses`, `eventVersion` `1.0`, `ses.mail` and `ses.receipt.recipients`, and returns that record's mail and recipients; fails with "no record" exactly when there is no first record; a count error carries the array's length, which is not 1 |
| Event.TwoRecordsRefused | src/process-email/index.js:22-24 | two records are refused with count 2, whatever they hold |
| Event.EmptyRecipientsAccepted | src/process-email/index.js:42-46 | an empty recipients array passes validation |
| Aliases.SelectFrom | src/process-email/index.js:73-84 | the rule the scan stops at lies within the table, at or after the start |
| Aliases.SelectFromSpec | src/process-email/index.js:73-84 | from rule `i` on: the scan accepts rule `k` iff `k` is the first matching rule and its reject pattern does not match; it rejects with `k` iff `k` is the first matching rule and its reject pattern matches; it finds nothing iff no pattern matches |
| Aliases.Select | src/process-email/index.js:73-84 | definition: the scan from the first rule — the first rule whose pattern matches, rejected when its reject pattern matches too, or no match when none does (its properties: `Aliases.SelectSpec`) |
| Aliases.SelectSpec | src/process-email/index.js:73-84 | the same three equivalences for the scan of the whole table |
| Aliases.MatchRecipient | src/process-email/index.js:73-84 | the `for` loop with its early returns ends with the choice `Select` specifies |
| Aliases.Present | src/process-email/index.js:86 | `filter(x => x)` keeps exactly the lists that are present, an empty list included |
| Aliases.Contribution | src/process-email/index.js:73-84 | definition: what the `map` callback returns for one recipient — the chosen rule's list when the scan accepts it, `null` when a rule rejects it or none matches |
| Aliases.Contributions | src/process-email/index.js:72-85 | definition: `origRecipients.map(callback)`, one `Contribution` per recipient in order |
| Aliases.KeepSender | src/process-email/index.js:80 | definition: `origRecipient || recipient` — a set, non-empty sender stays, an unset or empty one is replaced by the recipient |
| Aliases.SenderOf | src/process-email/index.js:71-85 | definition: the sender after the callback has run over the recipients in order, `KeepSender` applied at each accepted one, unset when none is (its properties: `Aliases.SenderOfSpec`) |
| Aliases.Resolve | src/process-email/index.js:72-87 | definition: the pair `processAliases` returns — the chosen lists of the accepted recipients, rejected and unmatched ones dropped, flattened and deduplicated, with `SenderOf` (its properties: `Aliases.ResolveRecipients`, `Aliases.ResolveOrder`) |
| Aliases.ProcessAliases | src/process-email/index.js:69-88 | the `map` with the mutable `origRecipient` returns exactly `Resolve` of its input |
| Aliases.ResolveRecipients | src/process-email/index.js:72-86 | the destinations have no duplicates, and an address is among them iff some original recipient is accepted by a rule that lists it |
| Aliases.ResolveOrder | src/process-email/index.js:86 | the destinations are in first-seen order of the flattened lists |
| Aliases.SenderOfSpec | src/process-email/index.js:71-81 | the sender is absent iff no recipient is accepted; it is one of the recipients; a non-empty sender is the first accepted recipient that is not the empty string |
| Aliases.SenderEmptyPrefix | src/process-email/index.js:80 | while the sender is unset or empty, every accepted recipient so far is the empty string |
| Aliases.SenderIsFirstAccepted | src/process-email/index.js:80 | without empty addresses, the sender is the first accepted recipient |
| Aliases.RecipientsNeedSender | src/process-email/index.js:80-87 | non-empty destinations imply a sender; if every rule lists an address, the destinations are empty iff there is no sender |
| Aliases.EmptyRuleSetsSender | src/process-email/index.js:80-86 | a recipient accepted by a rule with an empty list resolves to no destinations and yet becomes the sender |
| Aliases.ResolveOne | src/process-email/index.js:72-87 | one recipient resolves to its chosen rule's list, deduplicated, with itself as the sender, or to nothing and no sender |
| Aliases.ResolveTwo | src/process-email/index.js:72-87 | two accepted recipients resolve to their lists concatenated and deduplicated; the first is the sender unless it is empty |
| Seqs.Flatten | src/process-email/index.js:86 | `_.flatten`: the length is the sum of the lengths, and the members are exactly the members of the lists |
| Seqs.Uniq | src/process-email/index.js:86 | `_.uniq`: no duplicates, the same members, and first-seen order |
| Text.SplitLines | src/process-email/index.js:104 | the lines concatenate back to the text; in a text with no lone CR and no U+2028 or U+2029 they are well-formed lines: only the last may lack an LF, none has an LF before its end, and each is again such a text |
| Text.SplitLinesTerminated | src/process-email/index.js:104 | in any text, every line but the last ends with an LF |
| Text.SplitLinesNoInnerLf | src/process-email/index.js:104 | in any text, no line has an LF before its last character |
| Text.Ending | src/process-email/index.js:129 | a line ends with CR LF, LF or nothing, and has no ending exactly when it is not terminated |
| Text.Content | src/process-email/index.js:129 | the content followed by the ending is the line |
| Text.ContentSingleLine | src/process-email/index.js:129 | what `.*` matches of a well-formed line contains no line terminator |
| Splitter.FirstBlank | src/process-email/index.js:104 | the index of the first blank line, or none when no line is blank |
| Splitter.Split | src/process-email/index.js:104-107 | definition, three cases: with a blank line, the lines before the first blank line and the text from that line up to its last whitespace; with no blank line but a CR, an empty header and the text after the first CR up to its last whitespace; otherwise the whole message and `''` (its properties: the `Splitter` lemmas below) |
| Splitter.UpToLastWs | src/process-email/index.js:104 | what `(?:.*\s+)*` keeps: the prefix that ends in whitespace, with no whitespace after it |
| Splitter.SplitHeaderLines | src/process-email/index.js:104-106 | with a blank line, the header is the lines before the first blank line, all complete and none blank |
| Splitter.SplitAtBlankLine | src/process-email/index.js:104-107 | with a blank line, header plus body is the message up to its last whitespace character: the character before the cut is whitespace and none follows it, and the body is not empty |
| Splitter.SplitBodyStartsAtBlank | src/process-email/index.js:104-107 | with a blank line, the text after the header is the message's lines from the first blank line on |
| Splitter.SplitRoundTrip | src/process-email/index.js:104-107 | a message with a blank line that ends in whitespace is header plus body exactly |
| Splitter.SplitWithoutBlankLine | src/process-email/index.js:104-107 | without a blank line or any CR, the header is the whole message and the body is empty |
| Splitter.SplitCrLfWithoutBlankLine | src/process-email/index.js:104-107 | without a blank line but with a CR LF, the header is empty and the body runs from the LF of the first CR LF up to the last whitespace character |
| Headers.FirstFromLine | src/process-email/index.js:116 | the first complete `From: ` line, or none when there is no such line |
| Headers.AppendText | src/process-email/index.js:119 | appending text to the header string: the text follows the old header text, and after complete lines it is a new line |
| Headers.AddReplyTo | src/process-email/index.js:110-123 | unchanged when a `Reply-To: ` line exists, in any case; unchanged without a complete `From: ` line; otherwise the header text gains `Reply-To: ` plus the rest of the first `From: ` line |
| Headers.ReplyToLine | src/process-email/index.js:119 | the added line is a complete, well-formed `Reply-To: ` line |
| Headers.AddReplyToWf | src/process-email/index.js:110-123 | step 1 keeps the header well formed, and complete when it was complete |
| Headers.AddReplyToIdempotent | src/process-email/index.js:110-123 | with complete lines, a header with a `From:` line has a `Reply-To:` after step 1, and running step 1 again changes nothing |
| Headers.Sanitize | src/process-email/index.js:131-133 | the result has no `"`, `<` or `>`, holds no line terminator when the value holds none, and is no longer than the value |
| Headers.SanitizeClean | src/process-email/index.js:131-133 | a value without quotes or angle brackets is unchanged |
| Headers.SanitizeAppend | src/process-email/index.js:131-133 | sanitizing distributes over concatenation |
| Headers.SanitizeReplacements | src/process-email/index.js:131-133 | wherever it stands, a `"` is deleted, a `<` becomes `(` and a `>` becomes `)` |
| Headers.RewriteFrom | src/process-email/index.js:128-136 | the same number of lines; lines not starting with `From: ` unchanged; each one that does becomes `From: "<sanitized value>" <origRecipient>` with its line ending kept |
| Headers.FromLineParts | src/process-email/index.js:116-119 | `From: v` with an LF is a complete `From:` line with value `v`, and it yields `Reply-To: v` with an LF |
| Headers.RewriteFromLineWf | src/process-email/index.js:128-136 | a rewritten line is a well-formed line with the same line ending as the original |
| Headers.RewriteFromWf | src/process-email/index.js:128-136 | step 2 keeps the header well formed and complete, for a sender without line terminators |
| Headers.RewriteFromAllSender | src/process-email/index.js:128-136 | after step 2 every line starting with `From: ` names the sender, under a display without quotes or angle brackets |
| Headers.RemoveHeader | src/process-email/index.js:139-142 | no complete line starting with the name remains; the other lines stay in order; exactly as many lines go as there were such lines |
| Headers.RemoveHeaderIdempotent | src/process-email/index.js:139-142 | removing a header a second time changes nothing |
| Headers.NothingToRemove | src/process-email/index.js:139-142 | a header without such lines is unchanged |
| Headers.FoldedContinuationKept | src/process-email/index.js:139-142 | a continuation line after a removed `Return-Path:` or `Sender:` line stays |
| Headers.RemoveDkim | src/process-email/index.js:148 | no complete `DKIM-Signature: ` line remains, and the remaining lines are lines of the input in their order |
| Headers.DropSignatures | src/process-email/index.js:148 | reference definition (drop each signature line and the continuation lines right after it) that leaves no signature line |
| Headers.ContinuationIsFoldRun | src/process-email/index.js:148 | without whitespace-only lines, `(\s+.*\r?\n)*` consumes exactly the leading continuation lines |
| Headers.RemoveDkimDropsSignatures | src/process-email/index.js:148 | without whitespace-only lines, step 5 as written equals the reference definition |
| Headers.IterationEnd | src/process-email/index.js:148 | definition of one iteration of `(\s+.*\r?\n)`: none unless the first line starts with whitespace; else the last line consumed — `\s+` runs through whitespace-only lines into the next line, backtracking to the latest complete line, and failing when it would have to take a lone LF line alone |
| Headers.ContinuationLength | src/process-email/index.js:148 | definition of the `*`: iterations repeated until one fails, and the number of lines they consume in all |
| Headers.WsOnlyLineSwallowsNext | src/process-email/index.js:148 | a whitespace-only line after a signature makes step 5 also remove the next header, which the reference keeps |
| Headers.WsOnlyLineKeepsIncompleteNext | src/process-email/index.js:148 | after a signature and a whitespace-only line, an unterminated last line is kept: the iteration backtracks to the whitespace-only line alone |
| Headers.LoneLfAfterSignatureKept | src/process-email/index.js:148 | a lone LF line after a signature cannot complete a continuation iteration, so step 5 keeps it |
| Rewriter.RewriteHeader | src/process-email/index.js:110-148 | definition: the five header steps in the order of the code — Reply-To, the `From:` rewrite, removal of `Return-Path:`, then of `Sender:`, then of `DKIM-Signature:` (its properties: the `Rewriter` lemmas below) |
| Rewriter.Rewrite | src/process-email/index.js:104-150 | definition: split the message, rewrite the header with `RewriteHeader`, and append the body as split (its properties: `Rewriter.BodyPreserved`) |
| Rewriter.ProcessMessage | src/process-email/index.js:101-151 | a missing message fails (the `TypeError` on `null`); otherwise the result is `Rewrite` of the message |
| Rewriter.RewriteHeaderSpec | src/process-email/index.js:110-148 | after the five steps no complete `Return-Path:`, `Sender:` or `DKIM-Signature:` line remains; every `From: ` line names the sender; the lines are those after steps 1 and 2, in their order |
| Rewriter.RemovedHeadersAbsent | src/process-email/index.js:139-148 | with complete lines, no output line starts with `Return-Path: `, `Sender: ` or `DKIM-Signature: ` |
| Rewriter.UntouchedLineKept | src/process-email/index.js:110-148 | a header line that none of the steps names, and that does not start with whitespace, is kept byte for byte |
| Rewriter.BodyPreserved | src/process-email/index.js:104-150 | for a message with a blank line that ends in whitespace, the output is the rewritten header followed by the rest of the original message verbatim |
| Rewriter.ReplyToAndFromScenario | src/process-email/index.js:110-136 | `From: Alice <alice@external.com>` gives `From: "Alice (alice@external.com)" <sender>` and then `Reply-To: Alice <alice@external.com>` (for any such display and address) |
| Rewriter.FoldedSignatureScenario | src/process-email/index.js:148 | a signature folded over three lines, each value a single line, disappears, and the next header stays |
| Handler.HandleEvent | src/process-email/index.js:176-189 | definition: a parse failure rejects with no call; an empty resolution gives `CONTINUE` with no call; otherwise the message is fetched, a missing one rejects after the fetch, and the rewritten message is sent to the destinations from the sender, giving `STOP_RULE` when the send succeeds and "Failed to forward email" when it fails (its properties: `Handler.HandleEventCalls`, `Handler.SentMessage`) |
| Handler.Handle | src/process-email/index.js:173-190 | the handler's outcome and calls are those of `HandleEvent` |
| Handler.HandleEventCalls | src/process-email/index.js:176-189 | an invalid event and an empty resolution make no call; an empty resolution, and only that, continues; every other run fetches first; a failed fetch fails with only the fetch made; at most one send; the rule stops exactly when that send succeeded, and a failed send gives "Failed to forward email" |
| Handler.SentMessage | src/process-email/index.js:177-187 | a send goes to the resolved destinations, which are non-empty and without duplicates, from an accepted original recipient, with the fetched message rewritten for that sender |
| Handler.SenderAccepted | src/process-email/index.js:80 | the sender is an original recipient that a rule accepted |
| ExampleConfig.Matches | src/process-email/config.example.js:4-21 | definition: the three case-insensitive regexes of the table `Config` as string tests — ends with `@yourdomain.com`, starts with `spamaddress@` or `otherspam@`, equals `buddy@yourotherdomain.org` or `wholeteam@yourotherdomain.org`; `Config` lists the three rules in order with their recipients |
| ExampleConfig.DomainAddress | src/process-email/config.example.js:5-9 | an address ending in `@yourdomain.com` goes to you with itself as the sender, unless it starts with `spamaddress@` or `otherspam@`, which resolves to nothing |
| ExampleConfig.TeamAndBuddyDeduplicated | src/process-email/config.example.js:10-19 | `wholeteam@` and `buddy@` together resolve to you and buddy once each, with the team address as the sender |

## Left out

- Rewriter.ProcessMessage: the line model matches the regexes only for messages in which every CR is followed by an LF, that contain no U+2028 or U+2029, and a sender without line terminators. JavaScript's `.` and multiline `^` treat a lone CR, U+2028 and U+2029 as line ends, and a sender with a line break would create header lines that the later regexes see. The lemmas state these conditions (`TextOk`, `SingleLine`), and the functions give no faithfulness promise outside them.
- Rewriter.UntouchedLineKept: assumes complete lines and no whitespace-only line, because a whitespace-only line after a signature lets the DKIM regex remove the next line (see `Headers.WsOnlyLineSwallowsNext`).
- Rewriter.RewriteHeaderSpec: the fate of DKIM continuation lines is stated through `Headers.RemoveDkimDropsSignatures`, which needs the header to have no whitespace-only line.
- The regex engine. Alias patterns are matched by the caller's `matches` function. `ExampleConfig.Matches` writes out the three regexes of the example configuration as string tests.
- S3 `getObject` and SES `sendRawEmail` are the function parameters `fetch` and `send`. The S3 key (bucket and prefix from the environment plus the message id) is not built. A failed fetch is `None`, as the `catch` turns it into `null`.
- Logging, the environment variables, and the `nice-lambda` wrapper. How the wrapper reports a rejection is not modelled; the handler's failure is returned as a value.
- The spam, virus, SPF, DKIM and DMARC verdicts appear only in a comment and are not acted on.
- JSON values of unexpected types (a record that is not an object, recipients that are not strings) are not modelled. Every field is either missing or of its expected type.
- JavaScript strings are UTF-16; Dafny strings here are sequences of Unicode characters. All the literals the regexes compare are ASCII, so case folding is ASCII letter folding.
- lodash's `_.get`, `_.flatten` and `_.uniq` are given their semantics for these inputs, not modelled as the library.

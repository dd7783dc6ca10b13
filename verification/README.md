# Verified model of the gateway components

Four stateful components are modelled in Dafny and their central promises proved for every input, every cut of
a stream, every interleaving or every run.

- **Streaming redactor.** Text arrives in chunks; detectors replace secrets by a placeholder; what might still
  become a secret is held back; an over-long candidate is given up and its run suppressed. `Detectors`,
  `Pieces` and `Redaction` hold the model, `StreamRedactor` the object. `RedactorSafety` and `Ssn` prove that no
  number ever leaves. `Replacing`, `ManyDetectors`, `ChunkInvariance` and `TwoDetectors` prove when streaming is
  whole-text replacement and exactly when cuts matter, `RedactorEdits` that the output is an order-preserving edit,
  `RedactorBounds` that the buffer is bounded, `Suppression` that an over-long run is one placeholder. `Luhn`,
  `CardSearch`, `CardPass` and `CardStreams` treat card numbers: the check, the search for an end, the pass, and
  the stream. `Channels` and `ChannelRegistry` run one redactor per logical stream; `Flushes` says exactly when a
  flush is harmless, and `Releases` what it releases.
- **Server-sent events.** `Lines`, `Sse` and `SseParser` hold printer and parser, `SseLines`, `SseRoundTrip`
  and `SseStandard` the results.
- **Token limiter and router.** `RateLimit` and `RateLimiter` hold the sliding window, `RateHistory` and
  `RetryTimes` its histories and retry times, `Workers` several workers under one write lock. `Tokens` reads
  usage; `Routing` and `Router` do failover and billing; `Requests` interleaves whole requests.
- **Refund ledger.** `Refunds` and `RefundLedger` hold store and ledger, `RefundHistory` the results.

Every object of the original that changes its fields is a class here. Each of its methods is proved equal to a
function on values, and the results are about those functions.

## Where the code and its documentation differ

- `llm-gateway-guardrail/README.md:100` promises that streaming equals whole-text redaction for every chunking.
  `ManyDetectors.StreamReplacesAll` gives a condition on the ordered list of languages under which it does, and
  `TwoDetectors.CutsNeverMatterExactlyWhen` shows that for two detectors the condition is also necessary.
  `TwoDetectors.NumberInAnAddress` and `TwoDetectors.CutsCanMatter` are inputs that fail it. The card detector
  alone fails it too: `CardStreams.CutsNeverMatterExactlyWhenSteady` says for exactly which cards, and
  `CardStreams.UnsteadyCardExists` that there are others. That no social security number leaves a stream holds for
  any set of detectors.
- `stream.py:318-319` flushes every channel at the end of any block. A number cut by such a flush is shown
  (`Flushes.FlushCutsNumber`); `Flushes.HarmlessExactlyWhenFinished` says exactly which flushes are harmless.
- `router.py:77` says that rounding up never hands back a time that is too early. Adding 0.999 is not a ceiling;
  `RetryTimes.HeaderIsNotEarly` gives the exact condition and `RetryTimes.HeaderCanBeEarly` a run that fails it.
- `sse.py:76-89` takes any CRLF in the buffer before an earlier LF. `SseLines.CutsDoNotMatter` says for exactly
  which texts this is harmless.
- `sse.py:106-121` dispatches a named block without data, and whatever the end of the stream cuts off; section 9.2.6
  of the WHATWG HTML standard does neither. `SseStandard.StandardExactlyWhenTidy` says exactly when they agree.
- `tokens.py:63-67` guards one reader against booleans, and the stream collector guards itself;
  `actual_tokens` counts `true` as one token (`Tokens.ReadersDifferOnBooleans`).
- `idempotency.py:134-139`: a supplied key alone names the operation, so a replay under it returns the stored
  payload even if amount or reason differ; `Refunds.SameOperation` says so.
- `router.py:164-167`: an exception that arrives after the settling transaction has committed deletes the settled
  row, and the request is free. `Requests.ClosedTwiceExactlyWhenAborted` says that this is the only way to close
  twice, `Requests.UndoneIsFree` that nothing is charged, and `Requests.AChargeIsUndone` is such a run.

## Assumptions

- Clock readings do not go backwards in transaction order, for results about whole histories
  (`RateLimit.Clocked`, `Requests.Act`, `RefundHistory.Possible`). The clock is read before the lock, so this is a
  demand on the deployment. `Workers` needs no such assumption.
- Request ids and refund ids are fresh, and the fingerprint hash is injective.
- Transactions commit or roll back atomically.
- A detector is known by its answers: leftmost search, greedy match under a limit, and a scan with partial matches.
  Positions it reports lie inside the text. The digit class holds the ten ASCII digits and neither the hyphen nor
  a character of the placeholder.

## Model

| member | source | states |
|---|---|---|
| `RedactorSafety.NoWordEverLeaves` | llm-gateway-guardrail/src/llm_guardrail/redactor.py:129-327 | For every sequence of chunks, every ceiling and every set of companion detectors, the whole output of a stream contains no word of a fixed-length, context-free language if one of the detectors finds its words and holds back at least what can still become one; this includes streams that overflow and suppress a run |
| `Ssn.NoSsnEverLeaves` | llm-gateway-guardrail/src/llm_guardrail/patterns.py:111-124 | The same for social security numbers: no substring of any stream's output is one |
| `Ssn.LanguageIsValid` | llm-gateway-guardrail/src/llm_guardrail/patterns.py:111-124 | The number's expression is a fixed-length, prefix-closed language whose words share no character with the placeholder, as its comment requires |
| `Ssn.LanguageIsTight` | llm-gateway-guardrail/src/llm_guardrail/patterns.py:111-124 | Whatever counts as the beginning of a number is the beginning of one, so the exact conditions for two detectors and for flushes apply to it |
| `Ssn.ViableIsPrefix` | llm-gateway-guardrail/src/llm_guardrail/redactor.py:203-235 | A held text counts as a possible beginning of a number exactly when some ending completes it |
| `RedactorSafety.NothingEmittedCanBecomeAWord` | llm-gateway-guardrail/src/llm_guardrail/redactor.py:276-311 | At every moment of a stream no emitted character can be the start of a word, whatever is still held and whatever arrives later |
| `RedactorSafety.ScanHoldsStarts` | llm-gateway-guardrail/src/llm_guardrail/redactor.py:203-235 | After the settled-first pass, the holdback scan starts at or before every position a word could still start from |
| `RedactorSafety.ScanAloneMissesOverlaps` | llm-gateway-guardrail/src/llm_guardrail/redactor.py:276-311 | Why the pass runs before the split: on an unredacted text the scan resumes after a settled word and misses one that starts inside it |
| `RedactorSafety.PassesClear` | llm-gateway-guardrail/src/llm_guardrail/redactor.py:129-164 | Wherever the language's detector stands in the list, the passes leave a word only flush against a protected end of the text; no companion brings one back |
| `RedactorSafety.PassesOpenNoStart` | llm-gateway-guardrail/src/llm_guardrail/redactor.py:129-164 | No detector can turn text already emitted plus the buffer into the beginning of a word that was not there |
| `RedactorSafety.OverflowKeepsSealed` | llm-gateway-guardrail/src/llm_guardrail/redactor.py:254-274 | Giving up on an over-long candidate for one placeholder cannot expose the beginning of a word |
| `ChunkInvariance.StreamingIsReplacement` | llm-gateway-guardrail/src/llm_guardrail/redactor.py:276-327 | With one fixed-length detector, streaming any cut of a text gives the leftmost non-overlapping replacement of the whole text |
| `Ssn.StreamsReplaceNumbers` | llm-gateway-guardrail/src/llm_guardrail/redactor.py:276-327 | With the number's detector alone, streaming any cut of a text replaces exactly the leftmost non-overlapping numbers of the whole text |
| `ManyDetectors.StreamReplacesAll` | llm-gateway-guardrail/src/llm_guardrail/redactor.py:129-327 | With any ordered list of fixed-length detectors in which no word of a later one overlaps a word of an earlier one and ends strictly before it (without containing one), streaming every cut of a text gives the successive whole-text replacement |
| `ManyDetectors.DisjointIsCompatible` | llm-gateway-guardrail/src/llm_guardrail/patterns.py:111-124 | Languages without a common character meet that condition in either order |
| `ChunkInvariance.CutsDoNotMatter` | llm-gateway-guardrail/src/llm_guardrail/redactor.py:325-333 | The stream agrees with the one-piece redaction used as its oracle |
| `ChunkInvariance.EmittedPlusHeld` | llm-gateway-guardrail/src/llm_guardrail/redactor.py:276-311 | At every moment the output and the replacement of the held text, with any continuation, make the replacement of the whole input; what is held is the beginning of a word and the overflow branch has not been taken |
| `ChunkInvariance.HoldsFromSettled` | llm-gateway-guardrail/src/llm_guardrail/redactor.py:203-235 | The holdback point is exactly the end of the settled text: nothing is held longer than needed |
| `TwoDetectors.CutsNeverMatterExactlyWhen` | llm-gateway-guardrail/README.md:97-106 | With two fixed-length detectors, all cuts of every text give the same output exactly when no word of the later language can cut into a word of the earlier one; otherwise a text and two cuts of it differ |
| `TwoDetectors.NumberInAnAddress` | llm-gateway-guardrail/README.md:97-106 | The README's claim fails with the number's detector as one of two: any address that begins with a number, cut after its last character, is redacted differently than read whole |
| `TwoDetectors.CutsCanMatter` | llm-gateway-guardrail/README.md:97-106 | The smallest failing pair: abc read whole, and cut after ab, with detectors of ab and of a |
| `TwoDetectors.PairExists` | llm-gateway-guardrail/src/llm_guardrail/redactor.py:129-164 | Such pairs of detectors can be configured |
| `RedactorEdits.StreamIsAnEdit` | llm-gateway-guardrail/src/llm_guardrail/redactor.py:129-311 | At every moment the input so far is, in order, characters emitted verbatim, spans shown as placeholders, dropped characters of a suppressed run, and the pending buffer; for detectors that never cut a placeholder |
| `RedactorEdits.WholeStreamIsAnEdit` | llm-gateway-guardrail/src/llm_guardrail/redactor.py:313-327 | After the flush nothing is pending: the whole output is an order-preserving edit of the whole input |
| `RedactorEdits.LanguageRespects` | llm-gateway-guardrail/src/llm_guardrail/patterns.py:111-124 | A fixed-length language foreign to the placeholder never cuts one, so the edit results apply to it |
| `RedactorBounds.HeldTextIsBounded` | llm-gateway-guardrail/src/llm_guardrail/redactor.py:254-311 | The held text never exceeds the ceiling, and the counters are the lengths of what came in and went out |
| `RedactorBounds.MostHeldIsCounted` | llm-gateway-guardrail/src/llm_guardrail/redactor.py:276-311 | The counter of held characters is the most that was held after any chunk |
| `RedactorBounds.PassesAreCounted` | llm-gateway-guardrail/src/llm_guardrail/redactor.py:129-164 | The passes add to the count of each name exactly the replacements of the detectors of that name |
| `RedactorBounds.FlushIsCounted` | llm-gateway-guardrail/src/llm_guardrail/redactor.py:313-323 | A flush counts its replacements and what it emits, and leaves nothing pending or suppressed |
| `Suppression.LongRunIsOnePlaceholder` | llm-gateway-guardrail/src/llm_guardrail/redactor.py:237-311 | A run that outgrows the ceiling before it ends is shown as one placeholder however it is cut, and what follows the run is shown as if the stream had begun there |
| `Suppression.LongRunToTheEnd` | llm-gateway-guardrail/src/llm_guardrail/redactor.py:237-323 | A stream that ends inside such a run shows the one placeholder for it |
| `Suppression.SuppressedRunIsSilent` | llm-gateway-guardrail/src/llm_guardrail/redactor.py:237-252 | While a run is suppressed every piece of it shows nothing, whatever the cuts, and exactly its characters are counted as suppressed |
| `Suppression.RunEndsAnywhere` | llm-gateway-guardrail/src/llm_guardrail/redactor.py:237-252 | How the rest of a suppressed run is cut, and how far its last piece reaches beyond it, does not matter: output, buffer and mode are those of a redactor that resumes behind the run |
| `Suppression.CeilingActsWhenExceeded` | llm-gateway-guardrail/src/llm_guardrail/redactor.py:254-311 | The ceiling changes a chunk's result exactly when a redactor with a higher ceiling would hold more than it: then the held text becomes one placeholder, is counted, and its run is suppressed |
| `Suppression.BeginningIsHeld` | llm-gateway-guardrail/src/llm_guardrail/redactor.py:203-235 | Such runs exist: every beginning of a word longer than the ceiling is held throughout |
| `StreamRedactors.StreamRedactor.constructor` | llm-gateway-guardrail/src/llm_guardrail/redactor.py:104-122 | No ceiling, or a ceiling of zero, means the longest declared match plus eight |
| `StreamRedactors.StreamRedactor.ValidatedEnd` | llm-gateway-guardrail/src/llm_guardrail/redactor.py:166-201 | The back-off loop computes the specified end |
| `StreamRedactors.StreamRedactor.RedactOne` | llm-gateway-guardrail/src/llm_guardrail/redactor.py:140-164 | The replacement loop of one detector produces the text and the count of the specified pieces |
| `StreamRedactors.StreamRedactor.Redact` | llm-gateway-guardrail/src/llm_guardrail/redactor.py:129-164 | All detectors in order, with their counts |
| `StreamRedactors.StreamRedactor.FindHoldback` | llm-gateway-guardrail/src/llm_guardrail/redactor.py:203-235 | The nested scan loop finds the earliest hit that is partial or touches the end |
| `StreamRedactors.StreamRedactor.DropSuppressedPrefix` | llm-gateway-guardrail/src/llm_guardrail/redactor.py:237-252 | Exactly the leading run is dropped, and suppression ends where the run does |
| `StreamRedactors.StreamRedactor.FailClosed` | llm-gateway-guardrail/src/llm_guardrail/redactor.py:254-274 | The buffer is given up for one placeholder and suppression begins |
| `StreamRedactors.StreamRedactor.Feed` | llm-gateway-guardrail/src/llm_guardrail/redactor.py:276-311 | One chunk moves the object's fields exactly as the value-level transition of the theorems does |
| `StreamRedactors.StreamRedactor.Flush` | llm-gateway-guardrail/src/llm_guardrail/redactor.py:313-323 | The final unprotected pass, and a reset of buffer and mode |
| `StreamRedactors.StreamRedactor.Process` | llm-gateway-guardrail/src/llm_guardrail/redactor.py:325-327 | A whole stream through the object is the function the main results speak of |
| `Redaction.HoldbackIndex` | llm-gateway-guardrail/src/llm_guardrail/redactor.py:203-235 | The split is a lower bound of all unsafe hits and is one of them, or the end of the text |
| `Luhn.LuhnValid` | llm-gateway-guardrail/src/llm_guardrail/patterns.py:41-60 | The left-to-right loop decides the right-to-left check of ISO/IEC 7812-1 Annex B, from thirteen digits on |
| `Luhn.LeftIsRight` | llm-gateway-guardrail/src/llm_guardrail/patterns.py:53-60 | On every prefix, the loop's sum is the right-to-left sum at that prefix's doubling phase |
| `Luhn.DigitsAt` | llm-gateway-guardrail/src/llm_guardrail/patterns.py:49 | In a text of digits each one counts with its own value, at its own place |
| `Luhn.SeparatorsIgnored` | llm-gateway-guardrail/src/llm_guardrail/patterns.py:49 | A separator put anywhere changes nothing |
| `Luhn.SubstitutionDetected` | llm-gateway-guardrail/src/llm_guardrail/patterns.py:41-60 | Replacing any one digit of a valid number makes it invalid |
| `Luhn.SwapDetected` | llm-gateway-guardrail/src/llm_guardrail/patterns.py:41-60 | Swapping two adjacent digits goes undetected exactly when they are equal or are 0 and 9 |
| `Luhn.OneCheckDigit` | llm-gateway-guardrail/src/llm_guardrail/patterns.py:41-60 | Every prefix of twelve or more digits has exactly one valid check digit |
| `CardSearch.ValidatedEndIsExact` | llm-gateway-guardrail/src/llm_guardrail/redactor.py:186-201 | Given a full card match, the back-off returns the longest end at which a card passes the check, and nothing only if there is none |
| `CardSearch.JumpSkipsNothing` | llm-gateway-guardrail/src/llm_guardrail/redactor.py:186-201 | Between a greedy match and the limit it was searched under no card can end: the jumps miss nothing |
| `CardSearch.ShapeIsExpression` | llm-gateway-guardrail/src/llm_guardrail/patterns.py:132-141 | The shape of a card is that of the expression read as a repetition: twelve to eighteen times a digit and perhaps a separator, and one more digit |
| `CardPass.PassMasksCards` | llm-gateway-guardrail/src/llm_guardrail/redactor.py:140-164 | One pass of the card detector hides, from left to right, exactly the numbers at match starts that pass the check, each up to its last passing end unless that is a protected tail, and keeps every other character |
| `CardPass.CardIsHidden` | llm-gateway-guardrail/src/llm_guardrail/redactor.py:140-164 | A valid card between its delimiters, with no match before it, becomes one placeholder; what precedes it is kept and what follows is redacted as a text of its own |
| `CardPass.LongNumberIsKept` | llm-gateway-guardrail/src/llm_guardrail/patterns.py:129-134 | A run of twenty or more digits among words is left alone: it is no card, and none begins inside it |
| `CardStreams.CutsNeverMatterExactlyWhenSteady` | llm-gateway-guardrail/README.md:97-106 | With the card detector alone, a valid card of digits is shown as one placeholder, among any words without digits and for every cut, exactly if every beginning of it that passes the check only grows into ones that do |
| `CardStreams.UnsteadyCardLeaks` | llm-gateway-guardrail/src/llm_guardrail/redactor.py:166-201 | Otherwise a cut behind a beginning that fails, though a shorter one passes, hides only the longest such one, and the digits behind it come out |
| `CardStreams.UnsteadyCardExists` | llm-gateway-guardrail/src/llm_guardrail/patterns.py:132-141 | Every valid card of up to seventeen digits is the beginning of one for which cuts matter |
| `CardStreams.CardDetectorExists` | llm-gateway-guardrail/src/llm_guardrail/patterns.py:132-141 | A card detector with such a scan exists |
| `CardSearch.CardPattern` | llm-gateway-guardrail/src/llm_guardrail/patterns.py:132-141 | The card detector with its validator and floor of thirteen exists and meets what is assumed of a detector |
| `Channels.ChannelsAreIsolated` | llm-gateway-guardrail/src/llm_guardrail/stream.py:126-163 | For every interleaving of channels and flushes, the text emitted for a channel is that of a separate redactor run on that channel's own pieces |
| `Channels.SegmentIsProcess` | llm-gateway-guardrail/src/llm_guardrail/stream.py:289-316 | Between two flushes a channel emits exactly the whole-stream redaction of the pieces it got in between |
| `Channels.NoSsnInAnySegment` | llm-gateway-guardrail/src/llm_guardrail/stream.py:289-316 | So no segment of any channel shows a social security number |
| `Flushes.NoWordAcrossFlushes` | llm-gateway-guardrail/src/llm_guardrail/stream.py:313-331 | Over any run of events with any number of flushes, the whole text of a channel contains no word if every flush but the last finds it with nothing pending (or with exactly one whole word of its only detector) |
| `Flushes.HarmlessExactlyWhenFinished` | llm-gateway-guardrail/src/llm_guardrail/stream.py:313-331 | With one detector, a flush is harmless, whatever the channel gets before the next one, exactly when it finds nothing pending or a whole word; otherwise some continuation shows a word |
| `Flushes.FlushCutsNumber` | llm-gateway-guardrail/src/llm_guardrail/stream.py:318-319 | Any social security number cut in two by a flush, such as the end of another block, is shown in full on its channel |
| `Channels.FlushLeavesReady` | llm-gateway-guardrail/src/llm_guardrail/stream.py:151-159 | After a flush every channel is as good as new |
| `Channels.SortKeysSorts` | llm-gateway-guardrail/src/llm_guardrail/stream.py:151-159 | A flush visits every other channel once, in the order of the keys |
| `Releases.TailsKeepTheirShape` | llm-gateway-guardrail/src/llm_guardrail/stream.py:145-159 | After any events, a flush releases at most one event per channel, never empty, in the shape of that channel's last delta, the main channel first and the others in the order of their keys |
| `Releases.DeltasKeepTheirShape` | llm-gateway-guardrail/src/llm_guardrail/stream.py:289-311 | A delta comes out on its own channel, in its own shape, with what its redactor releases for it, or not at all if that is nothing |
| `ChannelRegistries.ChannelRegistry.Get` | llm-gateway-guardrail/src/llm_guardrail/stream.py:138-143 | The redactor of a channel, a new and separate one on first use |
| `ChannelRegistries.ChannelRegistry.Remember` | llm-gateway-guardrail/src/llm_guardrail/stream.py:145-149 | The shape of the last event is kept per channel |
| `ChannelRegistries.ChannelRegistry.HandleText` | llm-gateway-guardrail/src/llm_guardrail/stream.py:289-311 | One recognised delta changes the registry of objects as the value-level step does, and no other channel |
| `ChannelRegistries.ChannelRegistry.FlushEverything` | llm-gateway-guardrail/src/llm_guardrail/stream.py:151-159 | The flush loop over the objects is the value-level flush |
| `SseLines.CutsDoNotMatter` | llm-gateway-guardrail/src/llm_guardrail/sse.py:60-89 | A text gives the standard's lines (WHATWG HTML section 9.2.5) for every cut exactly when no CRLF follows a lone LF and neither CRLF nor LF follows a lone CR |
| `SseLines.LfOnlyIsOrdered` | llm-gateway-guardrail/src/llm_guardrail/sse.py:76-89 | LF-only streams meet that condition |
| `SseLines.CrLfOnlyIsOrdered` | llm-gateway-guardrail/src/llm_guardrail/sse.py:76-89 | CRLF-only streams meet it, wherever CR and LF are cut apart |
| `SseRoundTrip.OrderedParse` | llm-gateway-guardrail/src/llm_guardrail/sse.py:60-121 | Any cut of a text that meets the condition gives the same events, those of the standard's lines |
| `SseStandard.StandardExactlyWhenTidy` | llm-gateway-guardrail/src/llm_guardrail/sse.py:91-121 | For any cut of such a text the events are those of the event stream interpretation of WHATWG HTML section 9.2.6, with its own reading of fields and values, exactly when every named block has data and nothing is pending at the end; otherwise the parser sends more |
| `SseStandard.FieldOfParts` | llm-gateway-guardrail/src/llm_guardrail/sse.py:96-97 | A line made of a field, a colon and a value has that field and that value, less one leading space |
| `SseStandard.SameField` | llm-gateway-guardrail/src/llm_guardrail/sse.py:96-97 | On every line, with a colon or without, the parser's field and value are the standard's |
| `SseStandard.NamedBlockWithoutData` | llm-gateway-guardrail/src/llm_guardrail/sse.py:106-112 | An event name and a blank line is a text where they differ |
| `SseStandard.StandardReadsPrint` | llm-gateway-guardrail/src/llm_guardrail/sse.py:37-45 | A client that follows section 9.2.6 reads exactly the printed events from their printed form |
| `SseRoundTrip.ParseUndoesPrint` | llm-gateway-guardrail/src/llm_guardrail/sse.py:37-45 | Any cut of the printed form of a list of printable events parses to exactly that list |
| `SseRoundTrip.OnlyPrintableSurvive` | llm-gateway-guardrail/src/llm_guardrail/sse.py:37-121 | An event survives printing and parsing under every cut exactly when its name is absent or nonempty and on one line and its data has no carriage return |
| `SseParsers.SseParser.HandleLine` | llm-gateway-guardrail/src/llm_guardrail/sse.py:91-104 | One line changes the event under construction as specified |
| `SseParsers.SseParser.Dispatch` | llm-gateway-guardrail/src/llm_guardrail/sse.py:106-112 | An event is dispatched and the parser starts over |
| `SseParsers.SseParser.Feed` | llm-gateway-guardrail/src/llm_guardrail/sse.py:60-74 | The line loop over the buffer handles the drained lines, each once and in order |
| `SseParsers.SseParser.Flush` | llm-gateway-guardrail/src/llm_guardrail/sse.py:114-121 | An unterminated last line is still handled |
| `RateHistory.EvictionUnobservable` | llm-gateway-router/src/llm_router/ratelimit.py:87-104 | Over any run of reserve, settle, release and usage, the table that deletes expired rows gives the same decisions and totals as a log that never deletes, even when evicted rows are settled or released |
| `RateHistory.EvictsExpired` | llm-gateway-router/src/llm_router/ratelimit.py:87-96 | Eviction keeps a row exactly if it is younger than the horizon |
| `RateHistory.ConflictUndoes` | llm-gateway-router/src/llm_router/ratelimit.py:137-172 | A request conflicts exactly if it fits and its id is in a row still inside the window, and then nothing changes, not even by eviction |
| `RateHistory.SlidingWindowHolds` | llm-gateway-router/src/llm_router/ratelimit.py:137-204 | At every instant, not only at admissions, a tenant's charges in the window ending there exceed the limit by at most the sum of the settlements' overruns |
| `RateHistory.TableWithinLimit` | llm-gateway-router/src/llm_router/ratelimit.py:98-104 | The same bound on what the table itself reports, now or later |
| `RetryTimes.RetryAfterIsExact` | llm-gateway-router/src/llm_router/ratelimit.py:106-135 | A refused request no larger than the limit is admitted from now + r on and refused at every moment before, with 0 < r, even if other workers' clocks are ahead; and r <= window if no row is stamped later than now |
| `RetryTimes.LargerThanTheLimit` | llm-gateway-router/src/llm_router/ratelimit.py:133-135 | A request larger than the limit is told exactly one window and would be refused at any time |
| `RetryTimes.ByTimeSorts` | llm-gateway-router/src/llm_router/ratelimit.py:114-119 | The ordered query returns the selected rows, each once, oldest first |
| `RetryTimes.HeaderIsNotEarly` | llm-gateway-router/src/llm_router/router.py:75-78 | The retry-after header is at least the exact time exactly when that is at most a second, whole, or at least a thousandth past a whole second |
| `RetryTimes.EveryWaitOccurs` | llm-gateway-router/src/llm_router/ratelimit.py:106-172 | Every time up to the window is the retry time of some refusal |
| `RetryTimes.HeaderCanBeEarly` | llm-gateway-router/src/llm_router/router.py:75-78 | A run of two reservations whose refusal gets a header that is early, contrary to its comment |
| `RateLimiters.RateLimiter.RetryTime` | llm-gateway-router/src/llm_router/ratelimit.py:106-135 | The accumulating loop computes the retry time of the theorems |
| `RateLimiters.RateLimiter.CheckAndReserve` | llm-gateway-router/src/llm_router/ratelimit.py:137-172 | One admission check is one specified step; a broken unique index rolls everything back |
| `RateHistory.SetTokensKeeps` | llm-gateway-router/src/llm_router/ratelimit.py:174-193 | A settlement changes the amount and the state of the request's rows, keeps their time and place, and leaves every other row alone |
| `RateHistory.RemoveKeeps` | llm-gateway-router/src/llm_router/ratelimit.py:195-204 | A release deletes the request's rows and no other |
| `RateHistory.UsageDecidesAdmission` | llm-gateway-router/src/llm_router/ratelimit.py:206-217 | What a usage query reports decides the next admission check, which evicts first: a new request fits exactly when usage and estimate are within the limit |
| `Workers.InterleavingIsSerial` | llm-gateway-router/src/llm_router/store.py:94-123 | Workers' transactions broken into begin, delete, read, write, commit and rollback, interleaved in any way under one write lock, have the effect and the outcomes of running the committed ones one after the other in commit order |
| `Workers.AdmissionWithinLimit` | llm-gateway-router/src/llm_router/ratelimit.py:142-170 | The total an open check has read is still the committed total when it commits, so right after an admission the tenant is within the limit as seen by that worker's clock |
| `Tokens.ReservationSize` | llm-gateway-router/src/llm_router/tokens.py:55-74 | A positive integer ceiling is reserved exactly up to the clamp; a boolean, any other type, and zero or less reserve the default |
| `Tokens.ActualIsSpend` | llm-gateway-router/src/llm_router/tokens.py:77-95 | A response costs the sum of the four counts of its usage object, a missing or unreadable one counting nothing, and at least one token; and it says nothing exactly if none of the four can be read |
| `Tokens.ReadersDifferOnBooleans` | llm-gateway-router/src/llm_router/tokens.py:87-91 | The body reader and the stream collector differ exactly on booleans, which the body reader counts as numbers |
| `Tokens.CollectorIgnoresCuts` | llm-gateway-router/src/llm_router/tokens.py:120-157 | For every cut of a stream the collector ends in the same state: the unfinished line held, input counts summed and the last output count kept over the complete lines |
| `Tokens.StreamUsageCollector.FeedChunk` | llm-gateway-router/src/llm_router/tokens.py:120-126 | One chunk through the object |
| `Tokens.StreamUsageCollector.Consume` | llm-gateway-router/src/llm_router/tokens.py:128-157 | One line through the object |
| `Tokens.StreamCharge` | llm-gateway-router/src/llm_router/tokens.py:120-163 | For every cut, a stream is charged the sum of the three input counts over its complete lines and the last output count, at least the minimum, and nothing is known exactly if no complete line tells any |
| `Tokens.ReadTells` | llm-gateway-router/src/llm_router/tokens.py:128-157 | A line of a stream tells the sum of its three input counts and its output count, from its event's usage object or else that of the event's message |
| `Routing.ReplyByStatus` | llm-gateway-router/src/llm_router/router.py:144-167 | The reply by the status of the first call that is neither unanswered, a server error, a 401, 403 or 429: below 400 the provider's body, from 400 on its status, which is a 4xx; if there is none, 504 when all timed out and otherwise 502 |
| `Routing.AttemptsByStatus` | llm-gateway-router/src/llm_router/providers.py:94-114 | The attempts reported are the calls up to that one, each with its provider, its status and its verdict; a call that raised is not among them |
| `Routing.StatusExactlyWhen` | llm-gateway-router/src/llm_router/router.py:276-316 | 504 exactly when every provider was tried and every one timed out; 502 exactly when all were tried and not all timed out; a relayed status is always a 4xx other than 401, 403 and 429, so the fallback status is never used |
| `Routing.RoutedUsage` | llm-gateway-router/src/llm_router/router.py:264-338 | Over one request that is not aborted the tenant's usage grows by the spend its answer reports, or else the estimate; by the estimate if all failed and one timed out; and otherwise not at all |
| `Routing.StopAt` | llm-gateway-router/src/llm_router/providers.py:79-114 | Providers are tried up to the first outcome that does not fail over, and no further |
| `Routing.TimeoutsCounted` | llm-gateway-router/src/llm_router/router.py:299-309 | Counting timeouts among the attempts decides whether any, and whether every, call timed out |
| `Routing.BillsOnlyItsRow` | llm-gateway-router/src/llm_router/ratelimit.py:174-204 | A bill touches only the row of its own request |
| `Routers.Router.Route` | llm-gateway-router/src/llm_router/router.py:101-167 | The whole effect of one request: reply, attempts, and a table that is the unexpired rest plus the request's charge at its admission time, if any |
| `Routers.Router.Dispatch` | llm-gateway-router/src/llm_router/router.py:136-160 | The failover loop makes the specified attempts and settles the specified bill |
| `Routers.Router.ExhaustProviders` | llm-gateway-router/src/llm_router/router.py:293-338 | All failed: the estimate is charged if any timed out, otherwise the reservation is released |
| `Routers.Router.OpenStream` | llm-gateway-router/src/llm_router/router.py:192-217 | Failover before the first byte, and the settlement of a stream that is never opened |
| `Routers.Router.Relay` | llm-gateway-router/src/llm_router/router.py:223-243 | A relay, complete or cut off, is charged what the relayed chunks reported, or else the estimate |
| `Routers.Router.RouteStream` | llm-gateway-router/src/llm_router/router.py:169-258 | The whole effect of one streamed request whose relay runs |
| `Requests.BooksBalance` | llm-gateway-router/src/llm_router/router.py:131-167 | In every interleaving of requests, the table holds exactly one row for each unexpired request that is in flight (its estimate) or closed with a charge (that charge), in order of admission, and every request closes exactly once, or is undone after it has |
| `Requests.ClosedTwiceExactlyWhenAborted` | llm-gateway-router/src/llm_router/router.py:131-167 | Over a whole run a request applies two bills exactly when it was aborted after its settling transaction had committed; any other request no longer in flight applied exactly one |
| `Requests.UndoneIsFree` | llm-gateway-router/src/llm_router/router.py:164-167 | A request that was aborted, before or after its settling transaction, has no row in the table |
| `Requests.AChargeIsUndone` | llm-gateway-router/src/llm_router/router.py:136-167 | A run that ends so: admitted, timed out, charged its estimate, aborted, and free |
| `Requests.NoReservationLeft` | llm-gateway-router/src/llm_router/router.py:264-307 | Every reserved row belongs to a request still in flight and holds its estimate |
| `Requests.UsageIsOwed` | llm-gateway-router/src/llm_router/ratelimit.py:206-217 | A tenant's reported usage is the sum of the estimates of its requests in flight and the charges of its closed ones inside the window |
| `Requests.FreshInTable` | llm-gateway-router/src/llm_router/store.py:62-64 | The unique index on request ids is never hit by a fresh id |
| `RefundHistory.PaidAtMostOnce` | mcp-server/src/customer_mcp/idempotency.py:141-188 | Over any run with refusals, rollbacks, expiry and restarts, two refunds issued under one operation key are at least a replay window apart |
| `RefundHistory.ReplayedExactlyWhenRecent` | mcp-server/src/customer_mcp/idempotency.py:161-188 | A request is replayed exactly when its operation was issued less than a window before, with the payload of that issue, and the insert never hits the primary key |
| `RefundHistory.ReplayIsYours` | mcp-server/src/customer_mcp/idempotency.py:134-139 | A replay was issued for the same operation of the same customer |
| `RefundHistory.AskForgetsNothing` | mcp-server/src/customer_mcp/idempotency.py:165-168 | Housekeeping drops no record that is not a window old |
| `Refunds.KeyIdentifies` | mcp-server/src/customer_mcp/idempotency.py:134-139 | For customer ids without a colon, as the schema demands, two requests share an operation key exactly when they are the same operation |
| `Refunds.EmptyKeyIsNone` | mcp-server/src/customer_mcp/idempotency.py:134-139 | An empty supplied key counts as none |
| `Refunds.KeysCanCollide` | mcp-server/src/customer_mcp/idempotency.py:136-138 | Without that demand two customers can meet in one key |
| `RefundHistory.MoneyIsConserved` | mcp-server/src/customer_mcp/store.py:164-211 | In every process each customer's balance is the seed balance less that customer's recorded refunds, never negative, and nothing else about a customer changes |
| `RefundHistory.OnlyIssuesMoveMoney` | mcp-server/src/customer_mcp/store.py:139-211 | The store changes exactly at an issue, by the amount asked, within the balance of an active account; a replay or refusal changes nothing |
| `RefundHistory.DueIsIssued` | mcp-server/src/customer_mcp/store.py:164-222 | At every moment of a run, a request that is no replay is issued exactly if its customer is known and active and the amount is covered by the seed balance less the refunds recorded in this process, all of it included; otherwise it is refused with the first of these that fails, and the store gains exactly the refund issued |
| `RefundHistory.LedgerExactly` | mcp-server/src/customer_mcp/idempotency.py:161-188 | A refusal leaves the ledger as it was; after any other answer it holds exactly the records younger than the window and, for an issue, its own record |
| `RefundHistory.RefundedSplit` | mcp-server/src/customer_mcp/store.py:195 | The sum over the refund dictionary does not depend on its order |
| `RefundHistory.CustomersStay` | mcp-server/src/customer_mcp/store.py:114-136 | Over every run a customer can be looked up exactly if the seed has it |
| `RefundLedgers.CustomerStore.IssueRefund` | mcp-server/src/customer_mcp/store.py:164-222 | The balance-moving half on the object's dictionaries, with its three refusals in order |
| `RefundLedgers.RefundLedger.RunOnce` | mcp-server/src/customer_mcp/idempotency.py:122-188 | One request on the objects is the specified transaction; a refusal rolls the ledger back, deletions included |

## Left out

- The regular expression engine and the concrete languages of EMAIL, PHONE and API_KEY: their lookarounds see text already emitted; they are arbitrary detectors here.
- ManyDetectors.StreamReplacesAll: gives a sufficient condition for a list of any length; that it is also necessary is proved for two detectors.
- TwoDetectors.NumberInAnAddress: the address is a language of one word; the EMAIL expression itself is not modelled.
- Flushes.HarmlessExactlyWhenFinished: is for one detector; Flushes.NoWordAcrossFlushes covers any set of detectors.
- RedactorEdits.StreamIsAnEdit: is for detectors whose matches and holdback points never fall inside a placeholder; a detector that matches placeholder text is not covered.
- CardSearch.ValidatedEndIsExact: takes the first character of the match as given by the search; numbers whose digits are not decimal digits of some script do not occur in a match.
- CardSearch.CardPattern: takes the partial-match scan as a parameter; `CardStreams` assumes of it only that, after words without digits, it holds back exactly the digits that end a text.
- CardStreams.CutsNeverMatterExactlyWhenSteady: is for cards written without separators; a card in groups is covered by CardPass.CardIsHidden, within one text.
- SseStandard.StandardExactlyWhenTidy: leaves out event ids, reconnection times and the byte order mark of section 9.2.6, which the parser ignores, and speaks of texts whose terminators are in order.
- Byte decoding, JSON text, SHA-256, random ids and Unicode tables: parameters or fresh values.
- Channels.ChannelsAreIsolated: is for events with at most one recognised text leaf. With several leaves, a tail released at a flush is put back into the original payload, with the other leaves as they arrived.
- The other branches of the event handler (thinking, unrecognised shapes, drop, block and pass policies) and `redact_leaves`: branch-by-branch facts.
- Routers.Router.RouteStream: is for a relay that runs; a relay that is never iterated keeps its reservation until it expires.
- Requests.BooksBalance: covers requests that are not streamed; a cancellation during the admission check itself, after its commit, is not modelled.
- Timeouts as clock events, HTTP calls, headers other than retry-after, logging: an attempt is an outcome with an optional usage.
- The prompt size estimate is a parameter of the reservation.
- SQLite's write-ahead log, its busy timeout, and crashes inside a refund transaction.
- Amounts as binary floating point: integer cents, which the request schema guarantees to be representable.
- Refund ids are fresh by assumption; twelve hexadecimal digits would overwrite an earlier refund on a collision.
- The MCP gateway, request schemas, authentication, configuration, demo console and mock providers.

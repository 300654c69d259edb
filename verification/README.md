# Data responses and the visual voicemail SMS filter, in Dafny

This project models two small pieces of sequential decision logic from
Android's telephony framework and proves properties about them.

**Data-call response handlers (`DataResponse`).** The radio HAL answers each
data request with a `RadioResponseInfo` that carries a serial and an error
code. The handler asks the RIL for the pending request with that serial
(`processResponse`). If there is one, it delivers a result to the caller's
result `Message`, but only when the error is `NONE`. It then finalises the
request once with `processResponseDone`. Here each handler is a pure function
from the pending table and one response to a `Step`. A `Step` holds:

- the new table;
- the ordered effect trace: `Deliver(target, value)`, `Done(serial, error, value)` and `Ack(serial)`;
- a flag saying whether an exception escaped the handler.

The model assumes one thing about `RIL.processResponse`, whose body is not part
of this model. Looking up a serial removes its entry (`PendingTable.ProcessResponse`),
so a second response for the same serial finds nothing. `ResponseStream` runs
the handlers over a sequential stream of inbound calls and proves that each
serial is finalised at most once over any stream, and exactly once when no
converter outside `try/finally` threw.

**Visual voicemail SMS filter (`VisualVoicemailSmsFilter`).** The model covers:

- the ordered cascade of early exits and decisions in `filter`;
- the carrier regex table built by `buildPatternsMap` (`VvmPatterns`), using a faithful model of Java's `String.split` (`JavaSplit`);
- the two ways of reading a body out of the PDUs (`VvmPdu`).

Platform services, PDU parsing, UTF-8 decoding, the structured parsers and
regex matching are function-valued fields of a `Platform` record, so they are
uninterpreted. The process-wide `sPatterns` is threaded through as explicit
`Option<PatternMap>` state.

Behaviour of the handlers worth noting:

- Delivery only on `NONE`: each handler itself delivers to the caller only when the error is `NONE`. On any other code the caller is answered inside `processResponseDone`, which is not part of this model; it receives the value carried by `Done`.
- Soft codes: for `REQUEST_NOT_SUPPORTED` and `NO_RESOURCES`, `startKeepaliveResponse` builds a keepalive status (`ERROR_UNSUPPORTED` or `ERROR_NO_RESOURCES`) and hands it to `processResponseDone` rather than delivering it itself.
- Converters run on error: the data-call list, slicing config and setup result converters run even when the error is not `NONE`. Their output still goes to `processResponseDone`.
- Converter faults: only `startKeepaliveResponse` and `stopKeepaliveResponse` finalise inside `try/finally`. If one of the three other converters throws, the entry has already been removed, but `processResponseDone` never runs. The model shows this as `DataResponse.Leaked`.
- Acknowledgements: `acknowledgeRequest` only forwards the serial. It does not look the serial up.

## Model

| member | source | states |
|---|---|---|
| PendingTable.ProcessResponse | src/java/com/android/internal/telephony/DataResponse.java:54-56 | Assumed lookup-and-remove: finds the request exactly when the serial is pending, removes only that entry and keeps every other entry. |
| DataResponse.SendMessageResponse | src/java/com/android/internal/telephony/DataResponse.java:46-51 | Delivers exactly once to a non-null result `Message`, and not at all to a null one. |
| DataResponse.ResponseVoid | src/java/com/android/internal/telephony/DataResponse.java:53-63 | An unknown serial is inert. For a pending serial: the entry is removed, `processResponseDone(null)` runs exactly once and last, and null is delivered exactly when the error is `NONE` and the `Message` is non-null. It never faults. |
| DataResponse.AcknowledgeRequest | src/java/com/android/internal/telephony/DataResponse.java:71-73 | Leaves the table unchanged. Emits one `Ack(serial)`, with no delivery and no finalisation. |
| DataResponse.AllocatePduSessionIdResponse | src/java/com/android/internal/telephony/DataResponse.java:79-87 | Same discipline as `responseVoid`. The id is the value finalised, and it is the value delivered on `NONE`. |
| DataResponse.GetDataCallListResponse | src/java/com/android/internal/telephony/DataResponse.java:108-120 | The converted list is finalised whatever the error, and delivered only on `NONE`. The call faults exactly when the converter throws; then the entry is gone with no delivery and no finalisation. |
| DataResponse.GetSlicingConfigResponse | src/java/com/android/internal/telephony/DataResponse.java:126-137 | Same as for the data-call list, with the converted slicing config. |
| DataResponse.SetupDataCallResponse | src/java/com/android/internal/telephony/DataResponse.java:178-189 | Same as for the data-call list, with the converted setup result. |
| DataResponse.KeepaliveOnSuccess | src/java/com/android/internal/telephony/DataResponse.java:212-218 | A negative converted code gives `ERROR_UNSUPPORTED`. Otherwise the result is the session handle with the converted code. |
| DataResponse.KeepaliveOnError | src/java/com/android/internal/telephony/DataResponse.java:223-231 | `REQUEST_NOT_SUPPORTED` gives `ERROR_UNSUPPORTED` and `NO_RESOURCES` gives `ERROR_NO_RESOURCES`. Any other non-`NONE` code gives `ERROR_UNKNOWN`. Each mapping holds in both directions. |
| DataResponse.StartKeepaliveResponse | src/java/com/android/internal/telephony/DataResponse.java:202-237 | Unknown serial is inert. A fault happens exactly on `NONE` with a null payload; then `processResponseDone(null)` still runs once, with no delivery. On `NONE` the computed status is delivered even when it encodes an error. On any other code the mapped status goes only to `processResponseDone`. |
| DataResponse.StopKeepaliveResponse | src/java/com/android/internal/telephony/DataResponse.java:242-255 | Unknown serial is inert. Otherwise the entry is removed and finalised once with null, and null is delivered only on `NONE`. Under the model's fault assumptions (see Left out) it behaves like `responseVoid`; its `try/finally` matters only if delivery faults, which is not modelled. |
| ResponseStream.Handle | src/java/com/android/internal/telephony/DataResponse.java:92-196 | Dispatches each inbound call. Every void response delegates to `responseVoid`. An ack keeps the table. A response removes its serial, and one whose serial is not pending does nothing. |
| ResponseStream.HandleFinalisesOnce | src/java/com/android/internal/telephony/DataResponse.java:53-255 | For one call: at most one finalisation, and only for the serial it removed. It is exactly one unless a handler without `try/finally` faulted. |
| ResponseStream.HandleDeliversOnce | src/java/com/android/internal/telephony/DataResponse.java:53-255 | For one call: at most one delivery, and never without a finalisation. |
| ResponseStream.RunFinalisesAtMostOnce | src/java/com/android/internal/telephony/DataResponse.java:53-255 | Over any stream: the table only shrinks and no serial is finalised twice. Every removed serial is finalised exactly once when no handler faulted, or when all handlers finalise on every path. Deliveries never outnumber finalisations. |
| ResponseStream.NoDoubleFinalisation | src/java/com/android/internal/telephony/DataResponse.java:54-61 | In any stream each serial is finalised at most once, and a serial that was never pending is never finalised. |
| ResponseStream.DuplicateResponseInert | src/java/com/android/internal/telephony/DataResponse.java:54-56 | A second response for a serial that was already answered changes nothing and emits nothing. |
| ResponseStream.AckThenResponse | src/java/com/android/internal/telephony/DataResponse.java:71-73 | An acknowledgement before a response only adds its `Ack`. The response is then handled as if the ack had not been seen. |
| ResponseStream.AllocateScenario | src/java/com/android/internal/telephony/DataResponse.java:79-87 | Serial 7 with id 42 on `NONE`: the caller gets 42, then `processResponseDone` gets 42, and 7 is removed. |
| ResponseStream.KeepaliveUnsupportedScenario | src/java/com/android/internal/telephony/DataResponse.java:223-235 | `REQUEST_NOT_SUPPORTED` yields only a finalisation carrying `ERROR_UNSUPPORTED`. Nothing is delivered to the caller. |
| ResponseStream.StopKeepaliveFailureScenario | src/java/com/android/internal/telephony/DataResponse.java:246-254 | Stopping a keepalive with a failure code yields only a finalisation, carrying null. |
| JavaSplit.Split | src/java/com/android/internal/telephony/VisualVoicemailSmsFilter.java:139 | With no separator the result is the whole string. Otherwise it is a prefix of the full cut with only empty pieces dropped, ending in a non-empty piece or empty. No piece contains the separator. |
| JavaSplit.SplitReconstructs | src/java/com/android/internal/telephony/VisualVoicemailSmsFilter.java:139 | What `split` returns, followed by the empty pieces it dropped, joins back to the original string. |
| JavaSplit.SplitOfJoin | src/java/com/android/internal/telephony/VisualVoicemailSmsFilter.java:139 | Splitting the join of separator-free pieces gives back those pieces, empty leading and interior pieces included, provided there is one piece or the last piece is non-empty. |
| VvmPatterns.ParseEntry | src/java/com/android/internal/telephony/VisualVoicemailSmsFilter.java:139-140 | An entry throws exactly when `split(";")` has fewer than two parts or the regex does not compile, so an entry without `;` always throws. The regex is part 1, and the mccMncs are exactly part 0 split at `,` (so `";r"` lists the key `""`), none containing `,` or `;`. |
| VvmPatterns.ParseEntryInvertsFormat | src/java/com/android/internal/telephony/VisualVoicemailSmsFilter.java:139-140 | Parsing `"k1,k2,...;regex"` gives back exactly the keys and the regex written into it. |
| VvmPatterns.AddToKeysAppends | src/java/com/android/internal/telephony/VisualVoicemailSmsFilter.java:142-147 | Each key's list grows by one copy of the pattern for each time the key is listed. Other keys are unchanged, and a key is present afterwards iff it was present before or is listed. |
| VvmPatterns.BuildPatternsMap | src/java/com/android/internal/telephony/VisualVoicemailSmsFilter.java:131-135 | An existing table is kept unchanged and nothing is thrown (idempotent). Otherwise a table always exists afterwards. |
| VvmPatterns.BuildPatternsMapContents | src/java/com/android/internal/telephony/VisualVoicemailSmsFilter.java:135-148 | A first build throws iff some entry cannot be parsed. Each key's list holds, in entry order, the patterns of the entries before the first bad one that list that key. No present key has an empty list. |
| VvmPatterns.SharedKeyFollowsEntryOrder | src/java/com/android/internal/telephony/VisualVoicemailSmsFilter.java:137-148 | For two entries that share a key, the shared key gets `[A, B]` in entry order, and the other key gets `[A]`. |
| VvmPdu.ReadPdu | src/java/com/android/internal/telephony/VisualVoicemailSmsFilter.java:177-196 | A PDU is unrecognised iff the PDU parser returns null. It is undecodable iff the body is null, the user data is non-null and that data is not valid UTF-8. A non-null body is used as it is; a null body with decodable user data yields the decoded text; with neither body nor user data the PDU contributes nothing. |
| VvmPdu.GetFullMessageSpec | src/java/com/android/internal/telephony/VisualVoicemailSmsFilter.java:173-202 | The result is null iff some PDU is unrecognised or undecodable. Otherwise it is the in-order concatenation of the PDU bodies, where a null body adds nothing. |
| VvmPdu.ParseAsciiPduMessage | src/java/com/android/internal/telephony/VisualVoicemailSmsFilter.java:204-210 | The result equals the concatenated PDU bytes read as ASCII, one character per byte. So its length is the total byte count. |
| VvmPdu.AsciiRoundTrip | src/java/com/android/internal/telephony/VisualVoicemailSmsFilter.java:204-210 | For 7-bit PDUs, encoding the result back to bytes gives the concatenated PDUs. |
| VvmFilter.PhoneAccountHandleFromSubId | src/java/com/android/internal/telephony/VisualVoicemailSmsFilter.java:213-223 | A handle exists iff the subscription is valid and has a phone index. The handle names the PSTN connection service and the phone's ICC serial. |
| VvmFilter.VvmSmsBroadcast | src/java/com/android/internal/telephony/VisualVoicemailSmsFilter.java:151-167 | The broadcast goes to `com.android.phone` and carries the account. It carries a prefix and fields iff there is message data, and the body exactly as given. |
| VvmFilter.FirstMatch | src/java/com/android/internal/telephony/VisualVoicemailSmsFilter.java:120-127 | Returns the first pattern that matches, or reports that none matches, in both directions. |
| VvmFilter.Filter | src/java/com/android/internal/telephony/VisualVoicemailSmsFilter.java:70-129 | Stops with false and no broadcast when there are no settings or no phone account. An unparsable body gives false, with one broadcast only if the alternative format parses. A client-format parse gives true with its data broadcast, without consulting patterns. Otherwise the carrier patterns decide; a build that throws raises. |
| VvmFilter.FilterBroadcastsOnce | src/java/com/android/internal/telephony/VisualVoicemailSmsFilter.java:88-128 | At most one broadcast per SMS. A dropped SMS always has a readable body and exactly one broadcast. A raised call broadcasts nothing. |
| VvmFilter.FilterBuildsPatternsOnce | src/java/com/android/internal/telephony/VisualVoicemailSmsFilter.java:112-115 | An existing table is never changed and never raises. A call that raised leaves a table behind, so no later call raises. |
| VvmFilter.PatternDropCarriesRawBody | src/java/com/android/internal/telephony/VisualVoicemailSmsFilter.java:120-126 | Whatever the current pattern table, a drop by carrier pattern broadcasts the raw body, with no parsed prefix. |

## Left out

- The real bodies of `RIL.processResponse`, `processResponseDone` and `processRequestAck` are not part of this model. Only the lookup-and-remove, finalise and forward abstraction is modelled. The response `type` field, the wakelock and logging are omitted with them.
- `RILUtils` converters (`convertHalDataCallResultList`, `convertHalSlicingConfig`, `convertHalDataCallResult`, `convertHalKeepaliveStatusCode`) are uninterpreted functions. Nothing is claimed about order preservation. The first three may throw; `convertHalKeepaliveStatusCode` is modelled as total, so a throw there (which `try/finally` would finalise like the null-payload case) is not modelled.
- The HAL and framework payload types (`SetupDataCallResult`, `SlicingConfig`, `DataCallResponse`) are opaque types.
- The numeric values of `RadioError` and `KeepaliveStatus` codes are left out, because they are not part of this model. Codes are constructors, and `KeepaliveStatus` is identified by which constructor built it.
- A null `PhoneFactory.getPhone(phoneId)` in `phoneAccountHandleFromSubId` is not modelled: the phone's ICC serial is taken as always available.
- A null `RadioResponseInfo`, and a fault inside `AsyncResult.forMessage` or `sendToTarget`, are not modelled. Java exceptions are modelled only where the handlers' own code can raise them: a converter, or the null keepalive payload.
- The thread-safety of the pending table is left out. Responses are treated as one sequential stream; concurrent access to the pending table is left out.
- The filter's Android plumbing is left out: `Context`, `Intent` action and extras, `Log`, and the `VisualVoicemailSms.Builder` internals. A broadcast is modelled as its target package and the SMS fields it sets.
- The destination port is accepted but not consulted, as in the source.
- Null `pdus`, null PDU entries, a null `format`, a null `clientPrefix` and a null mccMnc are not modelled. They are taken as ordinary values or handed to the oracles.
- `SmsMessage.createFromPdu`, the UTF-8 `CharsetDecoder`, `VisualVoicemailSmsParser.parse`, `parseAlternativeFormat`, `Pattern.compile` and `Matcher.matches` are oracles.
- `sPatterns` is explicit state rather than a process-wide static. Concurrent first calls to `buildPatternsMap` are not modelled.

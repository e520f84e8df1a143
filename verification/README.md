# call-app signalling, modelled in Dafny

call-app is an Android one-button audio caller. Its only real logic is the
signalling inside `MainActivity`. Two endpoints exchange pipe-delimited text
messages over a WebSocket relay:

- `OFFER|desc` and `ANSWER|desc` carry session descriptions;
- `ICE|mid|index|candidate` carries a connectivity candidate.

Each endpoint reacts to socket, WebRTC and SDP-observer callbacks. This project
models that signalling as pure functions and proves properties about it.

- `fields.dfy` (module `Fields`): Kotlin's `split("|")`. It keeps every empty
  field, trailing ones included. `Join` is its inverse.
- `decimal.dfy` (module `Decimal`): how an `Int` renders inside a string
  template, and `String.toInt()`. The model's `toInt` takes an optional sign, then at least
  one ASCII digit, and the value must fit in 32 bits (see the
  `Decimal.ParseInt` line under "## Left out" for other digits).
- `wire.dfy` (module `Wire`): the `Message` datatype, the three send templates
  (`Encode`), and the reading half of `handleSignal` (`Decode`). `Decode`
  returns `Success(Some(m))`, `Success(None)` for a tag the `when` has no branch
  for, or `Failure(e)` for the exception the source would throw. Fields are
  read in Kotlin's evaluation order, so `ICE|a|x` fails on the index before the
  missing candidate is noticed.
- `signalling.dfy` (module `Signalling`): `Step` maps an event to a `Reaction`.
  A reaction holds the new state, the abstract actions in source order
  (`BuildConnection`, `CreateOffer`, `CreateAnswer`, `SetLocal`, `SetRemote`,
  `AddCandidate`, `Send`), and the decode error that escaped, if any. The only
  state is whether `peerConnection` is non-null. Every `peerConnection?.` call is
  skipped while it is null. Every `ws.send` call is unconditional, so which texts an
  endpoint hands to the socket depends only on the events. `Run` folds `Step` over a sequence of events.
- `results.dfy` (module `Results`): `Option` and a `Result` usable with `:-`.

Each event is handled on its own, from the current state alone:

- An unknown tag does nothing. The `when` in `handleSignal` has no else branch.
- A malformed message throws at the first field it cannot read. That is either
  a positional field the split did not produce (`MissingField`) or an index
  field `toInt` refuses (`NotAnInt`).
- A bare `OFFER` rebuilds the connection before it fails. The source calls
  `createPeerConnection(false)` before it reads `parts[1]`.
- An inbound ICE candidate is handed to the connection during its own event.
- Every inbound OFFER rebuilds the connection as the non-caller, whatever
  happened before, so a second offer is handled like the first.
- On socket open both endpoints take the caller role and send an OFFER. Each
  then answers the other's offer (`OfferDelivered` holds for any receiver
  state).

Completion callbacks (`OfferCreated`, `RemoteOfferSet`, `AnswerCreated`) are
events of their own. `Caused` says that each of them follows, in the same run,
the request it completes. Under `Caused`, an OFFER is only ever sent after the
socket opened, and an ANSWER only after a well-formed inbound OFFER.

## Model

| member | source | states |
|---|---|---|
| Fields.Split | app/src/main/java/com/example/callapp/MainActivity.kt:114 | splitting on the pipe gives exactly one more field than there are separators; no field contains a separator; field 0 is the longest separator-free prefix |
| Fields.FirstField | app/src/main/java/com/example/callapp/MainActivity.kt:118 | the text read as field 1 after a tag is a separator-free prefix of the rest, ending at a separator or at the end |
| Fields.JoinSplit | app/src/main/java/com/example/callapp/MainActivity.kt:114 | rejoining the fields with pipes gives back the original text (empty and trailing fields are kept) |
| Fields.SplitJoin | app/src/main/java/com/example/callapp/MainActivity.kt:114 | splitting a join of separator-free fields gives back exactly those fields |
| Fields.SplitCons | app/src/main/java/com/example/callapp/MainActivity.kt:114 | a separator-free field followed by a pipe splits off as the first field, leaving the fields of the rest |
| Fields.SplitThree | app/src/main/java/com/example/callapp/MainActivity.kt:114 | three separator-free fields, each followed by a pipe, split off as the first three fields |
| Fields.FirstFieldOfClean | app/src/main/java/com/example/callapp/MainActivity.kt:118 | field 1 is the whole rest of the message if and only if the rest holds no separator |
| Decimal.IntToDecimal | app/src/main/java/com/example/callapp/MainActivity.kt:80 | an interpolated `Int` renders as digits, with a leading `-` exactly when negative |
| Decimal.ParseInt | app/src/main/java/com/example/callapp/MainActivity.kt:148 | `toInt` succeeds only on an optional sign followed by at least one digit, and the result fits in an `Int` |
| Decimal.ParseIntToDecimal | app/src/main/java/com/example/callapp/MainActivity.kt:80-148 | `toInt` reads back the rendering of every 32-bit integer, and refuses the rendering of every integer outside that range |
| Decimal.ParseIntRejectsNonDigit | app/src/main/java/com/example/callapp/MainActivity.kt:148 | a character that is neither a digit nor a leading sign makes `toInt` fail |
| Wire.Encode | app/src/main/java/com/example/callapp/MainActivity.kt:80-124 | the three send templates; the first field of each message is its tag |
| Wire.Decode | app/src/main/java/com/example/callapp/MainActivity.kt:113-151 | no message exactly when field 0 is not `OFFER`, `ANSWER` or `ICE` (case-sensitive, the empty text included); a decoded message's tag is field 0; a missing-field error names a position the split did not produce |
| Wire.DecodeEncode | app/src/main/java/com/example/callapp/MainActivity.kt:80-148 | round trip: every message whose sdp, mid and candidate hold no pipe decodes back to itself |
| Wire.DecodeTruncatesDescription | app/src/main/java/com/example/callapp/MainActivity.kt:104-138 | an OFFER or ANSWER tag, a pipe and any text `s` decode to the part of `s` before its first pipe |
| Wire.DecodeTruncatesCandidate | app/src/main/java/com/example/callapp/MainActivity.kt:80-148 | for a mid without a pipe, the ICE encoding of (mid, index, cand) decodes to the same mid and index, with cand cut at its first pipe |
| Wire.DecodeIgnoresExtraFields | app/src/main/java/com/example/callapp/MainActivity.kt:114-148 | any fields after the ones a branch reads are ignored, not rejected |
| Wire.DescriptionFields | app/src/main/java/com/example/callapp/MainActivity.kt:104-124 | the fields of an OFFER or ANSWER text are its tag followed by the fields of its description |
| Wire.CandidateFields | app/src/main/java/com/example/callapp/MainActivity.kt:80 | for a mid without a pipe, the fields of an ICE text are tag, mid and index text, followed by the fields of the candidate |
| Wire.DecodeIceFields | app/src/main/java/com/example/callapp/MainActivity.kt:148 | a text whose first four fields are ICE, a mid, a rendered index and a candidate decodes to that candidate |
| Wire.DecodeFailsIff | app/src/main/java/com/example/callapp/MainActivity.kt:114-148 | decoding fails exactly when OFFER or ANSWER has no field 1, or ICE has fewer than four fields, or ICE's field 2 is not an `Int` |
| Wire.IceErrorOrder | app/src/main/java/com/example/callapp/MainActivity.kt:148 | which exception a short ICE text raises, following left-to-right argument evaluation |
| Wire.DecodeTwoFieldIce | app/src/main/java/com/example/callapp/MainActivity.kt:148 | `ICE` then one field (any two-field ICE text) fails on the missing index field |
| Wire.DecodeBareOffer | app/src/main/java/com/example/callapp/MainActivity.kt:118 | `OFFER` alone fails on the missing field 1 |
| Wire.DecodeTagIsCaseSensitive | app/src/main/java/com/example/callapp/MainActivity.kt:115 | examples of unknown tags: the lower-case tag `offer` followed by a field, and the empty text decode to no message, not to an error |
| Wire.DecodeSingleField | app/src/main/java/com/example/callapp/MainActivity.kt:114-148 | a text without separators is a lone tag: OFFER, ANSWER and ICE fail on the missing field 1, anything else is no message |
| Wire.DecodeUnknownTag | app/src/main/java/com/example/callapp/MainActivity.kt:115-151 | a separator-free first field other than exactly OFFER, ANSWER or ICE is no message, whatever follows it |
| Signalling.Build | app/src/main/java/com/example/callapp/MainActivity.kt:74-111 | `createPeerConnection` builds a connection first and requests an offer if and only if it is the caller; it sends nothing |
| Signalling.HandleSignal | app/src/main/java/com/example/callapp/MainActivity.kt:113-151 | an inbound message never sends anything and never requests an offer; it raises a fault exactly when decoding fails |
| Signalling.Step | app/src/main/java/com/example/callapp/MainActivity.kt:53-151 | what an event sends is fixed by the event alone; only socket open requests an offer; only inbound messages fault; a connection, once built, stays |
| Signalling.Run | app/src/main/java/com/example/callapp/MainActivity.kt:74-77 | over any run of events, a peer that has a connection keeps one |
| Signalling.RunSends | app/src/main/java/com/example/callapp/MainActivity.kt:80-124 | a run sends exactly one OFFER per created offer, one ANSWER per created answer and one ICE per local candidate, in event order |
| Signalling.StepApplies | app/src/main/java/com/example/callapp/MainActivity.kt:147-150 | on a connected peer, an event applies exactly the ICE candidate it carries, and nothing else |
| Signalling.CandidatesAppliedOnArrival | app/src/main/java/com/example/callapp/MainActivity.kt:147-150 | from a connected peer, each well-formed inbound candidate is applied once, during its own event, in arrival order |
| Signalling.CallerNegotiation | app/src/main/java/com/example/callapp/MainActivity.kt:53-110 | socket open, then offer creation: build as caller, create offer, set it locally, send it as OFFER |
| Signalling.CallerSendsOnlyOffer | app/src/main/java/com/example/callapp/MainActivity.kt:100-110 | scenario: over socket open followed by the offer callback, the only message sent is that OFFER |
| Signalling.CalleeNegotiation | app/src/main/java/com/example/callapp/MainActivity.kt:116-135 | scenario: for any text that decodes to an offer, that message followed by the two answer callbacks rebuilds as non-caller, sets that remote description, creates the answer, sets it locally and sends ANSWER, in that order and with no offer request |
| Signalling.CalleeSendsOnlyAnswer | app/src/main/java/com/example/callapp/MainActivity.kt:116-135 | scenario: over an inbound OFFER followed by the two answer callbacks, the only message sent is that ANSWER |
| Signalling.SocketOpenedBuildsCaller | app/src/main/java/com/example/callapp/MainActivity.kt:53-56 | socket open, from any state, builds the connection as caller and requests an offer, sending nothing |
| Signalling.DescriptionCreated | app/src/main/java/com/example/callapp/MainActivity.kt:102-124 | on a connected peer, a created offer or answer is set as local description and then sent as one OFFER or ANSWER message |
| Signalling.InboundOffer | app/src/main/java/com/example/callapp/MainActivity.kt:116-119 | an inbound OFFER rebuilds as non-caller and sets the remote description, whatever the prior state |
| Signalling.InboundAnswer | app/src/main/java/com/example/callapp/MainActivity.kt:137-145 | an inbound ANSWER only sets the remote description, when a connection exists; state unchanged, nothing sent |
| Signalling.InboundIce | app/src/main/java/com/example/callapp/MainActivity.kt:147-150 | an inbound ICE candidate is added at once, when a connection exists, and nothing is sent |
| Signalling.MalformedInbound | app/src/main/java/com/example/callapp/MainActivity.kt:116-148 | a message that fails to decode surfaces its error; only a bare OFFER has an effect (the rebuild) |
| Signalling.UnknownTagIgnored | app/src/main/java/com/example/callapp/MainActivity.kt:115-151 | a first field other than exactly OFFER, ANSWER or ICE produces no action, no message and no state change |
| Signalling.LocalCandidateSent | app/src/main/java/com/example/callapp/MainActivity.kt:79-81 | each local candidate is sent at once as one ICE message, and nothing else happens |
| Signalling.OfferDelivered | app/src/main/java/com/example/callapp/MainActivity.kt:104-119 | the OFFER one endpoint sends makes the other rebuild as non-caller and set the description, cut at its first pipe |
| Signalling.AnswerDelivered | app/src/main/java/com/example/callapp/MainActivity.kt:124-145 | the ANSWER one endpoint sends is set as remote description by a connected receiver, cut at its first pipe |
| Signalling.CandidateDelivered | app/src/main/java/com/example/callapp/MainActivity.kt:80-149 | for a mid without a pipe, the ICE one endpoint sends is added by a connected receiver with the same mid and index, the candidate cut at its first pipe |
| Signalling.OutboundMembers | app/src/main/java/com/example/callapp/MainActivity.kt:80-124 | a text is among those sent exactly when some action of the list sends it |
| Signalling.StepWithoutConnection | app/src/main/java/com/example/callapp/MainActivity.kt:113-151 | with no connection, an event other than socket open or an OFFER-tagged text keeps the state and issues only socket sends |
| Signalling.DroppedBeforeConnection | app/src/main/java/com/example/callapp/MainActivity.kt:137-150 | from the start state, until a socket open or an OFFER-tagged text arrives, the run stays unconnected and inbound ANSWER and ICE messages set and add nothing |
| Signalling.ActionOrigin | app/src/main/java/com/example/callapp/MainActivity.kt:53-151 | every action of a run is issued by one of its events, from the state the earlier events left |
| Signalling.OfferRequestOrigin | app/src/main/java/com/example/callapp/MainActivity.kt:55-101 | an offer is requested in a run only if the socket opened in it |
| Signalling.StepAnswerRequest | app/src/main/java/com/example/callapp/MainActivity.kt:119-121 | only the success callback of setting the remote offer requests an answer |
| Signalling.AnswerRequestOrigin | app/src/main/java/com/example/callapp/MainActivity.kt:119-121 | an answer is requested in a run only if the remote offer was set in it |
| Signalling.HandleSignalRequestsNoAnswer | app/src/main/java/com/example/callapp/MainActivity.kt:113-151 | handling an inbound message never requests an answer directly |
| Signalling.StepRemoteOffer | app/src/main/java/com/example/callapp/MainActivity.kt:116-119 | only a well-formed inbound OFFER sets a remote offer description |
| Signalling.RemoteOfferOrigin | app/src/main/java/com/example/callapp/MainActivity.kt:116-119 | a remote offer is set in a run only if it holds a well-formed inbound OFFER |
| Signalling.SentTag | app/src/main/java/com/example/callapp/MainActivity.kt:80-124 | the tag of a sent text names the event that sent it: OFFER from the offer callback, ANSWER from the answer callback, ICE from a local candidate |
| Signalling.OfferSentOnlyAfterOpen | app/src/main/java/com/example/callapp/MainActivity.kt:53-105 | in every run whose callbacks follow their requests, each OFFER is sent after a socket open |
| Signalling.RemoteSetBeforeAnswer | app/src/main/java/com/example/callapp/MainActivity.kt:119-122 | in every run whose callbacks follow their requests, an answer callback comes after a remote-offer callback |
| Signalling.OfferBeforeRemoteSet | app/src/main/java/com/example/callapp/MainActivity.kt:116-120 | in every run whose callbacks follow their requests, a remote-offer callback comes after a well-formed inbound OFFER |
| Signalling.AnswerSentOnlyAfterOffer | app/src/main/java/com/example/callapp/MainActivity.kt:116-124 | in every run whose callbacks follow their requests, each ANSWER is sent after a well-formed inbound OFFER |
| Signalling.CalleeExchangeCaused | app/src/main/java/com/example/callapp/MainActivity.kt:116-124 | the callee exchange (inbound OFFER, remote set, answer created) is a run whose callbacks follow their requests |

## Left out

- The activity lifecycle, the permission request and the button wiring (MainActivity.kt:25-48) are platform and UI code.
- WebSocket construction, the relay address and `connect` are I/O. `onClose` and `onError` only log, so they are the no-op events `SocketClosed` and `SocketError`; the `Send` line below says what a closed socket does to later sends.
- `runOnUiThread` is left out. `onOpen` runs `createPeerConnection(true)` later on the UI thread, while `onMessage` runs on the socket thread. The model treats all events as one serial stream, so it does not model messages that overtake the connection build.
- WebRTC calls are abstract actions. `BuildConnection` stands for the connection, the STUN configuration and the local audio source, track and stream. The model assumes `factory.createPeerConnection` returns a connection; its null result on failure is left out.
- Every SDP-observer and connection-observer callback with an empty body is the single no-op event `Unhandled`. That includes every failure callback.
- The model does not track connection identity. A rebuild replaces the reference and the old connection is never closed, but the model only records that a connection exists. A callback from an observer of a replaced connection is treated like any other callback of its kind.
- An exception escaping `handleSignal` becomes the `fault` of the reaction. What the WebSocket library does with it afterwards is outside the model.
- The model does not render a null `sdpMid` as the text `null`: `mid` is always a string.
- Decimal.ParseInt: accepts ASCII digits only. The JVM parser also accepts other Unicode decimal digits.
- Completion callbacks are free events. `Run` accepts an `OfferCreated`, `RemoteOfferSet` or `AnswerCreated` without the request that would cause it. The run-wide send lemmas `OfferSentOnlyAfterOpen` and `AnswerSentOnlyAfterOffer` take `Caused` as a hypothesis for that reason.
- `Send` stands for the call to `ws.send`. After the socket has closed, the library throws from that call instead of sending, and the model does not track whether the socket is open.
- A `sdpMid` that contains a pipe shifts the ICE fields, so the receiver reads the index from part of the mid. The candidate lemmas require a mid without a pipe for that reason.

# WebRTC screen-share signaling, modelled in Dafny

The repository is a browser app for sharing a screen over WebRTC (`app.js`)
and a small WebSocket relay that carries its signaling messages
(`signaling-server.js`). This project models the control-plane logic of
both and proves properties of the model:

- **The relay's room registry.** Rooms map to sets of connections. Each
  connection has a `room` property. The relay handles three events: a join,
  a message and a close. There are two layers:
  - `RoomRegistry` gives pure functions of the registry and lemmas over
    single events and whole event sequences.
  - `SignalingServer.Relay` is the imperative relay. Its `rooms` and `room`
    fields are updated in place, and its fan-out is the `for…of` loop. Each
    method is proved against the `RoomRegistry` functions.
- **The negotiation logic of the page.**
  - `JsStrings` holds the JavaScript string primitives the page relies on:
    `trim`, `split`/`join` on commas, substring search, `startsWith` after
    `toLowerCase`, and `parseInt`.
  - `IceConfig` holds `parseCsv`, `buildIceServersFromForm`,
    `onlyStunServers` and the fallback-delay rule.
  - `Signals` holds the message shapes and `toPlainDesc`/`toPlainCandidate`.
    It also holds the relay-candidate test, the payload `signalSend` builds,
    the two user-facing guards, and the decision `handleSignal` takes.
  - `Negotiator.App` holds the page's module-level state and one method per
    handler that changes it:
    - the state: `currentIceServers`, the sender and viewer peer
      connections, the two pending-candidate queues, `directPhase`,
      `fellBackToTurn`, `fallbackTimer` and the outstanding timers;
    - everything handed to the transport goes to an outbox.

A peer connection is the record `Signals.PeerConnection`. It holds:
- the signaling state;
- the local and remote descriptions;
- the connection state;
- the ICE configuration;
- the candidates accepted by `addIceCandidate`, in order;
- the `iceRestart` flag of every offer created, in order.

The browser's choices are parameters:
- the SDP text of each offer or answer;
- the set of candidates `addIceCandidate` refuses;
- the new connection state.

Timer expiry is the explicit event `App.TimerFires`. Every handler runs to
completion before the next event starts.

Where the page's code and its prose description differ, the model follows
the code:
- A fallback delay outside 3..60 seconds becomes 8. It is not clamped to the
  nearest limit.
- Resetting a peer connection does not cancel the fallback timer. It does
  not empty the pending queue either.
- `handleSignal` does not look at the viewer's state before applying an
  incoming offer. The viewer is `stable` between events, so the browser
  applies a description of type `offer` and rejects any other type; the
  error is caught and nothing changes.
- The timer callback's `'completed'` test can never succeed, because
  `completed` is not a value of `RTCPeerConnectionState`. The model has no
  such state.

## Model

| member | source | states |
|---|---|---|
| RoomRegistry.Join | signaling-server.js:7-11 | `ws` is added to the room's set, which is created if it is absent; the other rooms keep their sets; `ws.room` is overwritten |
| RoomRegistry.OpenPeers | signaling-server.js:19-20 | the fan-out targets are exactly the open members of the room other than the sender |
| RoomRegistry.Recipients | signaling-server.js:18-20 | nobody before a join; after a join, the open peers of the connection's current room; never the sender |
| RoomRegistry.Close | signaling-server.js:23-25 | `ws` leaves only the set of its current room; every other set and `ws.room` are unchanged |
| RoomRegistry.Receive | signaling-server.js:14-22 | definition of the `message` handler: the new registry and the recipients; its properties are the lemmas below |
| RoomRegistry.Step | signaling-server.js:13-25 | definition of one event: a connection, a message or a close |
| RoomRegistry.Run | signaling-server.js:13-25 | definition of the registry after a sequence of events |
| RoomRegistry.NoSelfEcho | signaling-server.js:20 | a message is never sent back to its sender |
| RoomRegistry.RoomIsolation | signaling-server.js:19-20 | every recipient is an open member, other than the sender, of the sender's current room |
| RoomRegistry.DropBeforeJoin | signaling-server.js:18 | a non-join message from a connection without a room reaches nobody and leaves the registry unchanged |
| RoomRegistry.IsJoin | signaling-server.js:17 | definition of `msg.type === 'join' && msg.room`; its meaning is given by `JoinConsumed` and `RoomlessJoinForwarded` |
| RoomRegistry.JoinConsumed | signaling-server.js:17 | a join with a truthy room reaches nobody; it puts the sender in that room's set, creating the set if needed, and sets its room |
| RoomRegistry.JoinIdempotent | signaling-server.js:7-11 | repeating the same join changes nothing |
| RoomRegistry.RejoinKeepsOldMembership | signaling-server.js:7-20 | after joining A and then B, the connection is still in A's set and still receives A's traffic; its own messages go to B |
| RoomRegistry.CloseAfterRejoinKeepsOld | signaling-server.js:23-25 | closing after a re-join removes the connection from B's set only; A's set still lists it |
| RoomRegistry.UnparsableDropped | signaling-server.js:15-21 | an unparsable frame reaches nobody and changes nothing |
| RoomRegistry.RoomlessJoinForwarded | signaling-server.js:17-20 | a `join` with no room, or an empty one, from a joined connection is forwarded like any other message |
| RoomRegistry.StepKeepsInv | signaling-server.js:13-25 | every event keeps the invariant: each member of a set has a room, and every `ws.room` is a truthy key of `rooms` |
| RoomRegistry.RunKeepsInv | signaling-server.js:13-25 | the invariant holds after any sequence of events from an empty relay |
| RoomRegistry.MembersHaveJoined | signaling-server.js:7-11 | anyone in a room's set, or with that room as `ws.room`, sent a join for that room at some point |
| RoomRegistry.RunIsolation | signaling-server.js:19-20 | over a whole run, a message reaches only connections that joined the sender's current room |
| RoomRegistry.NeverJoinedIsSilent | signaling-server.js:17-20 | a connection that never joined is in no set, what it sends reaches nobody, and it receives nothing |
| SignalingServer.Relay.constructor | signaling-server.js:5 | the relay starts with no rooms and no connections |
| SignalingServer.Relay.Connect | signaling-server.js:13 | a new connection is open and nothing else changes |
| SignalingServer.Relay.Join | signaling-server.js:7-11 | the in-place updates of `rooms` and `ws.room` give exactly `RoomRegistry.Join` |
| SignalingServer.Relay.FanOut | signaling-server.js:19-20 | the loop sends to each open peer other than the sender exactly once, and to no one else |
| SignalingServer.Relay.OnMessage | signaling-server.js:14-22 | the new state and the recipients are those of `RoomRegistry.Receive`, each recipient once |
| SignalingServer.Relay.OnClose | signaling-server.js:23-25 | the new state is that of `RoomRegistry.Close` |
| JsStrings.Trim | app.js:22 | definition of `s.trim()`: leading, then trailing ECMAScript whitespace removed; its properties are the four lemmas below |
| JsStrings.TrimStartSuffix | app.js:22 | trimming the start keeps a suffix that begins with a non-blank; everything dropped is whitespace |
| JsStrings.TrimEndPrefix | app.js:22 | trimming the end keeps a prefix that ends with a non-blank; everything dropped is whitespace |
| JsStrings.TrimIsTrimmed | app.js:22 | `trim` leaves no whitespace at either end and never lengthens a string |
| JsStrings.TrimIsSlice | app.js:22 | `trim` returns a contiguous slice of its input |
| JsStrings.TrimOfTrimmed | app.js:22 | `trim` leaves a trimmed string unchanged |
| JsStrings.Split | app.js:22 | `split(',')` gives at least one piece, and no piece holds a comma |
| JsStrings.JoinSplit | app.js:22 | joining the pieces of `split(',')` with commas gives back the input |
| JsStrings.SplitComma | app.js:22 | a comma separates the pieces of the text before it from those of the text after it |
| JsStrings.SplitJoin | app.js:22 | splitting a comma-join of comma-free pieces gives back the pieces |
| JsStrings.Contains | app.js:133 | definition of a literal regular expression's `test`; `ContainsAt` states what it means |
| JsStrings.ContainsAt | app.js:133 | a literal `test` matches exactly when the pattern occurs at some index |
| JsStrings.LowerStartsWith | app.js:219 | definition of `s.toLowerCase().startsWith(p)`, character by character; `LowerStartsWithIsStartsWith` states what it means |
| JsStrings.LowerStartsWithIsStartsWith | app.js:219 | the per-character test is `toLowerCase().startsWith(p)` |
| JsStrings.ParseInt | app.js:231 | definition of `parseInt(s, 10)`: leading whitespace skipped, one optional sign, the longest run of digits, `NaN` without digits; its properties are the two lemmas below |
| JsStrings.ParseIntDefined | app.js:231 | `parseInt` is a number exactly when, after leading blanks and an optional sign, a digit follows |
| JsStrings.ParseIntOfDecimal | app.js:231 | `parseInt` reads back the decimal text of any natural number |
| IceConfig.TrimAll | app.js:22 | `map(s => s.trim())`: one trimmed piece per piece, in order |
| IceConfig.DropEmpty | app.js:22 | `filter(Boolean)`: only non-empty pieces remain, each taken from the input |
| IceConfig.DropEmptyConcat | app.js:22 | `filter(Boolean)` distributes over concatenation, so the kept pieces stay in order |
| IceConfig.DropEmptyMembers | app.js:22 | a piece is kept exactly when it is in the input and is not empty |
| IceConfig.DropEmptyAll | app.js:22 | a list with no empty strings passes the filter unchanged |
| IceConfig.TrimAllConcat | app.js:22 | trimming every piece distributes over concatenation |
| IceConfig.ParseCsv | app.js:22 | definition of `parseCsv`: `split(',')`, then `trim` each piece, then drop the empty ones; characterised by `ParseCsvPiece` and `ParseCsvComma` |
| IceConfig.ParseCsvPiece | app.js:22 | a field without a comma gives its trimmed text as the only element, or nothing when that is empty |
| IceConfig.ParseCsvComma | app.js:22 | `parseCsv(a + "," + b)` is `parseCsv(a)` followed by `parseCsv(b)`; with `ParseCsvPiece` this fixes the result on every input: the pieces, trimmed, in order, empty ones removed |
| IceConfig.ParseCsvClean | app.js:22 | no element of `parseCsv`'s result is empty, has whitespace at an end, or holds a comma |
| IceConfig.ParseCsvOfJoin | app.js:22 | `parseCsv` inverts a comma-join: a list of such elements comes back exactly, in order |
| IceConfig.ParseCsvIdempotent | app.js:22 | re-joining what `parseCsv` yields and parsing again gives the same list |
| IceConfig.StunEntries | app.js:25 | one `{urls: u}` entry per STUN URL, in order |
| IceConfig.FormServers | app.js:24-38 | definition of what `buildIceServersFromForm` gives: a throw, with the source's message, exactly when TURN URLs lack a trimmed username or a credential or when there are no URLs at all; otherwise the STUN entries in order, then one TURN entry holding all TURN URLs and the credentials |
| IceConfig.FormServersUnique | app.js:24-38 | `FormServers` fixes the outcome: the form fields decide whether it throws, the message, and every entry |
| IceConfig.BuildIceServersFromForm | app.js:24-38 | the result is the one `FormServers` fixes for the four fields: the right error in the two throwing cases, otherwise the STUN entries then the TURN entry |
| IceConfig.AsArray | app.js:217 | definition of `asArray(urls)`: one URL becomes a one-element array, an array is kept |
| IceConfig.Normalize | app.js:218 | definition of one step of the `map`: the URLs as an array, the username and credential copied |
| IceConfig.NormalizeKeepsEntry | app.js:218-219 | normalising keeps the entry's URLs, in order, and its credentials; normalising twice is normalising once; it does not change whether the entry is STUN-only |
| IceConfig.IsTurnUrl | app.js:219 | definition of the URL test: `u.trim().toLowerCase()` starts with `turn:` or `turns:` |
| IceConfig.IsStunOnly | app.js:219 | definition of the filter's test: no URL of the entry is a TURN URL |
| IceConfig.NoTurnUrl | app.js:219 | definition of `asArray(s.urls).every(u => !isTurn(u))`; `NoTurnUrlAt` states what it means |
| IceConfig.NoTurnUrlAt | app.js:219 | `every` holds exactly when no URL, trimmed and lower-cased, starts with `turn:` or `turns:` |
| IceConfig.NormalizeAll | app.js:218 | one normalised entry per input entry, in order |
| IceConfig.KeepStunOnly | app.js:219 | only entries from the input survive |
| IceConfig.KeepStunOnlyMembers | app.js:219 | an entry survives the filter exactly when it is present and has no TURN URL |
| IceConfig.KeepStunOnlyAll | app.js:219 | entries without TURN URLs pass the filter unchanged |
| IceConfig.OnlyStunServers | app.js:215-221 | the result is never longer than the input |
| IceConfig.OnlyStunServersAreStun | app.js:215-221 | every survivor has its URLs as an array, and none of them is a TURN URL |
| IceConfig.OnlyStunSingle | app.js:215-221 | one entry is kept, normalised, exactly when it has no TURN URL; an entry that mixes STUN and TURN URLs is dropped whole |
| IceConfig.OnlyStunConcat | app.js:215-221 | the restriction distributes over concatenation, so it yields a subsequence in input order |
| IceConfig.OnlyStunMembers | app.js:215-221 | the survivors are exactly the normalised input entries without a TURN URL |
| IceConfig.OnlyStunIdempotent | app.js:215-221 | restricting twice is the same as restricting once |
| IceConfig.FallbackSeconds | app.js:231 | the delay is always between 3 and 60 seconds |
| IceConfig.FallbackInRange | app.js:231 | a number from 3 to 60 is taken as typed |
| IceConfig.FallbackOutOfRange | app.js:231 | any other natural number becomes 8; it is not clamped |
| IceConfig.FallbackNegativeAll | app.js:231 | every negative number becomes 8 |
| IceConfig.FallbackBelowRange | app.js:231 | `"1"` gives 8, not 3 |
| IceConfig.FallbackAboveRange | app.js:231 | `"120"` gives 8, not 60 |
| IceConfig.FallbackNoDigits | app.js:231 | an empty field and `"abc"` are `NaN` and give 8 |
| IceConfig.FallbackNegative | app.js:231 | `"-5"` gives 8 |
| IceConfig.FallbackLenient | app.js:231 | `" 15s"` gives 15: `parseInt` skips leading blanks and stops at the first non-digit |
| Signals.StateName | app.js:289 | the state names `have-local-offer` and `stable` identify exactly those states |
| Signals.NewPeerConnection | app.js:270-283 | definition of `pcFactory`: a `stable`, `new` connection without descriptions that holds the given servers; what it gives is stated by the `App` constructor and reset contracts |
| Signals.StableAcceptsRemote | app.js:496 | definition of the browser's rule for `setRemoteDescription` in `stable`: only an offer is applied |
| Signals.ToPlainDesc | app.js:116-121 | no description stays none; one whose `type` and `sdp` are strings is cut down to those two; any other is returned as it is |
| Signals.ToPlainCandidate | app.js:122-126 | only the four `RTCIceCandidateInit` properties are kept |
| Signals.ToPlainIdempotent | app.js:116-126 | making a plain copy of a plain copy changes nothing |
| Signals.CandidateString | app.js:132 | definition: the candidate line, or `''` when there is none |
| Signals.IsRelay | app.js:133 | definition of `/ typ relay /.test(candStr)` on that line; `IsRelayAt` states what it means |
| Signals.IsRelayAt | app.js:133 | a candidate counts as relay exactly when ` typ relay ` occurs in its line |
| Signals.NoLineNotRelay | app.js:132-133 | a candidate without a line is never relay |
| Signals.RelayLineIsRelay | app.js:133 | a TURN-allocated candidate line counts as relay |
| Signals.Outgoing | app.js:127-136 | no payload exactly for a relay candidate during the direct-first phase; otherwise the current room is stamped, the kind and sender role are kept, and `sdp` and `candidate` become plain copies |
| Signals.OutgoingOverridesRoom | app.js:129 | the stamped room replaces any room the message already names |
| Signals.CanApplyRemoteAnswer | app.js:287-291 | accepted exactly for an `answer` in `have-local-offer`; the type check is reported first; the source's two reasons |
| Signals.CanApplyRemoteAnswerExamples | app.js:551-552 | an answer is accepted in `have-local-offer` and refused in `stable` |
| Signals.IceRestartGate | app.js:394 | an ICE restart goes ahead exactly in `stable`; otherwise the source's message with the current state |
| Signals.OtherRoom | app.js:492 | definition of `msg.room && msg.room !== curRoom`: a message naming a different, non-empty room |
| Signals.Constructible | app.js:521 | definition: `new RTCIceCandidate(init)` throws unless the init has `sdpMid` or `sdpMLineIndex` |
| Signals.Dispatch | app.js:489-532 | messages for another room are ignored: an offer goes to the viewer; an answer goes to the sender only in `have-local-offer` and is otherwise ignored; a candidate that is not relay during the direct-first phase and can be constructed goes to the viewer when it comes from `sender` and to the sender when it comes from `viewer`; anything else is ignored |
| Signals.CandidateRouted | app.js:517-528 | every candidate that passes the filters and names a role is routed |
| Signals.WsAccepts | app.js:183 | definition of the WebSocket listener's test: a parsed message whose `room` is the trimmed room field |
| Signals.BcAccepts | app.js:111 | definition of the BroadcastChannel listener's test: any message that is there |
| Signals.WsStricterThanHandleSignal | app.js:183 | the WebSocket path passes only messages for the current room; a message without a room passes `handleSignal`'s check but not the WebSocket path |
| Signals.StampedMessageAccepted | app.js:127-136 | what one page sends is accepted by the WebSocket path of a page whose room field trims to the same room |
| Signals.SenderCandidateReachesViewer | app.js:339-346 | a sender candidate that neither side's relay filter drops is routed to the viewer's side as its plain copy |
| Signals.AddIceCandidate | app.js:306 | one `addIceCandidate` records what `Accepted` keeps of the one-candidate queue: the candidate unless it is refused; nothing else changes |
| Signals.Accepted | app.js:304-307 | only candidates from the queue that are not refused remain |
| Signals.AcceptedConcat | app.js:304-307 | acceptance distributes over concatenation, so queue order is kept |
| Signals.AcceptedAll | app.js:304-307 | when nothing is refused, the whole queue is applied, in order |
| Negotiator.Drain | app.js:304-307 | the `while`/`shift` loop empties the queue; the connection records the accepted candidates in FIFO order; refused ones are skipped |
| Negotiator.LocalDesc | app.js:372 | the local description holds the given type and SDP, and is already plain |
| Negotiator.ClearedTimerLeavesNone | app.js:232 | clearing the one outstanding timer leaves none |
| Negotiator.App.constructor | app.js:299-317 | the page starts with the default servers, fresh peer connections built from them, empty queues and no timer |
| Negotiator.App.SetRoomField | app.js:491 | only the room field changes |
| Negotiator.App.SetSenderConnectionState | app.js:337 | only the sender's connection state changes |
| Negotiator.App.SignalSend | app.js:127-141 | the outbox grows by the payload stamped with the trimmed room field, or stays the same for a relay candidate during the direct-first phase |
| Negotiator.App.OnLocalCandidate | app.js:339-346 | a local candidate is signalled with its role; the end of gathering is signalled as `end-of-candidates` |
| Negotiator.App.CreateOfferAndSend | app.js:369-379 | the sender has a new local offer, is `have-local-offer`, and logs the `iceRestart` flag; exactly one offer goes to the outbox |
| Negotiator.App.ConfigureAndOffer | app.js:229-230 | the sender takes the given servers and then offers |
| Negotiator.App.ArmFallbackTimer | app.js:232-242 | any outstanding timer is cleared; a single new timer with a fresh id is the only one left |
| Negotiator.App.StartDirectFirstNegotiation | app.js:226-243 | the direct-first phase is on and the fallback flag is off; the sender uses only the STUN servers and sends one offer; exactly one timer is outstanding, for the normalised delay |
| Negotiator.App.TimerFires | app.js:233-242 | the phase ends and no timer is left; when the sender is connected nothing else changes; otherwise the fallback flag is set, the full configuration is restored, and exactly one ICE-restart offer is sent |
| Negotiator.App.CreateOfferClick | app.js:381-390 | exactly one offer goes to the outbox; when ticked, the whole new state of `startDirectFirstNegotiation` (phase on, not fallen back, STUN-only configuration, one timer for the normalised delay); otherwise the sender's new local offer and `have-local-offer`, with the phase flags and any timer as they were |
| Negotiator.App.IceRestartClick | app.js:392-397 | outside `stable` nothing changes and the reason is returned; in `stable` the sender has a new local offer, is `have-local-offer`, logs an ICE restart, and exactly that offer goes to the outbox |
| Negotiator.App.FlushPendingToSender | app.js:302-308 | nothing happens without a remote description; otherwise the queue is applied in FIFO order, refused candidates are skipped, and the queue ends empty |
| Negotiator.App.FlushPendingToViewer | app.js:309-315 | the same for the viewer |
| Negotiator.App.ApplyAnswer | app.js:405-406 | the sender sets the answer as its remote description, returns to `stable`, and flushes its queue |
| Negotiator.App.AcceptOffer | app.js:494-504 | a description that is not an offer is rejected and nothing changes; an offer is applied without looking at the viewer's state, the queue is flushed, the viewer answers and signals exactly one answer |
| Negotiator.App.SetAnswerClick | app.js:399-410 | invalid JSON is an error; an answer the guard refuses changes nothing and reports the reason; otherwise the answer is applied and the queue flushed |
| Negotiator.App.ApplyIceClick | app.js:40-49 | the result is the one `FormServers` fixes for the form; on success those servers become the page's and both connections' configuration; on failure nothing changes |
| Negotiator.App.SenderReset | app.js:412-426 | a fresh sender from the current servers; the queue, the phase flags and any timer are kept |
| Negotiator.App.ViewerReset | app.js:474-480 | a fresh viewer from the current servers; its queue is kept |
| Negotiator.App.Deliver | app.js:521-528 | with a remote description the candidate goes to `addIceCandidate` at once; without one it is appended to that side's queue; the other side is untouched |
| Negotiator.App.Handled | app.js:489-532 | definition of `handleSignal`'s effect from the state before to the state after: the action `Dispatch` chooses, carried out on its own side and the outbox, everything else unchanged; `HandleSignal` ensures it |
| Negotiator.App.HandleSignal | app.js:489-532 | the new state is the one `Handled` describes: an ignored message or a rejected offer changes nothing; an offer or answer changes only its own side and the outbox as stated; a candidate is applied or queued |
| Negotiator.App.OnWsMessage | app.js:182-185 | a message for the current room has the effect of `handleSignal`; one that is absent or names a different room changes nothing |
| Negotiator.App.OnBcMessage | app.js:111 | an absent message changes nothing; any other has the effect of `handleSignal` |

The `App` methods keep `App.Valid` on every call. `App.Valid` says:
- at most one fallback timer is outstanding, and it is the one
  `fallbackTimer` names;
- the direct-first phase is on exactly while that timer is outstanding;
- after a fallback the phase is off;
- a queue is empty once its side has a remote description;
- the sender is `stable` or `have-local-offer`;
- the viewer is `stable` between events.

The last two clauses hold because an offer reaches only the viewer, which
applies nothing but an offer, and an answer reaches only the sender in
`have-local-offer`. For the sender this relies on the answer's own type, as
the line on `Negotiator.App.ApplyAnswer` under "Left out" says.

A candidate queued before the direct-first phase starts is still applied
when that queue is flushed during the phase, relay or not. The relay
filter acts only on candidates sent or received while the phase is on.

## Left out

- The WebSocket and BroadcastChannel transports and the choice between them
  (app.js:137-141). Sending is appending to the outbox. The model also
  records a payload when neither channel is open, although the page then
  sends nothing.
- The DOM: status texts, button enabling, copying to the clipboard, the
  offer and answer text areas. These are user interface only.
- `RTCPeerConnection` internals are parameters or are assumed:
  - The SDP text of offers and answers is a parameter.
  - Whether `addIceCandidate` fails is a parameter: a set of refused
    candidates.
  - `setRemoteDescription` succeeds on a description of the right type
    (for the viewer, the model rejects any other type and nothing changes),
    and `createOffer` and `createAnswer` always succeed. The `catch`
    branches around them are otherwise not modelled.
  - `setConfiguration` is assumed never to throw.
- `await` points: every handler runs to completion before the next event.
  Interleavings of handlers at an `await` are not modelled.
- The `toJSON` branches of `toPlainDesc` and `toPlainCandidate`. They act
  on opaque browser objects.
- Non-string JSON values of `type`, `sdp`, `room` and `from`. The datatypes
  hold only strings, so `typeof u === 'string'` in `onlyStunServers` always
  holds, and its `try`/`catch` fallback cannot occur.
- `toLowerCase` folds ASCII letters only. That is enough for the `turn:` and
  `turns:` prefixes it is compared with.
- The handler of the "Accept offer" button (app.js:453-468). It is not part
  of the core here; the offer path of `handleSignal` models the same steps.
- The timer callback reads whichever sender peer connection is current when
  it fires. The model does so too, but no property is proved about a reset
  between arming and firing.
- `runTests` itself and the environment checks. The two
  `canApplyRemoteAnswer` checks of app.js:551-552 are
  `Signals.CanApplyRemoteAnswerExamples`.
- The form check of app.js:553 (two STUN URLs and one TURN URL give two or
  more entries) has no lemma of its own. It follows from the length clause
  of `IceConfig.BuildIceServersFromForm`, which gives 2 + 1 entries.
- Negotiator.App.ApplyAnswer: an answer message reaching a sender in
  `have-local-offer` is applied as an answer, and the sender returns to
  `stable`, whatever the description's own `type` says. A browser treats
  other types differently there: type `offer` makes it roll back its own
  offer and enter `have-remote-offer`, and type `pranswer` makes it enter
  `have-remote-pranswer`. The same holds for the
  `AcceptAnswer` case of `HandleSignal`. The sender clause of
  `App.PeersValid` holds only under this reading. The "Set answer" button
  is not affected: its guard admits only type `answer`.
- The relay's `readyState` is two-valued in the model: a connection is open
  from its connection event until its close event. A socket that is closing
  (`readyState` 2) but has not yet fired `close` is counted as open, though
  the fan-out at signaling-server.js:20 skips it.
- A connection id is never reused: `RoomRegistry.Step` on a second
  connection event for an id keeps that id's old room and memberships,
  which a fresh `ws` object would not have.
- IceConfig.OnlyStunServers: its own contract states only the length
  bound. The STUN-only and subsequence properties are the lemmas
  `OnlyStunServersAreStun`, `OnlyStunMembers` and `OnlyStunConcat`.
- IceConfig.FallbackSeconds: its own contract states only the 3..60 range.
  Keeping a value in range and mapping the rest to 8 are the lemmas
  `FallbackInRange`, `FallbackOutOfRange` and `FallbackNegativeAll`, proved
  for decimal inputs with or without a minus sign, together with the
  examples.

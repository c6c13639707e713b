# Tether: the protocol, registry, limiters and media paths, verified

Tether shares OBS sources over WebRTC. A sender pairs with receivers through a small signaling server by
a short token. This project models the hand-written logic of the plugin (`src/`) and of the server
(`backend/src/`) in Dafny and proves what that logic promises. `dafny verify dfyconfig.toml` checks it.

| files | what they model |
|---|---|
| `Scanner`, `FlatObject`, `Signaling`, `SdpCodec` | the JSON scanner of the signaling client, the escaper, the decoders, and their round trips (RFC 8259 section 7 for the escapes) |
| `Token` | token generation, checking, normalisation and the edge's routing |
| `ReceiveSession` | the receiver's state machine and its list of stream ids |
| `Registry`, `RegistryRuns`, `RegistryTokens`, `SessionTable`, `TokenSource` | the refcounted table of receive sessions, its steps under every interleaving, when it has one session per token, its critical sections as methods, and its main client |
| `Admission`, `AdmissionRuns`, `AdmissionPeers` | the sender's admission list and sliding-window limiter |
| `RoomLimiter`, `Room`, `RoomRuns`, `RoomSafety`, `RoomEffects`, `RoomExpiry`, `RoomSockets` | the server's limiter, the room protocol, what each event does, how long it admits receivers, and its sockets |
| `FrameHandoff`, `FrameBuffers` | the latest-frame hand-off from the graphics thread to the encoder worker |
| `Audio`, `AudioTrack`, `AudioRuns` | interleaving, the 20 ms re-chunker, and the receiver's inverse |
| `RoomTexts`, `EndToEnd`, `EarlyOffer` | the texts between room and plugin, and an offer's way through room, socket, scanner, decoder and state machine |
| `Common` | shared vocabulary |

Code that changes state in place is a class whose methods are proved to make the step of a specification
function; the lemmas then speak of all runs of those steps. Clocks, random bytes, fresh ids, the order of
threads and the answers of foreign libraries are arguments or events.

What the environment is taken to be: addresses and peer ids are not handed out twice; clocks do not go
back, and the plugin's clock has passed the window's length and is a lockout away from wrapping around;
sockets deliver in order; each room handler is one step with one clock reading, as the clock of its
platform stands still while a handler runs.

Where the code and its comments differ, the model follows the code:

- `src/sender.c:817-818` says that disconnecting a peer clears its pin; `src/admission.c:187-190` never
  clears one (`AdmissionPeers.PinsArePermanent`).
- `src/receive-session.c:74` says one session per token; it is one per spelling of a token
  (`RegistryTokens.TwoSpellingsTwoSessions`), and one per token exactly under the condition of
  `RegistryTokens.OneSessionPerTokenExactly`.
- The cap on receivers is checked on arrival only, so an explicit accept can exceed it
  (`AdmissionPeers.AcceptExceedsCapExactly`).
- Pasted text longer than a token is cut, not rejected (`Token.TailIsCutOff`).
- Answers are not unescaped (`SdpCodec.AnswerRoundTripExactly`).
- A receiver's messages to the sender need no accept (`backend/src/room.ts:278-282`); accept before relay is
  claimed for what receivers are sent.
- `backend/src/room.ts:288` says receivers must be accepted before any SDP or ICE goes through them. What is
  asked for is the accept of a receiver a sender speaks to, and of a receiver that speaks; one that does not
  speak is reached by an accepted one without its own accept (`RoomSafety.UnacceptedIsReachedExactly`), and may
  apply an offer before it (`EarlyOffer.OfferBeforeAccept`).
- The scanner of `src/signaling.c:83-123` reads flat objects only; the room relays any object. What such a text
  reads as is stated for flat ones (`RoomTexts.FlatRelayIsRead`), and a nested one can read as an accept
  (`RoomTexts.NestedObjectReadsAsAccept`).
- A room's lifetime is bounded by the maximum exactly if the sender hello that begins it has a lifetime that is
  a number and does not put the expiry at time 0 (`RoomExpiry.JoinsInTimeExactly`).

## Model

| member | source | states |
|---|---|---|
| `Scanner.JsonFindStr` | src/signaling.c:83-123 | the cursor loop finds exactly the first position where the key stands between quotes and is followed by a string, although it only visits what `strstr` reports; it terminates because the cursor advances and never reads past the terminator |
| `Scanner.Examine` | src/signaling.c:88-107 | the tests of one occurrence accept it if and only if it is a quoted key followed by an opening quote |
| `Scanner.ScanString` | src/signaling.c:108-120 | the inner loop ends at the first unescaped quote or at the terminator |
| `Scanner.JsonEqStr` | src/signaling.c:125-130 | true exactly if the found value is that text |
| `Scanner.JsonDupStr` | src/signaling.c:132-143 | a copy of the found value, nothing if there is none |
| `FlatObject.ScannerFindsField` | src/signaling.c:83-143 | on every printed flat object (well-escaped strings, bare values) the scanner returns exactly the escaped text of the string-valued field and nothing for an absent or non-string one, whatever the values contain |
| `FlatObject.PatternFindsField` | src/receive-session.c:252-257 | the cruder `"key":"` search of the session modules lands on the same value as the scanner |
| `Signaling.Client.HandleMessage` | src/signaling.c:162-217 | on any text: the event of the first matching type, the token replaced exactly by a token message |
| `Signaling.DispatchReadsFields` | src/signaling.c:162-217 | on every printed object the event is the one its fields name |
| `Signaling.SendSdp` | src/signaling.c:421-459 | the text sent is the printed object whose `sdp` field is the escaped description |
| `Signaling.IceText` | src/signaling.c:461-477 | the format string of `send_ice` prints the object of its five fields |
| `Signaling.EscapedIsWellEscaped` | src/signaling.c:429-450 | escaping leaves no bare quote and no lone backslash, for every text |
| `SdpCodec.DecodeOffer` | src/receive-session.c:252-294 | the scan and unescape loops compute the unescaped text between the pattern and the first unescaped quote, on any text |
| `SdpCodec.UnescapeSpan` | src/receive-session.c:269-293 | the unescape loop stays within its buffer |
| `SdpCodec.UnescapeInvertsEscape` | src/receive-session.c:269-293 | unescaping inverts the sender's escaping for every text |
| `SdpCodec.SdpIsCut` | src/receive-session.c:252-268 | in every text that was sent the search lands on the real `sdp` key and the scan stops exactly at its closing quote |
| `SdpCodec.OfferRoundTrip` | src/signaling.c:203-209 | every offer sent arrives as an offer event from that peer and decodes to the description that was sent; no character is excluded |
| `SdpCodec.AnswerRoundTripExactly` | src/sender.c:420-427 | the sender does not unescape answers: the decoded answer is the description sent if and only if it has no backslash, quote, line feed, carriage return or tab |
| `SdpCodec.IceRoundTrip` | src/receive-session.c:299-322 | every candidate of plain text arrives with its mid |
| `SdpCodec.ServerKeepsText` | backend/src/room.ts:126-132 | the server reads from the escaped description that very description, and prints the same text again, if and only if it has no control character besides tab, line feed and carriage return; any other it cannot read |
| `SdpCodec.StringifyParses` | backend/src/room.ts:294-298 | whatever the server prints of a string reads back as that string |
| `SdpCodec.RelayedOfferRoundTrip` | backend/src/room.ts:294-298 | a relayed offer decodes to the description it was relayed with if and only if that has no control character besides those three |
| `SdpCodec.PendingArrives` | src/sender.c:378-407 | every notice of a new receiver arrives as one; the sender takes of name and fingerprint what stands before the first quote, cut to 127 characters |
| `SdpCodec.TextArrivesExactly` | src/sender.c:383-406 | a name or fingerprint arrives unchanged if and only if it has at most 127 characters and none needs an escape, or exactly 127 and only backslashes at its end need one |
| `Registry.NextKeeps` | src/receive-session.c:469-603 | every step any thread may take keeps the registry's invariant: counts, subscription lists, table and memory agree |
| `RegistryRuns.ReachableIsSafe` | src/receive-session.c:469-603 | over every interleaving, defined without the invariant, the invariant holds and every step a thread may take next touches allocated memory only |
| `RegistryRuns.StepsCompose` | src/receive-session.c:469-603 | whoever holds a reference can take its next step in every reachable state |
| `RegistryRuns.RefcountConserved` | src/receive-session.c:495-583 | a live session's count is its handles, its listed subscriptions, the unsubscribes that have not released yet and the snapshot entries, whatever is half done |
| `RegistryRuns.SubscriptionsListed` | src/receive-session.c:551-558 | the listed subscriptions are the counted ones and those of half-done subscribe calls |
| `RegistryRuns.NothingLeaks` | src/receive-session.c:495-515 | when nobody holds anything the table is empty, and once the unlinked sessions are destroyed no session is left |
| `RegistryRuns.EnumerationHoldsEach` | src/receive-session.c:590-597 | an enumeration gives every entry of the table, and no other session, one more reference of its own, which is counted; nothing else changes |
| `RegistryRuns.OthersKeepReference` | src/receive-session.c:469-603 | a reference, its session and that session's token survive every step taken through other references |
| `RegistryRuns.DestroyedOnce` | src/receive-session.c:390-407 | a destroyed session is never destroyed again in any run |
| `RegistryRuns.DestroyFreesUnlistedSession` | src/receive-session.c:495-515 | at its destruction a session is out of the table, has no subscription left and no reference to it exists |
| `RegistryTokens.GetKeepsExactly` | src/receive-session.c:479-490 | a `get` keeps one session per token if and only if its text is in the table, or no session can be made for it, or no live session serves its token |
| `RegistryTokens.OneSessionPerTokenExactly` | src/receive-session.c:74-76 | a run has one session per token throughout if and only if every `get` in it that makes a session is for a token without one |
| `RegistryTokens.NormalisedTextsAreEnough` | src/receive-session.c:338-345 | if every text passed is its own normalisation, no reachable state has two sessions for one token |
| `RegistryTokens.TwoSpellingsTwoSessions` | src/receive-session.c:479-488 | any two spellings of a token, taken one after the other, get two sessions |
| `SessionTable.FindSession` | src/receive-session.c:479-486 | the search loop finds the first session of that text |
| `SessionTable.EraseFirst` | src/receive-session.c:503-508 | the search-and-erase loops remove exactly the first such entry |
| `SessionTable.Table.Get` | src/receive-session.c:469-493 | one critical section is the step; a handle is returned exactly if something changed, on a session of that text |
| `SessionTable.Table.ReleaseRef` | src/receive-session.c:495-515 | drops exactly that reference; the caller has to destroy exactly if the session was unlinked |
| `SessionTable.Table.Destroy` | src/receive-session.c:390-407 | frees a session that has no subscription left |
| `SessionTable.Table.SubscribePush` | src/receive-session.c:551-553 | the first critical section of subscribe lists the new subscription and touches no other reference |
| `SessionTable.Table.SubscribeBump` | src/receive-session.c:556-558 | the second one counts it |
| `SessionTable.Table.UnsubscribeErase` | src/receive-session.c:573-580 | the first critical section of unsubscribe unlists the subscription |
| `SessionTable.Table.EnumerateSnapshot` | src/receive-session.c:590-597 | copies the table; every entry of the copy has a new reference of its own and its count is one higher, no other count or reference changes |
| `SessionTable.Table.Meanwhile` | src/receive-session.c:469-603 | whatever other threads do, one's own references survive and what was given up stays gone |
| `TokenSource.Source.Attach` | src/source.c:195-219 | with other threads at work between all its critical sections: the old subscription and the handle taken in passing are gone; what remains is one subscription to a live session of the new token, exactly if that session lives or can be made when it is asked for |
| `TokenSource.Source.Update` | src/source.c:263-276 | re-attaches only for another text; the same text changes nothing |
| `TokenSource.Source.Destroy` | src/source.c:244-261 | the source leaves no reference behind |
| `TokenSource.StaysAttached` | src/source.c:195-219 | an attached source stays attached to its token's session through every step of other threads |
| `ReceiveSession.Session.SignalingEvent` | src/receive-session.c:209-326 | the machine's step for every signaling event |
| `ReceiveSession.Session.PeerStateChanged` | src/receive-session.c:177-195 | the machine's step for every peer-connection event |
| `ReceiveSession.OffersAreSeparated` | src/receive-session.c:236-251 | between any two applied offers the session entered FAILED or CLOSED and was then accepted afresh |
| `ReceiveSession.AppliedOffersBounded` | src/receive-session.c:213-251 | applied offers are at most one plus the accepts taken from FAILED or CLOSED |
| `ReceiveSession.NextState` | src/receive-session.c:177-251 | after any run, the state the next input leads to, for every state and input |
| `ReceiveSession.AppliesExactly` | src/receive-session.c:236-298 | in every run an input applies a description if and only if it is an offer that has one and finds the session ready, and then the one it decodes to |
| `ReceiveSession.RefusalLasts` | src/receive-session.c:228-235 | a refusal of the token ends a session in every state of every run, and nothing is applied after it until an accept arrives or the connection reports that it lives |
| `ReceiveSession.CandidatesExactly` | src/receive-session.c:299-322 | in every run exactly the candidates that decode are handed on, in order |
| `ReceiveSession.BusyStaysBusy` | src/receive-session.c:213-251 | a session that negotiates or is connected stays so and applies nothing, whatever accepts and offers arrive, until its connection reports a change or its token is refused |
| `ReceiveSession.FirstOfferFindsAccepted` | src/receive-session.c:213-251 | with no peer-connection event before it, the first applied offer finds the session accepted if and only if an accept came first |
| `ReceiveSession.Session.RememberMid` | src/receive-session.c:58-72 | a stream id is remembered once, with the kind it was first seen with |
| `ReceiveSession.RememberKeepsDistinct` | src/receive-session.c:58-72 | remembered ids stay distinct if and only if the new one fits its buffer, is known or its cut form is new |
| `ReceiveSession.RememberedExactly` | src/receive-session.c:58-72 | as long as ids fit their buffer, what is remembered is each id with the kind of its first sighting |
| `ReceiveSession.Session.CollectMids` | src/receive-session.c:409-428 | the two passes fill an array of exactly the ids of that kind, in order |
| `ReceiveSession.MidsPartition` | src/receive-session.c:409-456 | every remembered stream is offered as exactly one of video and audio |
| `ReceiveSession.MidsInOrder` | src/receive-session.c:409-428 | the ids of one kind are listed in the order they were first seen, and no others |
| `Token.IsWellFormed` | src/token.c:101-125 | accepts exactly the texts the edge's regular expression accepts |
| `Token.CharInAlphabet` | src/token.c:91-99 | the alphabet search accepts exactly the regular expression's class |
| `Token.AlphabetIsRegexClass` | backend/src/index.ts:18-19 | alphabet and class are the same set |
| `Token.Generate` | src/token.c:62-89 | writes the token its random bytes spell, or nothing |
| `Token.GenerateToken` | backend/src/room.ts:60-73 | the token the server's random bytes spell |
| `Token.SpelledIsWellFormed` | src/token.c:62-89 | whatever the bytes, both generators produce well-formed tokens |
| `Token.SpellsTheBytes` | src/token.c:75-88 | each random byte picks the character of its place, in both generators |
| `Token.Normalise` | src/token.c:127-152 | writes the kept, upper-cased and remapped characters that fit, and accepts exactly if they are well formed |
| `Token.AcceptedExactly` | src/token.c:127-152 | with a 20-byte buffer a text is accepted if and only if its first 19 kept characters are a token; with a larger one if all of them are |
| `Token.TakenForExactly` | src/token.c:127-152 | with a 20-byte buffer a pasted text is taken for a token if and only if some beginning of it is that token, in letters of either case, with spaces and quotes put in anywhere |
| `Token.UpperTable` | src/token.c:139 | letters go to upper case and nothing else changes |
| `Token.StrippedTable` | src/token.c:136 | exactly white space and quotes are dropped |
| `Token.CanonicalTable` | src/token.c:143-147 | only O, I and L are changed, to digits no token has |
| `Token.TailIsCutOff` | src/token.c:133 | over-long text is not rejected with a 20-byte buffer: a token with any tail is taken for the token |
| `Token.NormaliseIsIdempotent` | src/token.c:127-152 | normalising an accepted result changes nothing |
| `Token.NormaliseRecovers` | src/token.c:127-152 | a token survives any change of case and any inserted spaces and quotes |
| `Token.RoomNamesAreTokens` | backend/src/index.ts:45-60 | rooms are only reached under well-formed names, and every well-formed token leads to the room of that very name |
| `Token.RoutesExactly` | backend/src/index.ts:25-56 | the edge's answer to every request: a token leads to the room of its upper-case form if that is well formed and is refused otherwise |
| `Admission.List.constructor` | src/admission.c:88-106 | non-positive settings are replaced by their defaults |
| `AdmissionPeers.SettingsExactly` | src/admission.c:92-103 | a positive setting is kept, any other is 4 receivers, 10 attempts in 60 seconds, or a lockout of 300 |
| `Admission.List.PruneAttempts` | src/admission.c:54-71 | in place, keeps exactly the tail from the first attempt at or after the cutoff, which wraps around as unsigned 64-bit arithmetic does |
| `Admission.List.RateLimitBlocks` | src/admission.c:73-86 | the decision and the new ledger, with one clock reading for the lockout and another for the window |
| `Admission.List.AddPending` | src/admission.c:119-174 | the whole new state and the reported peer of one call, on every path |
| `Admission.List.SetPeerState` | src/admission.c:176-198 | changes the state of the first peer of that id; a pin is set or kept |
| `Admission.List.RevokeEveryone` | src/admission.c:215-225 | every peer is revoked and nothing else changes |
| `AdmissionRuns.RunAgrees` | src/admission.c:54-86 | over every run on a clock that never goes back: the list is the tail of all recorded attempts, what was dropped has left the window, it is sorted and never longer than the maximum |
| `AdmissionRuns.SlidingWindow` | src/admission.c:54-86 | in every run any closed interval of the window's length holds at most the allowed number of recorded attempts |
| `AdmissionRuns.PruneExactly` | src/admission.c:59-70 | prefix pruning is filtering by the cutoff if and only if the clock has passed the window's length or the list is empty |
| `AdmissionRuns.LockoutHolds` | src/admission.c:73-86 | nothing is recorded before a lockout has run out, in any run, and lockouts are never shortened |
| `AdmissionRuns.NothingDuringLockout` | src/admission.c:73-86 | after a lockout at n nothing is recorded before n plus its length, whatever calls are made |
| `AdmissionRuns.LockedOutCallsAreInert` | src/admission.c:76-78 | calls during a lockout change nothing |
| `AdmissionRuns.FirstCallAfterLockout` | src/admission.c:73-86 | when the lockout is longer than the window, the first call after it is always recorded |
| `AdmissionPeers.ProvenanceHolds` | src/sender.c:343-350 | in every run each accept sent names a peer that was added before, and each pinned peer shows a fingerprint pinned earlier by an explicit accept |
| `AdmissionPeers.PinsMatchHistory` | src/admission.c:154-164 | in every run the fingerprints held as pinned are exactly those pinned by explicit accepts |
| `AdmissionPeers.AutoAcceptedExactly` | src/admission.c:154-164 | in every run a peer that is added is accepted without asking if and only if pins are honoured and the very fingerprint it shows was pinned by an explicit accept earlier |
| `AdmissionPeers.LedgerIsLimiters` | src/admission.c:119-131 | in every run of the list the ledger is the limiter's after the calls its requests make, so what is proved of the limiter holds of it |
| `AdmissionPeers.RequestRecordedExactly` | src/admission.c:127-131 | in every run the short list decides as the full record would: a request is recorded if and only if no lockout is running and fewer than the allowed number of all attempts recorded in the run are in the window |
| `AdmissionPeers.PeerAddedExactly` | src/admission.c:127-141 | in every run a request adds a peer if and only if the full record lets it pass, nobody with that id was added before and the accepted peers are below the cap |
| `AdmissionPeers.AdditionExactly` | src/admission.c:143-166 | in every run an added entry has the id, name and fingerprint given, cut to their buffers, and the time seen; it is pending and nothing is sent for it, unless its fingerprint was pinned earlier by an explicit accept: then it is accepted, pinned and an accept is sent |
| `AdmissionPeers.EntriesExactly` | src/admission.c:176-225 | in every run of ids that fit their buffers, the state and pin every entry has after each command |
| `AdmissionPeers.SentExactly` | src/sender.c:343-361 | in every run what each command sends: an accept or reject for a peer that was added, a reject for anybody the user disconnects, and nothing else |
| `AdmissionPeers.CommandsReachTheAdded` | src/sender.c:343-361 | in every run an accept or reject is sent on if and only if a peer of that id was added earlier; a disconnect by the user sends a reject for any id |
| `AdmissionPeers.CommandsChangeTheirPeer` | src/admission.c:176-198 | in every run of ids that fit their buffers an accept or reject changes the entry of the peer it names and no other, and for nobody it does nothing |
| `AdmissionPeers.PinsArePermanent` | src/admission.c:187-190 | no operation clears a pin |
| `AdmissionPeers.AddKeepsDistinctIds` | src/admission.c:133-145 | adding keeps ids distinct if and only if the id fits its buffer or its cut form is new |
| `AdmissionPeers.IdsStayDistinct` | src/admission.c:133-145 | in every run of ids that fit their buffers, no two peers share one |
| `AdmissionPeers.AddKeepsCap` | src/admission.c:137-141 | adding never takes the accepted peers over the cap |
| `AdmissionPeers.AcceptExceedsCapExactly` | src/admission.c:200-203 | an explicit accept exceeds the cap if and only if the list is full and the peer was not accepted |
| `RoomLimiter.RecordAttempt` | backend/src/room.ts:322-331 | the filter, push and reset of one failure |
| `RoomLimiter.LimiterRefinesHistory` | backend/src/room.ts:322-331 | on a clock that never goes back the short list is exactly the failures since the last lockout in the window, and a lockout fires exactly when their count over the full history reaches the maximum |
| `RoomLimiter.UntilNeverDecreases` | backend/src/room.ts:327-330 | a lockout is never shortened |
| `RoomLimiter.NoBurstSurvives` | backend/src/room.ts:322-331 | since the last lockout any `max` consecutive failures are spread over at least a window |
| `Room.Room.OnMessage` | backend/src/room.ts:126-159 | every message on every socket is the step of its handler; only a hello is obeyed on a socket that has not said hello |
| `Room.Room.HandleHello` | backend/src/room.ts:161-238 | the whole new state of a sender or receiver hello |
| `Room.Room.Fetch` | backend/src/room.ts:95-111 | a connection's room name is adopted as the token |
| `Room.Room.HandleAccept` | backend/src/room.ts:240-246 | the whole new state of an accept |
| `Room.Room.HandleReject` | backend/src/room.ts:248-255 | the whole new state of a reject |
| `Room.Room.HandleRevoke` | backend/src/room.ts:257-271 | deleting while walking the map dismisses every receiver and keeps every sender |
| `Room.Room.RelayToPeer` | backend/src/room.ts:273-299 | the whole new state of a relayed message |
| `Room.Room.OnClose` | backend/src/room.ts:301-320 | the whole new state when a socket closes |
| `RoomSafety.StepKeeps` | backend/src/room.ts:95-331 | every event keeps the room's invariant |
| `RoomSafety.AcceptBeforeRelay` | backend/src/room.ts:240-298 | in every run whatever a sender has relayed to a receiver comes after that receiver was told it is accepted; between receivers, after the speaker was |
| `RoomSafety.AcceptedFlagExactly` | backend/src/room.ts:216-246 | a receiver in the map is marked accepted if and only if it was told so |
| `RoomSafety.AcceptedOnDemand` | backend/src/room.ts:240-246 | in every run every peer told it is accepted was named in an accept on the socket of a sender of the room |
| `RoomSafety.RelaysExactly` | backend/src/room.ts:273-299 | in every run a message is relayed if and only if the peer it is meant for is there and the alias, or the accepts told so far, allow it; then once, to that peer |
| `RoomSafety.UnacceptedIsReachedExactly` | backend/src/room.ts:286-298 | a receiver that was not told it is accepted is relayed a message if and only if a receiver that was names it |
| `RoomSafety.AcceptOpensTheWay` | backend/src/room.ts:240-298 | in every run, once a sender has accepted a receiver, whatever a sender says to it while it is in the room is relayed to it, once |
| `RoomSafety.DismissalIsFinal` | backend/src/room.ts:248-271 | in every run a peer id that was rejected or disconnected is sent nothing more but a closing, and nothing said under it reaches anybody |
| `RoomSockets.DismissedSocketIsSilent` | backend/src/room.ts:248-320 | in every run in which each socket says hello at most once, a socket that was rejected or closed gets nothing more but closings, and nothing said on it has any effect |
| `RoomSafety.JoinIsAnnounced` | backend/src/room.ts:215-237 | a receiver that joins is not accepted, and exactly one sender is told of it, if there is one |
| `RoomSafety.RelaysNameTheirPeer` | backend/src/room.ts:278-298 | in every run what a sender is relayed names the peer it comes from |
| `RoomEffects.LeavingExactly` | backend/src/room.ts:301-320 | when a socket closes its peer leaves; a receiver's leaving is told to the first sender, a sender's closes every other socket of a room that is not reusable and empties it, and nothing else happens |
| `RoomEffects.OnlySendersCommand` | backend/src/room.ts:240-258 | an accept, reject or revoke on a socket that is no sender's changes nothing |
| `RoomEffects.CommandsForNobody` | backend/src/room.ts:241-251 | a command that names nobody, or an accept that names a sender, changes nothing |
| `RoomSafety.TokenMatchesExactly` | backend/src/room.ts:196-197 | a hello names the token if and only if its text, else the query's, is the token letter by letter in either case |
| `RoomSafety.JoinsExactly` | backend/src/room.ts:195-224 | in every run a receiver joins if and only if it names the room's token so, before it expires, and no lockout the full history calls for is running |
| `RoomEffects.HelloAnsweredExactly` | backend/src/room.ts:195-237 | in every run what each receiver hello gets: refusals with reason and closing, the seconds to wait, or the new entry; one that does not name the token counts as a failure and no other does |
| `RoomEffects.SenderHelloExactly` | backend/src/room.ts:166-193 | a sender hello adds the sender and tells it the token; where no expiry is set it sets the lifetime asked for or half an hour, at most the longest, and whether the room is reusable |
| `RoomEffects.TokenIsLastName` | backend/src/room.ts:107-111 | in every run the room's token is the last non-empty room name a connection carried since the last revocation |
| `RoomSafety.ClosingASocket` | backend/src/room.ts:301-320 | a sender leaving a room that is not reusable closes all others and empties it; otherwise everybody else stays and only a sender hears of it |
| `RoomExpiry.OpensExactly` | backend/src/room.ts:170-174 | a sender hello sets an expiry where none is set if and only if its lifetime is a number and does not put the expiry at time 0 |
| `RoomExpiry.JoinsInTime` | backend/src/room.ts:170-207 | in every run no receiver joins before the first sender hello since the start or the last revocation, and if that hello set an expiry, none joins later than the longest lifetime after it |
| `RoomExpiry.JoinsInTimeExactly` | backend/src/room.ts:170-207 | of that hello in any run: every receiver that joins before the next revocation does so in time, whatever happens, if and only if the hello set an expiry |
| `RoomExpiry.LateJoin` | backend/src/room.ts:170-207 | from any state of a run without an expiry set, a connection, a sender hello and a receiver hello lead to a join after the bound |
| `RoomExpiry.ExpirySetTwice` | backend/src/room.ts:170-174 | of any two sender hellos in a room without an expiry the second sets it anew if and only if the first did not set one |
| `RoomSafety.RevocationCloses` | backend/src/room.ts:257-271 | a revocation by a sender leaves no expiry and no receiver |
| `RoomEffects.RevocationExactly` | backend/src/room.ts:257-271 | a sender's revocation takes token and expiry away, rejects and closes every receiver in order, and leaves exactly the senders |
| `RoomSafety.RevocationLasts` | backend/src/room.ts:107-111 | a closed room stays closed until a sender says hello, although connections make it adopt its token again |
| `RoomSafety.ClosedTurnsAway` | backend/src/room.ts:196-207 | a closed room answers every receiver hello with `token_invalid` and tells nobody else |
| `RoomSafety.HelloReopens` | backend/src/room.ts:161-238 | after a connection with the token and a sender hello, the token admits a receiver again if and only if it comes in time and is not locked out |
| `FrameHandoff.NextKeeps` | src/sender.c:508-622 | every critical section of either thread keeps the hand-off's invariant |
| `FrameHandoff.PublicationShows` | src/sender.c:513-525 | after any publication of a whole frame, in any state, the buffer holds it, the flag is up and a sleeping worker is woken |
| `FrameHandoff.ProducedIsPublished` | src/sender.c:513-525 | in every run the history of a capture is the sequence of frames published for it |
| `FrameHandoff.EncodedFramesAreASelection` | src/sender.c:599-621 | in every run the frames encoded for a capture are, whole and with their own sizes, a strictly increasing selection of all those published; when the flag is down the last taken is the last published, when it is up that is in the buffer |
| `FrameHandoff.ReadsStayInBuffers` | src/sender.c:606-619 | the worker never reads past a buffer, though buffers are longer than the frames in them |
| `FrameHandoff.SleeperIsWoken` | src/sender.c:577-592 | in every run a sleeping worker with a ready frame or a cleared flag has been woken |
| `FrameHandoff.StopIsBounded` | src/sender.c:752-756 | once the flag is cleared the worker is gone after the rest of its pass and one more look at the flag |
| `FrameHandoff.RunsUntilStopped` | src/sender.c:589-597 | the flag is cleared exactly by a stop, and the worker is there until then |
| `FrameHandoff.GoneAfterStop` | src/sender.c:752-756 | in every run with a stop in it the worker is gone after it has had the lock once for each capture and once more |
| `FrameHandoff.ReadyFramesAreTaken` | src/sender.c:599-621 | while it runs the worker takes a ready frame, or a newer one of that capture, by the time it has had the lock as often as there are captures and once more |
| `FrameBuffers.CopyInto` | src/sender.c:515-520 | copies the bytes to the front of the buffer, or of a larger new one |
| `FrameBuffers.Handoff.CaptureOne` | src/sender.c:513-526 | publishing in place is the producer's step |
| `FrameBuffers.Handoff.WorkerTurn` | src/sender.c:577-623 | one turn of the worker, with the lock dropped while it encodes, is its step |
| `FrameBuffers.Handoff.StopWorker` | src/sender.c:752-755 | stopping is the stop step |
| `AudioTrack.SenderTrack.constructor` | src/audio.c:199-201 | an empty buffer of 200 ms, with the default shape for non-positive settings |
| `AudioTrack.SenderTrack.OnAudioCapture` | src/audio.c:84-121 | in place, one callback drops the oldest samples, interleaves and drains as its specification says |
| `AudioTrack.SenderTrack.EncodeAndSend` | src/audio.c:65-82 | emits exactly the first block, if there is one, and keeps the rest |
| `AudioRuns.StreamIsConserved` | src/audio.c:65-121 | over every sequence of callbacks, what was emitted and dropped, in order, followed by the buffer, is all that was captured |
| `AudioRuns.BlocksAreExact` | src/audio.c:65-119 | every emitted block has exactly the samples of 20 ms, and less than that stays behind |
| `AudioRuns.BlockIsTwentyMilliseconds` | src/audio.c:67-68 | a block is as many whole frames as fit 20 ms, the buffer as many as fit 200 ms |
| `AudioRuns.NothingIsDroppedExactly` | src/audio.c:97-102 | nothing is ever dropped if and only if every callback finds room beside the remainder, by the block size, of all captured before it |
| `AudioRuns.NothingIsDropped` | src/audio.c:97-102 | if every callback leaves room for one block nothing is ever dropped |
| `AudioRuns.NineBlocksAreSafe` | src/audio.c:199-201 | callbacks of up to nine blocks always leave that room |
| `AudioRuns.SlotsKeepTheirChannel` | src/audio.c:97-119 | in every run slot q*channels+c of the buffer holds a sample of channel c, and which one |
| `AudioRuns.BlocksKeepTheirChannel` | src/audio.c:97-119 | and so does every slot of every emitted block |
| `Audio.Deinterleave` | src/audio.c:347-356 | the receiver's loops write the planes one after the other |
| `Audio.DeinterleaveInvertsInterleave` | src/audio.c:347-356 | each plane taken from interleaved audio is the one put in, silence for a missing one |
| `Audio.InterleaveInvertsDeinterleave` | src/audio.c:105-110 | interleaving the planes taken from a packet gives the packet back |
| `EndToEnd.AcceptIsEarlier` | backend/src/room.ts:240-298 | on the receiver's own socket the accept comes before anything from a sender |
| `RoomTexts.OwnTextsAreFlat` | backend/src/room.ts:190-270 | whatever the room sends of its own is a flat object |
| `RoomTexts.OwnTextsAreRead` | src/signaling.c:162-217 | each of them reads as the event it means, with the peer, token or text it carries |
| `RoomTexts.DecimalReads` | backend/src/room.ts:209-210 | the printed waiting time reads back as that number |
| `RoomTexts.FlatRelayIsRead` | backend/src/room.ts:280-298 | every relayed flat description or candidate, with any further fields in any order, arrives by its type, from the peer the room names |
| `RoomTexts.FlatRelayIsDecoded` | src/receive-session.c:252-321 | of its fields the offer decoder takes the whole, unescaped, and the other decoders what stands before the first quote |
| `RoomTexts.RelayedAnswerExactly` | src/sender.c:413-433 | an answer that comes through the room decodes to the description that was relayed if and only if the server's print of it needs no escape |
| `RoomTexts.RelayedIceExactly` | src/receive-session.c:299-322 | and so for a candidate and its mid, in either direction |
| `RoomTexts.OnlyAcceptsReadSo` | src/signaling.c:162-217 | of the texts of the room only its accept reads as one, unless a relayed message does |
| `RoomTexts.FlatRelayIsNoAccept` | src/signaling.c:83-123 | a relayed flat object never reads as an accept |
| `RoomTexts.NestedObjectReadsAsAccept` | src/signaling.c:83-123 | a relayed message with an object inside it, in front of its own type, can: the scanner looks for a key at any depth |
| `RoomTexts.OfferIsUnderstood` | backend/src/room.ts:126-132 | the offer a sender sends is understood by the server as that very offer if and only if it has no control character besides tab, line feed and carriage return |
| `EndToEnd.FirstOfferArrives` | src/receive-session.c:213-298 | the first offer relayed on a socket, whoever it comes from and whatever it looks like, is applied at once; it finds the session accepted if and only if the room accepted it on that socket before or a relayed message before it reads as an accept |
| `EndToEnd.FirstFlatOfferArrives` | src/receive-session.c:213-298 | if everything relayed on the socket up to it is a flat object with plain names, it finds the session accepted if and only if the room accepted it there before, and what is applied is the very description relayed if and only if that has no control character besides tab, line feed and carriage return |
| `EndToEnd.SendersOfferFindsAccepted` | src/receive-session.c:213-251 | in every run of the room a first offer that comes from a sender finds the session accepted |
| `EndToEnd.EarlyOfferIsAReceivers` | backend/src/room.ts:286-298 | in every run a first offer that does not find the session accepted was relayed on behalf of a receiver, one that was accepted itself |
| `EarlyOffer.OfferBeforeAccept` | backend/src/room.ts:286-298 | a run in which that happens |

## Left out

- Texts are sequences of characters up to the terminator; UTF-8 encoding, and upper-casing of letters outside ASCII on the server, are not modelled.
- `JSON.parse` of escaped halves of surrogate pairs, and of whitespace between tokens: the plugin's own texts have neither. The fields of a message are those JavaScript keeps and prints, so of a repeated name there is one.
- The text of `mline` is given as digits; its printing by `%d` is not modelled.
- The texts of hello, accept, reject and revoke messages, which are fixed format strings.
- Token lifetimes and expiries are real numbers, infinite or no number; the rounding of floating point is not modelled. A lifetime that JSON gives as a text, truth value, list or object is the number JavaScript's `Math.min` takes it for. The longest lifetime is a number.
- Notification of a session's subscribers (`src/receive-session.c:115-128`): the snapshot of subscribers is used after the lock is given up, which is a matter of pointer lifetime across threads.
- `tether_receive_session_shutdown`, which destroys sessions whatever references exist, and the flag that `init` sets.
- The race between connecting and the state set after it (`src/receive-session.c:384-385`): the receiver's machine starts awaiting its accept, and its events come one at a time.
- Room storage and cold loads, and other handlers running while one awaits its storage.
- Sessions per receiver on the sender's side (`src/sender.c:241-310`), and their media tracks.
- RoomLimiter.LimiterRefinesHistory: limits are numbers; a server variable that is no number is not modelled.
- AudioTrack.SenderTrack.OnAudioCapture: requires a callback to fit the buffer, since the code would write past the end of it otherwise; whether the Opus encoder accepts a block is not modelled.
- FrameBuffers.Handoff.WorkerTurn: encoding and scaling are a sink that receives the frame.
- The sockets in `src/control.c`, `src/known-tokens.c`, `src/webrtc.c`, dialogs, properties and the build: interface, plumbing or easy lists.
- FFmpeg, Opus, OBS, libdatachannel, TLS and ICE are foreign code.
- The quality of random bytes.

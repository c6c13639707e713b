/** What each event does to a room, said without the handlers' own terms (backend/src/room.ts:95-124, 161-331). */
module RoomEffects {
  import opened Common
  import opened Room
  import opened RoomRuns
  import opened RoomSafety
  import RoomLimiter
  import Token

  // ----- hellos -----

  /** A refusal: the reason, then the closing. */
  function Refused(ws: nat, reason: Out, code: int): seq<Delivery> {
    [ToSocket(ws, reason), ToSocket(ws, CloseSocket(code))]
  }

  /** `r` is the number of seconds that covers `ms` milliseconds. */
  predicate Covers(r: int, ms: int) {
    (r - 1) * 1000 < ms <= r * 1000
  }

  lemma RetryCovers(ms: int)
    requires ms > 0
    ensures Covers((ms + 999) / 1000, ms)
  {}

  /** Main result: what every receiver hello gets, in every run. Only one that names the token, letter by letter
      in either case, in time and outside a lockout, joins; one that does not name it counts as a failure, no
      other does. */
  lemma HelloAnsweredExactly(cfg: Config, events: seq<Event>, ev: Event)
    requires LegalRun(START, cfg, events) && Legal(Run(START, cfg, events), ev) && IsHello(ev, false)
    ensures var sys, sys' := Run(START, cfg, events), Step(Run(START, cfg, events), cfg, ev);
            var room, room', ws := sys.room, sys'.room, ev.what.ws;
            var t := match ev.what.msg.hello.token case Some(x) => x case None => match ev.what.tokenParam case Some(x) => x case None => "";
            && room'.token == room.token && room'.expiresAt == room.expiresAt && room'.reusable == room.reusable
            && sys'.failures == (if Names(room, t) then sys.failures else sys.failures + [ev.now])
            && (if !Names(room, t)
                   || (match room.expiresAt case Finite(x) => ev.now as real > x case Infinite(positive) => !positive case NaN => false) then
                  room'.peers == room.peers && room'.sent == room.sent + Refused(ws, TokenInvalid, 1008)
                else if ev.now < RoomLimiter.Until(sys.failures, cfg.limits) then
                  room'.peers == room.peers
                  && exists r :: Covers(r, RoomLimiter.Until(sys.failures, cfg.limits) - ev.now)
                       && room'.sent == room.sent + Refused(ws, TokenLockedOut(r), 1013)
                else
                  |room'.peers| == |room.peers| + 1 && room'.peers[..|room.peers|] == room.peers
                  && room'.peers[|room.peers|].ws == ws && room'.peers[|room.peers|].id == ev.what.id
                  && !room'.peers[|room.peers|].sender && !room'.peers[|room.peers|].accepted)
  {
    hide Run, LegalRun, Roster, Welcome, TokenMatches, RoomLimiter.Until, RoomLimiter.After, RoomLimiter.Record, Names, Covers;
    StartInv(cfg);
    RunKeeps(START, cfg, events);
    var sys := Run(START, cfg, events);
    RoomLimiter.LimiterRefinesHistory(sys.failures, cfg.limits);
    TokenMatchesExactly(sys.room, ev.what.msg.hello, ev.what.tokenParam);
    WelcomeKeeps(sys.room, ev.what.ws, ev.what.msg.hello, ev.what.id, sys.used);
    var ms := sys.room.limiter.lockedOutUntil - ev.now;
    if ms > 0 {
      RetryCovers(ms);
    }
  }

  /** A sender hello adds the sender and tells it the token. Where no expiry is set it sets one, the lifetime
      asked for or half an hour from now but no more than the longest, and whether the room is reusable. */
  lemma SenderHelloExactly(sys: Sys, cfg: Config, ev: Event)
    requires IsHello(ev, true)
    ensures var room, room', h := sys.room, Step(sys, cfg, ev).room, ev.what.msg.hello;
            && |room'.peers| == |room.peers| + 1 && room'.peers[..|room.peers|] == room.peers
            && (var p := room'.peers[|room.peers|]; p.id == ev.what.id && p.ws == ev.what.ws && p.sender && p.accepted)
            && room'.sent == room.sent + [ToSocket(ev.what.ws, TokenIs(room.token))]
            && room'.token == room.token && room'.limiter == room.limiter
            && (if room.expiresAt != Finite(0.0) && room.expiresAt != NaN then
                  room'.expiresAt == room.expiresAt && room'.reusable == room.reusable
                else
                  var longest := cfg.maxTtlMinutes;
                  && room'.reusable == h.reusable
                  && room'.expiresAt == match h.ttlMinutes
                     case None => Finite(ev.now as real + (if 30.0 <= longest then 30.0 else longest) * 60_000.0)
                     case Some(Finite(m)) => Finite(ev.now as real + (if m <= longest then m else longest) * 60_000.0)
                     case Some(Infinite(positive)) => if positive then Finite(ev.now as real + longest * 60_000.0) else Infinite(false)
                     case Some(NaN) => NaN)
  {}

  // ----- the token -----

  /** The last non-empty room name a connection carried since the last revocation. */
  function LastName(cfg: Config, events: seq<Event>): Option<string> {
    if events == [] then None
    else
      var before, ev := events[..|events| - 1], events[|events| - 1];
      if Revokes(Run(START, cfg, before).room, ev) then None
      else
        match ev.what
        case Connect(Some(name)) => if name != "" then Some(name) else LastName(cfg, before)
        case _ => LastName(cfg, before)
  }

  lemma ObeyToken(s: State, k: nat, msg: Message, used: set<string>)
    requires k < |s.peers| && Roster(s.peers, s.sent, used)
    ensures Obey(s, s.peers[k], msg).token == if msg.RevokeMsg? && s.peers[k].sender then None else s.token
  {
    hide Roster, Expel, Forward;
    match msg
    case RevokeMsg => ExpelKeeps(s.(token := None, expiresAt := UNSET), 0, used);
    case SignalMsg(id, signal) => ForwardKeeps(s, k, id, signal, used);
    case _ =>
  }

  lemma StepToken(sys: Sys, cfg: Config, ev: Event)
    requires Inv(sys, cfg) && Legal(sys, ev)
    ensures Step(sys, cfg, ev).room.token ==
      if Revokes(sys.room, ev) then None
      else
        match ev.what
        case Connect(Some(name)) => if name != "" then Some(name) else sys.room.token
        case _ => sys.room.token
  {
    hide Roster, LimiterAgrees, ReceiverHello, Obey, Leave, TokenMatches, Closed;
    match ev.what
    case Connect(hint) =>
    case Receive(ws, msg, tokenParam, id) =>
      var from := SocketIndex(sys.room.peers, ws);
      if msg.HelloMsg? && !msg.hello.sender {
        ReceiverHelloFrame(sys.room, cfg, ws, msg.hello, tokenParam, id, ev.now, sys.used);
      } else if !msg.HelloMsg? && from.Some? {
        ObeyToken(sys.room, from.value, msg, sys.used);
      }
    case Disconnect(ws) => LeaveKeeps(sys.room, ws, sys.used);
  }

  /** In every run the room's token is that name. */
  lemma {:induction false} TokenIsLastName(cfg: Config, events: seq<Event>)
    requires LegalRun(START, cfg, events)
    ensures Run(START, cfg, events).room.token == LastName(cfg, events)
    decreases |events|
  {
    hide Inv, Step, Legal, Revokes;
    if events != [] {
      var before := events[..|events| - 1];
      TokenIsLastName(cfg, before);
      StartInv(cfg);
      RunKeeps(START, cfg, before);
      StepToken(Run(START, cfg, before), cfg, events[|events| - 1]);
    }
  }

  // ----- commands -----

  /** Only a sender commands: an accept, reject or revoke on another socket changes nothing, nor does anything
      but a hello on a socket that is nobody's. */
  lemma OnlySendersCommand(sys: Sys, cfg: Config, ev: Event)
    requires ev.what.Receive? && !ev.what.msg.HelloMsg?
    requires match SocketIndex(sys.room.peers, ev.what.ws)
             case None => true
             case Some(k) => !sys.room.peers[k].sender && !ev.what.msg.SignalMsg?
    ensures Step(sys, cfg, ev).room == sys.room
  {}

  /** A sender's accept or reject that names nobody, or an accept that names a sender, changes nothing. */
  lemma CommandsForNobody(sys: Sys, cfg: Config, ev: Event)
    requires ev.what.Receive? && (ev.what.msg.AcceptMsg? || ev.what.msg.RejectMsg?)
    requires forall i :: 0 <= i < |sys.room.peers| && sys.room.peers[i].id == ev.what.msg.peer ==>
      ev.what.msg.AcceptMsg? && sys.room.peers[i].sender
    ensures Step(sys, cfg, ev).room == sys.room
  {}

  // ----- revocation -----

  function Senders(peers: seq<Peer>): seq<Peer> {
    if peers == [] then [] else (if peers[0].sender then [peers[0]] else []) + Senders(peers[1..])
  }

  /** Every receiver's rejection and closing, in order. */
  function Farewells(peers: seq<Peer>): seq<Delivery> {
    if peers == [] then []
    else (if peers[0].sender then [] else [To(peers[0], Rejected), To(peers[0], CloseSocket(1000))]) + Farewells(peers[1..])
  }

  lemma {:induction false} ExpelIs(s: State, i: nat)
    requires i <= |s.peers|
    ensures Expel(s, i) == s.(peers := s.peers[..i] + Senders(s.peers[i..]), sent := s.sent + Farewells(s.peers[i..]))
    decreases |s.peers| - i
  {
    hide Senders, Farewells;
    if i == |s.peers| {
      NobodyLeft(s, i);
    } else {
      ExpelTail(s, i);
      if s.peers[i].sender {
        ExpelIs(s, i + 1);
      } else {
        ExpelIs(s.(peers := Without(s.peers, i),
                   sent := s.sent + [To(s.peers[i], Rejected), To(s.peers[i], CloseSocket(1000))]), i);
      }
    }
  }

  lemma NobodyLeft(s: State, i: nat)
    requires i == |s.peers|
    ensures s.peers[..i] + Senders(s.peers[i..]) == s.peers && s.sent + Farewells(s.peers[i..]) == s.sent
  {}

  lemma ExpelTail(s: State, i: nat)
    requires i < |s.peers|
    ensures s.peers[i].sender ==>
      s.peers[..i] + Senders(s.peers[i..]) == s.peers[..i + 1] + Senders(s.peers[i + 1..])
      && Farewells(s.peers[i..]) == Farewells(s.peers[i + 1..])
    ensures !s.peers[i].sender ==>
      var rest := Without(s.peers, i); var told := s.sent + [To(s.peers[i], Rejected), To(s.peers[i], CloseSocket(1000))];
      i <= |rest| && s.peers[..i] + Senders(s.peers[i..]) == rest[..i] + Senders(rest[i..])
      && s.sent + Farewells(s.peers[i..]) == told + Farewells(rest[i..])
  {
    assert s.peers[i..][1..] == s.peers[i + 1..];
    assert s.peers[i..][0] == s.peers[i];
    if !s.peers[i].sender {
      var rest := Without(s.peers, i);
      assert rest[..i] == s.peers[..i] && rest[i..] == s.peers[i + 1..];
    }
  }

  /** A revocation by a sender takes token and expiry away, tells every receiver of the room that it is rejected
      and closes its socket, in order, and leaves exactly the senders. */
  lemma RevocationExactly(sys: Sys, cfg: Config, ev: Event)
    requires Revokes(sys.room, ev)
    ensures Step(sys, cfg, ev).room
         == sys.room.(token := None, expiresAt := Finite(0.0), peers := Senders(sys.room.peers),
                      sent := sys.room.sent + Farewells(sys.room.peers))
  {
    hide Expel, Senders, Farewells;
    var s := sys.room.(token := None, expiresAt := UNSET);
    ExpelIs(s, 0);
    assert s.peers[0..] == s.peers && s.peers[..0] == [];
    assert [] + Senders(s.peers) == Senders(s.peers);
  }

  // ----- leaving -----

  lemma {:induction false} CloseEachIs(peers: seq<Peer>)
    ensures CloseEach(peers) == seq(|peers|, i requires 0 <= i < |peers| => To(peers[i], CloseSocket(1001)))
  {
    if peers != [] {
      CloseEachIs(peers[..|peers| - 1]);
    }
  }

  /** `room'` differs from `room` only in that its first sender, if it has one, was sent `msg`. */
  ghost predicate TellsFirstSender(room: State, msg: Out, room': State) {
    if forall k :: 0 <= k < |room.peers| ==> !room.peers[k].sender then room' == room
    else
      exists k :: 0 <= k < |room.peers| && room.peers[k].sender && (forall j :: 0 <= j < k ==> !room.peers[j].sender)
        && room' == room.(sent := room.sent + [To(room.peers[k], msg)])
  }

  /** When a socket closes, the first peer that uses it leaves. If it is a receiver, the first sender is told, if
      there is one; if it is a sender and the room is not reusable, every other socket is closed, in order, and
      the room is left empty. Nothing else happens, and for a socket that is nobody's nothing at all. */
  lemma LeavingExactly(sys: Sys, cfg: Config, ev: Event)
    requires ev.what.Disconnect?
    ensures var room, room' := sys.room, Step(sys, cfg, ev).room;
            match SocketIndex(room.peers, ev.what.ws)
            case None => room' == room
            case Some(i) =>
              var rest := room.peers[..i] + room.peers[i + 1..];
              if room.peers[i].sender && room.reusable then room' == room.(peers := rest)
              else if room.peers[i].sender then
                room' == room.(peers := [], sent := room.sent + seq(|rest|, k requires 0 <= k < |rest| => To(rest[k], CloseSocket(1001))))
              else TellsFirstSender(room.(peers := rest), PeerGone(room.peers[i].id), room')
  {
    hide CloseEach, NotifySender, TellsFirstSender;
    match SocketIndex(sys.room.peers, ev.what.ws)
    case None =>
    case Some(i) =>
      var rest := Without(sys.room.peers, i);
      CloseEachIs(rest);
      NotifyTellsFirst(sys.room.(peers := rest), PeerGone(sys.room.peers[i].id));
  }

  lemma NotifyTellsFirst(room: State, msg: Out)
    ensures TellsFirstSender(room, msg, NotifySender(room, msg))
  {
    match SenderIndex(room.peers)
    case None =>
    case Some(k) => assert room.peers[k].sender;
  }
}

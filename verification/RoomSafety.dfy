/** Runs of a room: any connections, messages and closings, on a clock that never goes back. */
module RoomSafety {
  import opened Common
  import opened Room
  import opened RoomRuns
  import RoomLimiter
  import Token

  datatype What =
    | Connect(hint: Option<string>)
    | Receive(ws: nat, msg: Message, tokenParam: Option<string>, id: string)
    | Disconnect(ws: nat)

  datatype Event = Event(now: int, what: What)

  /** The room with what happened to it: the ids given out, the last clock reading, the times of all
      hellos with a wrong token, and the time of the first sender hello since the last revocation. */
  datatype Sys = Sys(room: State, used: set<string>, clock: int, failures: seq<int>, openedAt: Option<int>)

  const START := Sys(EMPTY, {}, 0, [], None)

  predicate IsHello(ev: Event, sender: bool) {
    ev.what.Receive? && ev.what.msg.HelloMsg? && ev.what.msg.hello.sender == sender
  }

  predicate Fails(room: State, ev: Event) {
    IsHello(ev, false) && !TokenMatches(room, ev.what.msg.hello, ev.what.tokenParam)
  }

  /** The event is a revocation by a sender. */
  predicate Revokes(room: State, ev: Event) {
    ev.what.Receive? && ev.what.msg.RevokeMsg?
    && match SocketIndex(room.peers, ev.what.ws) case None => false case Some(i) => room.peers[i].sender
  }

  function React(room: State, cfg: Config, ev: Event): State {
    match ev.what
    case Connect(hint) => Adopt(room, hint)
    case Receive(ws, msg, tokenParam, id) => Handle(room, cfg, ws, msg, tokenParam, id, ev.now)
    case Disconnect(ws) => Leave(room, ws)
  }

  function Step(sys: Sys, cfg: Config, ev: Event): Sys {
    Sys(React(sys.room, cfg, ev),
        if IsHello(ev, true) || IsHello(ev, false) then sys.used + {ev.what.id} else sys.used,
        ev.now,
        if Fails(sys.room, ev) then sys.failures + [ev.now] else sys.failures,
        if Revokes(sys.room, ev) then None
        else if IsHello(ev, true) && sys.openedAt.None? then Some(ev.now)
        else sys.openedAt)
  }

  /** The clock does not go back and ids are fresh. */
  predicate Legal(sys: Sys, ev: Event) {
    0 < ev.now && sys.clock <= ev.now
    && (IsHello(ev, true) || IsHello(ev, false) ==> ev.what.id !in sys.used)
  }

  function Run(sys: Sys, cfg: Config, events: seq<Event>): Sys
    decreases |events|
  {
    if events == [] then sys else Step(Run(sys, cfg, events[..|events| - 1]), cfg, events[|events| - 1])
  }

  predicate LegalRun(sys: Sys, cfg: Config, events: seq<Event>)
    decreases |events|
  {
    events == []
    || (LegalRun(sys, cfg, events[..|events| - 1])
        && Legal(Run(sys, cfg, events[..|events| - 1]), events[|events| - 1]))
  }

  lemma RunAppended(sys: Sys, cfg: Config, events: seq<Event>, ev: Event)
    ensures Run(sys, cfg, events + [ev]) == Step(Run(sys, cfg, events), cfg, ev)
    ensures LegalRun(sys, cfg, events + [ev]) == (LegalRun(sys, cfg, events) && Legal(Run(sys, cfg, events), ev))
  {
    hide Step, Legal;
    assert (events + [ev])[..|events|] == events;
  }

  // ----- the invariant -----

  ghost predicate NoReceivers(peers: seq<Peer>) {
    forall i :: 0 <= i < |peers| ==> peers[i].sender
  }

  ghost predicate LimiterAgrees(sys: Sys, cfg: Config) {
    && Sorted(sys.failures) && (forall i :: 0 <= i < |sys.failures| ==> sys.failures[i] <= sys.clock)
    && sys.room.limiter == RoomLimiter.After(sys.failures, cfg.limits)
  }

  ghost predicate Closed(room: State) {
    room.expiresAt == UNSET && NoReceivers(room.peers)
  }

  ghost predicate Inv(sys: Sys, cfg: Config) {
    && Roster(sys.room.peers, sys.room.sent, sys.used)
    && LimiterAgrees(sys, cfg)
    && (sys.openedAt.None? ==> Closed(sys.room))
  }

  /** What a message other than a hello does to the rest of the room. */
  lemma ObeyFrame(s: State, k: nat, msg: Message, used: set<string>)
    requires k < |s.peers| && Roster(s.peers, s.sent, used)
    ensures var s' := Obey(s, s.peers[k], msg);
            && s'.limiter == s.limiter
            && (if msg.RevokeMsg? && s.peers[k].sender then Closed(s')
                else s'.expiresAt == s.expiresAt && s'.token == s.token
                     && (NoReceivers(s.peers) ==> NoReceivers(s'.peers)))
  {
    hide Roster, Expel, Forward;
    match msg
    case RevokeMsg => ExpelKeeps(s.(token := None, expiresAt := UNSET), 0, used);
    case SignalMsg(id, signal) => ForwardKeeps(s, k, id, signal, used);
    case _ =>
  }

  lemma ReceiverHelloFrame(s: State, cfg: Config, ws: nat, h: Hello, tokenParam: Option<string>, id: string, now: int, used: set<string>)
    requires Roster(s.peers, s.sent, used) && id !in used
    ensures var s' := ReceiverHello(s, cfg, ws, h, tokenParam, id, now);
            && s'.expiresAt == s.expiresAt && s'.token == s.token
            && s'.limiter == (if TokenMatches(s, h, tokenParam) then s.limiter else RoomLimiter.Record(s.limiter, cfg.limits, now))
            && (s'.peers == s.peers || (TokenMatches(s, h, tokenParam) && |s'.peers| == |s.peers| + 1))
            && (|s'.peers| == |s.peers| + 1 <==> TokenMatches(s, h, tokenParam) && !Past(now, s.expiresAt) && s.limiter.lockedOutUntil <= now)
  {
    hide Roster, Welcome, TokenMatches, RoomLimiter.Record;
    WelcomeKeeps(s, ws, h, id, used);
  }

  lemma StepKeepsRoster(sys: Sys, cfg: Config, ev: Event)
    requires Inv(sys, cfg) && Legal(sys, ev)
    ensures var sys' := Step(sys, cfg, ev); Roster(sys'.room.peers, sys'.room.sent, sys'.used)
  {
    hide Roster, LimiterAgrees, SenderHello, ReceiverHello, Obey, Leave, TokenMatches;
    match ev.what
    case Connect(hint) =>
    case Receive(ws, msg, tokenParam, id) =>
      var from := SocketIndex(sys.room.peers, ws);
      if msg.HelloMsg? && msg.hello.sender {
        SenderHelloKeeps(sys.room, cfg, ws, msg.hello, id, ev.now, sys.used);
      } else if msg.HelloMsg? {
        ReceiverHelloKeeps(sys.room, cfg, ws, msg.hello, tokenParam, id, ev.now, sys.used);
      } else if from.Some? {
        ObeyKeeps(sys.room, from.value, msg, sys.used);
      }
    case Disconnect(ws) => LeaveKeeps(sys.room, ws, sys.used);
  }

  /** The state outside the peer map and the log: what each event may change. */
  lemma StepFrame(sys: Sys, cfg: Config, ev: Event)
    requires Inv(sys, cfg) && Legal(sys, ev)
    ensures var room, room' := sys.room, Step(sys, cfg, ev).room;
            && room'.limiter == (if Fails(room, ev) then RoomLimiter.Record(room.limiter, cfg.limits, ev.now) else room.limiter)
            && (Revokes(room, ev) ==> Closed(room'))
            && (!Revokes(room, ev) && !IsHello(ev, true) ==> room'.expiresAt == room.expiresAt)
            && (!Revokes(room, ev) && !IsHello(ev, true) && Closed(room) ==> Closed(room'))
            && (IsHello(ev, true) && !Unset(room.expiresAt) ==> room'.expiresAt == room.expiresAt)
            && (IsHello(ev, true) && NoReceivers(room.peers) ==> NoReceivers(room'.peers))
  {
    hide Roster, LimiterAgrees, ReceiverHello, Obey, Leave, TokenMatches, RoomLimiter.Record;
    match ev.what
    case Connect(hint) =>
    case Receive(ws, msg, tokenParam, id) =>
      var from := SocketIndex(sys.room.peers, ws);
      if msg.HelloMsg? && !msg.hello.sender {
        ReceiverHelloFrame(sys.room, cfg, ws, msg.hello, tokenParam, id, ev.now, sys.used);
      } else if !msg.HelloMsg? && from.Some? {
        ObeyFrame(sys.room, from.value, msg, sys.used);
      }
    case Disconnect(ws) => LeaveKeeps(sys.room, ws, sys.used);
  }

  lemma LimiterKeeps(sys: Sys, cfg: Config, ev: Event)
    requires Inv(sys, cfg) && Legal(sys, ev)
    ensures LimiterAgrees(Step(sys, cfg, ev), cfg)
  {
    hide Roster, React, TokenMatches, RoomLimiter.Record, RoomLimiter.After, IsHello;
    StepFrame(sys, cfg, ev);
    RoomLimiter.AfterAppended(sys.failures, ev.now, cfg.limits);
  }

  lemma StepKeeps(sys: Sys, cfg: Config, ev: Event)
    requires Inv(sys, cfg) && Legal(sys, ev)
    ensures Inv(Step(sys, cfg, ev), cfg)
  {
    hide Roster, LimiterAgrees, React, TokenMatches, RoomLimiter.Record, RoomLimiter.After;
    StepKeepsRoster(sys, cfg, ev);
    StepFrame(sys, cfg, ev);
    LimiterKeeps(sys, cfg, ev);
  }

  lemma StartInv(cfg: Config)
    ensures Inv(START, cfg)
  {}

  lemma {:induction false} RunKeeps(sys: Sys, cfg: Config, events: seq<Event>)
    requires Inv(sys, cfg) && LegalRun(sys, cfg, events)
    ensures Inv(Run(sys, cfg, events), cfg)
    decreases |events|
  {
    hide Inv, Step;
    if events != [] {
      RunKeeps(sys, cfg, events[..|events| - 1]);
      StepKeeps(Run(sys, cfg, events[..|events| - 1]), cfg, events[|events| - 1]);
    }
  }

  // ----- accept before relay -----

  lemma {:induction false} GrantedMeansTold(sent: seq<Delivery>, id: string)
    requires Orderly(sent)
    ensures id in Granted(sent) <==> exists j :: 0 <= j < |sent| && sent[j].msg == Accepted && sent[j].to == Some(Endpoint(id, false))
  {
    hide Dismissed;
    if sent != [] {
      var n := |sent| - 1;
      GrantedMeansTold(sent[..n], id);
      if id in Granted(sent) && id !in Granted(sent[..n]) {
        assert sent[n].to == Some(Endpoint(id, false));
      }
    }
  }

  lemma {:induction false} DismissedMeansTold(sent: seq<Delivery>, id: string)
    ensures id in Dismissed(sent)
       <==> exists j :: 0 <= j < |sent| && (sent[j].msg.Rejected? || sent[j].msg.CloseSocket?) && id in Told(sent[j])
  {
    if sent != [] {
      var n := |sent| - 1;
      DismissedMeansTold(sent[..n], id);
    }
  }

  lemma {:induction false} OrderlyAt(sent: seq<Delivery>, k: nat)
    requires Orderly(sent) && k < |sent|
    ensures Orderly(sent[..k]) && MayFollow(sent[..k], sent[k])
    decreases |sent|
  {
    hide MayFollow;
    var n := |sent| - 1;
    if k < n {
      OrderlyAt(sent[..n], k);
      assert sent[..n][..k] == sent[..k];
    }
  }

  /** Main result: in every run, whatever a sender has the room relay to a receiver comes after that
      receiver was told it is accepted; what a receiver has it relay to a receiver comes after the
      first was told so. */
  lemma AcceptBeforeRelay(cfg: Config, events: seq<Event>, k: nat)
    requires LegalRun(START, cfg, events) && k < |Run(START, cfg, events).room.sent|
    requires var d := Run(START, cfg, events).room.sent[k]; d.msg.Relayed? && (d.to.Some? ==> !d.to.value.sender)
    ensures var sent := Run(START, cfg, events).room.sent;
            && sent[k].to.Some? && sent[k].from.Some?
            && var e := if sent[k].from.value.sender then sent[k].to else sent[k].from;
               exists j :: 0 <= j < k && sent[j].msg == Accepted && sent[j].to == Some(Endpoint(e.value.id, false))
  {
    hide Run, LegalRun, Orderly, Granted, Dismissed;
    StartInv(cfg);
    RunKeeps(START, cfg, events);
    RelayAfterAccept(Run(START, cfg, events).room.sent, k);
  }

  lemma RelayAfterAccept(sent: seq<Delivery>, k: nat)
    requires Orderly(sent) && k < |sent| && sent[k].msg.Relayed? && (sent[k].to.Some? ==> !sent[k].to.value.sender)
    ensures sent[k].to.Some? && sent[k].from.Some?
    ensures var e := if sent[k].from.value.sender then sent[k].to else sent[k].from;
            exists j :: 0 <= j < k && sent[j].msg == Accepted && sent[j].to == Some(Endpoint(e.value.id, false))
  {
    hide Granted, Dismissed, Orderly;
    OrderlyAt(sent, k);
    var e := if sent[k].from.value.sender then sent[k].to else sent[k].from;
    GrantedMeansTold(sent[..k], e.value.id);
  }

  /** A receiver in the peer map is marked accepted exactly if it was told so. */
  lemma AcceptedFlagExactly(cfg: Config, events: seq<Event>, i: nat)
    requires LegalRun(START, cfg, events) && i < |Run(START, cfg, events).room.peers|
    requires !Run(START, cfg, events).room.peers[i].sender
    ensures var room := Run(START, cfg, events).room;
            room.peers[i].accepted <==>
              exists j :: 0 <= j < |room.sent| && room.sent[j].msg == Accepted && room.sent[j].to == Some(End(room.peers[i]))
  {
    hide Run, LegalRun, Orderly, Granted, Dismissed;
    StartInv(cfg);
    RunKeeps(START, cfg, events);
    var room := Run(START, cfg, events).room;
    GrantedMeansTold(room.sent, room.peers[i].id);
  }

  /** After a peer was rejected or disconnected it is sent nothing but a closing, and nothing it says
      reaches anybody. */
  lemma DismissalIsFinal(cfg: Config, events: seq<Event>, j: nat, k: nat)
    requires LegalRun(START, cfg, events) && j < k < |Run(START, cfg, events).room.sent|
    requires var d := Run(START, cfg, events).room.sent[j]; d.to.Some? && (d.msg.Rejected? || d.msg.CloseSocket?)
    ensures var sent := Run(START, cfg, events).room.sent;
            && (sent[k].to.Some? && sent[k].to.value.id == sent[j].to.value.id ==> sent[k].msg.CloseSocket?)
            && (sent[k].from.Some? ==> sent[k].from.value.id != sent[j].to.value.id)
  {
    hide Run, LegalRun, Orderly, Granted, Dismissed;
    StartInv(cfg);
    RunKeeps(START, cfg, events);
    var sent := Run(START, cfg, events).room.sent;
    OrderlyAt(sent, k);
    assert sent[..k][j] == sent[j];
    DismissedMeansTold(sent[..k], sent[j].to.value.id);
  }

  /** The event is message `msg` on the socket of peer `k`, the first that uses it. */
  predicate Says(room: State, ev: Event, k: nat, msg: Message) {
    ev.what.Receive? && ev.what.msg == msg && !msg.HelloMsg? && SocketIndex(room.peers, ev.what.ws) == Some(k)
  }

  lemma GrantsOnDemand(sys: Sys, cfg: Config, ev: Event, id: string)
    requires Inv(sys, cfg) && Legal(sys, ev)
    requires id in Granted(Step(sys, cfg, ev).room.sent) && id !in Granted(sys.room.sent)
    ensures exists k :: 0 <= k < |sys.room.peers| && sys.room.peers[k].sender && Says(sys.room, ev, k, AcceptMsg(id))
  {
    hide Roster, LimiterAgrees, SenderHello, ReceiverHello, Obey, Leave, TokenMatches, Granted;
    match ev.what
    case Connect(hint) =>
    case Receive(ws, msg, tokenParam, newId) =>
      var from := SocketIndex(sys.room.peers, ws);
      if msg.HelloMsg? && msg.hello.sender {
        SenderHelloKeeps(sys.room, cfg, ws, msg.hello, newId, ev.now, sys.used);
      } else if msg.HelloMsg? {
        ReceiverHelloKeeps(sys.room, cfg, ws, msg.hello, tokenParam, newId, ev.now, sys.used);
      } else if from.Some? {
        ObeyKeeps(sys.room, from.value, msg, sys.used);
        assert Says(sys.room, ev, from.value, msg);
      }
    case Disconnect(ws) => LeaveKeeps(sys.room, ws, sys.used);
  }

  /** Nobody is told it is accepted unless a sender of the room asked for it: in every run, every accepted id
      was named in an accept on the socket of a sender. */
  lemma {:induction false} AcceptedOnDemand(cfg: Config, events: seq<Event>, id: string) returns (i: nat, k: nat)
    requires LegalRun(START, cfg, events) && id in Granted(Run(START, cfg, events).room.sent)
    ensures i < |events| && var room := Run(START, cfg, events[..i]).room;
            k < |room.peers| && room.peers[k].sender && Says(room, events[i], k, AcceptMsg(id))
    decreases |events|
  {
    hide Granted, Step, Says, Inv, Legal;
    if events == [] {
      NobodyIsGranted();
    }
    var n := |events| - 1;
    var before := events[..n];
    if id in Granted(Run(START, cfg, before).room.sent) {
      i, k := AcceptedOnDemand(cfg, before, id);
      assert before[..i] == events[..i];
    } else {
      StartInv(cfg);
      RunKeeps(START, cfg, before);
      GrantsOnDemand(Run(START, cfg, before), cfg, events[n], id);
      i := n;
      var room := Run(START, cfg, before).room;
      k :| 0 <= k < |room.peers| && room.peers[k].sender && Says(room, events[n], k, AcceptMsg(id));
    }
  }

  lemma NobodyIsGranted()
    ensures Granted(START.room.sent) == map[]
  {}

  /** A sender's accept of a receiver in the map tells it so at once, and its reject of anybody tells that
      peer and removes it; nobody else is touched. */
  lemma CommandsTakeEffect(sys: Sys, cfg: Config, ev: Event, k: nat, i: nat)
    requires Inv(sys, cfg) && k < |sys.room.peers| && i < |sys.room.peers|
    requires sys.room.peers[k].sender && sys.room.peers[i].id != ""
    ensures var room, room', p := sys.room, Step(sys, cfg, ev).room, sys.room.peers[i];
            && (Says(room, ev, k, AcceptMsg(p.id)) && !p.sender ==>
                  room'.sent == room.sent + [To(p, Accepted)] && room'.peers == room.peers[i := p.(accepted := true)])
            && (Says(room, ev, k, RejectMsg(p.id)) ==>
                  room'.sent == room.sent + [To(p, Rejected), To(p, CloseSocket(1000))] && room'.peers == Without(room.peers, i))
  {
    hide LimiterAgrees, Granted, Dismissed, Orderly, Without;
    IndexOfDistinct(sys.room.peers, i);
  }

  lemma IndexOfDistinct(peers: seq<Peer>, i: nat)
    requires i < |peers| && forall j, k :: 0 <= j < k < |peers| ==> peers[j].id != peers[k].id
    ensures IndexOf(peers, peers[i].id) == Some(i)
  {
    var r := IndexOf(peers, peers[i].id);
    assert r.Some?;
  }

  /** `id` was told it is accepted. */
  ghost predicate ToldAccepted(room: State, id: string) {
    exists j :: 0 <= j < |room.sent| && room.sent[j].msg == Accepted && room.sent[j].to == Some(Endpoint(id, false))
  }

  /** The peer a message of `from` for `id` is meant for: by the alias, a receiver means the first sender. */
  function Target(room: State, from: Peer, id: string): Option<nat> {
    if !from.sender && (id == "" || id == "sender") then SenderIndex(room.peers)
    else if id == "" then None
    else IndexOf(room.peers, id)
  }

  /** In every run a message is relayed if and only if the peer it is meant for is in the map and either it
      comes from a receiver by the alias, or it comes from a sender to a sender or a receiver told it is
      accepted, or from a receiver told so itself; and then once, to that peer, and nothing else happens. */
  lemma RelaysExactly(cfg: Config, events: seq<Event>, ev: Event, k: nat, id: string, signal: Signal)
    requires LegalRun(START, cfg, events) && Legal(Run(START, cfg, events), ev)
    requires Says(Run(START, cfg, events).room, ev, k, SignalMsg(id, signal))
    ensures var sys := Run(START, cfg, events); var room, room' := sys.room, Step(sys, cfg, ev).room;
            var from, target := room.peers[k], Target(room, room.peers[k], id);
            && room' == room.(sent := room'.sent)
            && (room'.sent != room.sent <==>
                 (target.Some? && var to := room.peers[target.value];
                  if from.sender then to.sender || ToldAccepted(room, to.id)
                  else id == "" || id == "sender" || ToldAccepted(room, from.id)))
            && (room'.sent != room.sent ==>
                 var to := room.peers[target.value];
                 room'.sent == room.sent + [Relay(to, from, Relayed(if to.sender then from.id else id, signal))])
  {
    hide Run, LegalRun, LimiterAgrees, Granted, Dismissed, Orderly, ToldAccepted;
    StartInv(cfg);
    RunKeeps(START, cfg, events);
    var room := Run(START, cfg, events).room;
    var from, target := room.peers[k], Target(room, room.peers[k], id);
    ToldIsGranted(room.sent, from.id, room);
    if target.Some? {
      ToldIsGranted(room.sent, room.peers[target.value].id, room);
    }
  }

  /** Relaying asks for the accept of whoever a sender speaks to, and of a receiver that speaks. So a receiver
      that was not told it is accepted is relayed a message if and only if a receiver that was names it. */
  lemma UnacceptedIsReachedExactly(cfg: Config, events: seq<Event>, ev: Event, k: nat, id: string, signal: Signal, i: nat)
    requires LegalRun(START, cfg, events) && Legal(Run(START, cfg, events), ev)
    requires var room := Run(START, cfg, events).room;
             && Says(room, ev, k, SignalMsg(id, signal)) && i < |room.peers|
             && !room.peers[i].sender && !ToldAccepted(room, room.peers[i].id)
    ensures var room, room' := Run(START, cfg, events).room, Step(Run(START, cfg, events), cfg, ev).room;
            (exists d :: d in room'.sent[|room.sent|..] && d.to == Some(End(room.peers[i]))) <==>
              (!room.peers[k].sender && ToldAccepted(room, room.peers[k].id)
               && id == room.peers[i].id && id != "" && id != "sender")
  {
    hide Run, LegalRun, LimiterAgrees, Granted, Dismissed, Orderly, ToldAccepted, React;
    StartInv(cfg);
    RunKeeps(START, cfg, events);
    RelaysExactly(cfg, events, ev, k, id, signal);
    var room, room' := Run(START, cfg, events).room, Step(Run(START, cfg, events), cfg, ev).room;
    IndexOfDistinct(room.peers, i);
    if room'.sent != room.sent {
      var to := room.peers[Target(room, room.peers[k], id).value];
      var d := Relay(to, room.peers[k], Relayed(if to.sender then room.peers[k].id else id, signal));
      assert room'.sent[|room.sent|..] == [d];
      assert d in room'.sent[|room.sent|..];
      IndexOfDistinct(room.peers, Target(room, room.peers[k], id).value);
    } else {
      assert room'.sent[|room.sent|..] == [];
    }
  }

  lemma ToldIsGranted(sent: seq<Delivery>, id: string, room: State)
    requires Orderly(sent) && room.sent == sent
    ensures ToldAccepted(room, id) <==> id in Granted(sent)
  {
    hide Orderly, Granted;
    GrantedMeansTold(sent, id);
  }

  lemma {:induction false} ExpelSentGrows(s: State, i: nat)
    requires i <= |s.peers|
    ensures s.sent <= Expel(s, i).sent
    decreases |s.peers| - i
  {
    if i < |s.peers| {
      if s.peers[i].sender {
        ExpelSentGrows(s, i + 1);
      } else {
        ExpelSentGrows(s.(peers := Without(s.peers, i),
                          sent := s.sent + [To(s.peers[i], Rejected), To(s.peers[i], CloseSocket(1000))]), i);
      }
    }
  }

  lemma SentGrows(room: State, cfg: Config, ev: Event)
    ensures room.sent <= React(room, cfg, ev).sent
  {
    hide SenderHello, ReceiverHello, Obey, Leave;
    match ev.what
    case Connect(_) =>
    case Receive(ws, msg, tokenParam, id) =>
      if msg.HelloMsg? {
        HelloSentGrows(room, cfg, ws, msg.hello, tokenParam, id, ev.now);
      } else if SocketIndex(room.peers, ws).Some? {
        ObeySentGrows(room, room.peers[SocketIndex(room.peers, ws).value], msg);
      }
    case Disconnect(ws) => LeaveSentGrows(room, ws);
  }

  lemma HelloSentGrows(s: State, cfg: Config, ws: nat, h: Hello, tokenParam: Option<string>, id: string, now: int)
    ensures s.sent <= SenderHello(s, cfg, ws, h, id, now).sent
    ensures s.sent <= ReceiverHello(s, cfg, ws, h, tokenParam, id, now).sent
  {
    hide TokenMatches, RoomLimiter.Record, Ttl, ExpiryAt;
  }

  lemma ObeySentGrows(s: State, from: Peer, msg: Message)
    ensures s.sent <= Obey(s, from, msg).sent
  {
    hide Expel, Without;
    ExpelSentGrows(s.(token := None, expiresAt := UNSET), 0);
  }

  lemma LeaveSentGrows(s: State, ws: nat)
    ensures s.sent <= Leave(s, ws).sent
  {
    hide CloseEach, Without;
  }

  lemma {:induction false} ToldAcceptedStays(cfg: Config, events: seq<Event>, a: nat, id: string)
    requires a <= |events| && ToldAccepted(Run(START, cfg, events[..a]).room, id)
    ensures ToldAccepted(Run(START, cfg, events).room, id)
    decreases |events|
  {
    hide React;
    var n := |events| - 1;
    if a == |events| {
      assert events[..a] == events;
    } else {
      assert events[..n][..a] == events[..a];
      ToldAcceptedStays(cfg, events[..n], a, id);
      var before := Run(START, cfg, events[..n]).room;
      SentGrows(before, cfg, events[n]);
      var j :| 0 <= j < |before.sent| && before.sent[j].msg == Accepted && before.sent[j].to == Some(Endpoint(id, false));
      assert Run(START, cfg, events).room.sent[j] == before.sent[j];
    }
  }

  /** Main result: in every run, once a sender has accepted a receiver of the room, whatever a sender says to that
      receiver while it is in the room is relayed to it, once. */
  lemma AcceptOpensTheWay(cfg: Config, events: seq<Event>, a: nat, k: nat, i: nat, ev: Event, m: nat, t: nat,
                          signal: Signal)
    requires LegalRun(START, cfg, events) && a < |events|
    requires var room := Run(START, cfg, events[..a]).room;
             && k < |room.peers| && i < |room.peers| && room.peers[k].sender && !room.peers[i].sender
             && room.peers[i].id != "" && Says(room, events[a], k, AcceptMsg(room.peers[i].id))
    requires var id := Run(START, cfg, events[..a]).room.peers[i].id; var sys := Run(START, cfg, events);
             && Legal(sys, ev) && Says(sys.room, ev, m, SignalMsg(id, signal))
             && m < |sys.room.peers| && sys.room.peers[m].sender && t < |sys.room.peers| && sys.room.peers[t].id == id
    ensures var room := Run(START, cfg, events).room;
            !room.peers[t].sender && Step(Run(START, cfg, events), cfg, ev).room.sent
              == room.sent + [Relay(room.peers[t], room.peers[m], Relayed(room.peers[t].id, signal))]
  {
    hide Run, LegalRun, React, LimiterAgrees, Granted, Dismissed, Orderly, Says;
    StartInv(cfg);
    LegalPrefix(cfg, events, a);
    RunKeeps(START, cfg, events[..a]);
    RunKeeps(START, cfg, events);
    var before, sys := Run(START, cfg, events[..a]), Run(START, cfg, events);
    var id := before.room.peers[i].id;
    CommandsTakeEffect(before, cfg, events[a], k, i);
    RunStep(cfg, events, a);
    var after := Run(START, cfg, events[..a + 1]).room;
    assert after.sent[|before.room.sent|] == To(before.room.peers[i], Accepted);
    ToldAcceptedStays(cfg, events, a + 1, id);
    ToldIsGranted(sys.room.sent, id, sys.room);
    IndexOfDistinct(sys.room.peers, t);
    RelaysExactly(cfg, events, ev, m, id, signal);
  }

  lemma {:induction false} LegalPrefix(cfg: Config, events: seq<Event>, a: nat)
    requires LegalRun(START, cfg, events) && a <= |events|
    ensures LegalRun(START, cfg, events[..a])
    decreases |events|
  {
    hide Run, Legal;
    if a == |events| {
      assert events[..a] == events;
    } else {
      LegalPrefix(cfg, events[..|events| - 1], a);
      assert events[..|events| - 1][..a] == events[..a];
    }
  }

  lemma RunStep(cfg: Config, events: seq<Event>, a: nat)
    requires a < |events|
    ensures Run(START, cfg, events[..a + 1]) == Step(Run(START, cfg, events[..a]), cfg, events[a])
  {
    hide Step;
    RunAppended(START, cfg, events[..a], events[a]);
    assert events[..a + 1] == events[..a] + [events[a]];
  }

  /** Whatever a sender is relayed names the peer it comes from, whoever the message claimed to be from;
      what a receiver is relayed names the receiver. */
  lemma RelaysNameTheirPeer(cfg: Config, events: seq<Event>, k: nat)
    requires LegalRun(START, cfg, events) && k < |Run(START, cfg, events).room.sent|
    requires Run(START, cfg, events).room.sent[k].msg.Relayed?
    ensures var d := Run(START, cfg, events).room.sent[k];
            && d.to.Some? && d.from.Some?
            && d.msg.peer == if d.to.value.sender then d.from.value.id else d.to.value.id
  {
    hide Run, LegalRun, Orderly, Granted, Dismissed;
    StartInv(cfg);
    RunKeeps(START, cfg, events);
    OrderlyAt(Run(START, cfg, events).room.sent, k);
  }

  lemma {:induction false} CloseEachReaches(peers: seq<Peer>, i: nat)
    requires i < |peers|
    ensures To(peers[i], CloseSocket(1001)) in CloseEach(peers)
  {
    if i < |peers| - 1 {
      CloseEachReaches(peers[..|peers| - 1], i);
    }
  }

  /** When a sender's socket closes, a room that is not reusable closes everybody else's and is left empty;
      otherwise, and when a receiver's closes, everybody else stays and only a sender may hear of it. */
  lemma ClosingASocket(sys: Sys, cfg: Config, ev: Event, i: nat)
    requires Inv(sys, cfg) && ev.what.Disconnect? && SocketIndex(sys.room.peers, ev.what.ws) == Some(i)
    ensures var room, room' := sys.room, Step(sys, cfg, ev).room;
            if room.peers[i].sender && !room.reusable then
              room'.peers == [] && forall k :: 0 <= k < |room.peers| && k != i ==> To(room.peers[k], CloseSocket(1001)) in room'.sent
            else
              (forall k :: 0 <= k < |room.peers| ==> (room.peers[k] in room'.peers <==> k != i))
              && forall d :: d in room'.sent && d !in room.sent ==> d.to.Some? && d.to.value.sender && d.msg == PeerGone(room.peers[i].id)
  {
    hide CloseEach, Roster, LimiterAgrees, Without, NotifySender;
    var peers := sys.room.peers;
    RosterIsDistinct(sys);
    WithoutMembers(peers, i);
    NotifyTells(sys.room.(peers := Without(peers, i)), PeerGone(peers[i].id));
    forall k | 0 <= k < |peers| && k != i ensures To(peers[k], CloseSocket(1001)) in CloseEach(Without(peers, i)) {
      CloseEachReaches(Without(peers, i), if k < i then k else k - 1);
    }
  }

  lemma RosterIsDistinct(sys: Sys)
    requires Roster(sys.room.peers, sys.room.sent, sys.used)
    ensures forall j, k :: 0 <= j < k < |sys.room.peers| ==> sys.room.peers[j].id != sys.room.peers[k].id
  {}

  lemma WithoutMembers(peers: seq<Peer>, i: nat)
    requires i < |peers| && forall j, k :: 0 <= j < k < |peers| ==> peers[j].id != peers[k].id
    ensures var rest := Without(peers, i);
            && |rest| == |peers| - 1
            && (forall k :: 0 <= k < |peers| && k != i ==> peers[k] == rest[if k < i then k else k - 1])
            && (forall k :: 0 <= k < |peers| ==> (peers[k] in rest <==> k != i))
  {}

  lemma NotifyTells(s: State, msg: Out)
    ensures var s' := NotifySender(s, msg);
            && s'.peers == s.peers
            && forall d :: d in s'.sent && d !in s.sent ==> d.to.Some? && d.to.value.sender && d.msg == msg
  {}

  // ----- joining -----

  /** A text is the room's token, up to the case of its letters. */
  predicate Names(room: State, t: string) {
    room.token.Some? && room.token.value != "" && |t| == |room.token.value|
    && forall i :: 0 <= i < |t| ==> Token.ToUpper(t[i]) == room.token.value[i]
  }

  lemma TokenMatchesExactly(room: State, h: Hello, tokenParam: Option<string>)
    ensures var t := match h.token case Some(x) => x case None => match tokenParam case Some(x) => x case None => "";
            TokenMatches(room, h, tokenParam) <==> Names(room, t)
  {
    hide Token.ToUpper;
    var t := match h.token case Some(x) => x case None => match tokenParam case Some(x) => x case None => "";
    var u := Token.Upper(t);
    assert Claimed(h, tokenParam) == u;
    if Names(room, t) {
      assert u == room.token.value;
    }
  }

  /** In every run, a receiver hello joins exactly if it names the room's token, before it expires,
      and no lockout that the whole history of failures calls for is running. */
  lemma JoinsExactly(cfg: Config, events: seq<Event>, ev: Event)
    requires LegalRun(START, cfg, events) && Legal(Run(START, cfg, events), ev) && IsHello(ev, false)
    ensures var sys := Run(START, cfg, events);
            var t := match ev.what.msg.hello.token case Some(x) => x case None => match ev.what.tokenParam case Some(x) => x case None => "";
            Step(sys, cfg, ev).room.peers != sys.room.peers <==>
              (Names(sys.room, t)
               && !Past(ev.now, sys.room.expiresAt) && RoomLimiter.Until(sys.failures, cfg.limits) <= ev.now)
  {
    hide Run, LegalRun, Roster, ReceiverHello, TokenMatches, RoomLimiter.Until, RoomLimiter.After, RoomLimiter.Record, Names;
    StartInv(cfg);
    RunKeeps(START, cfg, events);
    var sys := Run(START, cfg, events);
    TokenMatchesExactly(sys.room, ev.what.msg.hello, ev.what.tokenParam);
    RoomLimiter.LimiterRefinesHistory(sys.failures, cfg.limits);
    ReceiverHelloFrame(sys.room, cfg, ev.what.ws, ev.what.msg.hello, ev.what.tokenParam, ev.what.id, ev.now, sys.used);
  }

  /** A receiver that joins is not accepted, and exactly one sender is told of it, if there is one. */
  lemma JoinIsAnnounced(sys: Sys, cfg: Config, ev: Event)
    requires Inv(sys, cfg) && Legal(sys, ev) && IsHello(ev, false)
    ensures var room, room', h := sys.room, Step(sys, cfg, ev).room, ev.what.msg.hello;
            room'.peers != room.peers ==>
              var name := match h.name case None => "" case Some(n) => n;
              var fingerprint := match h.fingerprint case None => "" case Some(f) => f;
              && room'.peers == room.peers + [Peer(ev.what.id, false, name, h.fingerprint, ev.what.ws, false)]
              && (if NoSender(room.peers) then room'.sent == room.sent
                  else exists s :: s in room.peers && s.sender && room'.sent == room.sent + [To(s, Pending(ev.what.id, name, fingerprint))])
  {
    hide Roster, LimiterAgrees, TokenMatches, RoomLimiter.Record, Welcome;
    WelcomeTells(sys.room, ev.what.ws, ev.what.msg.hello, ev.what.id);
  }

  lemma WelcomeTells(room: State, ws: nat, h: Hello, id: string)
    ensures var room' := Welcome(room, ws, h, id);
            var name := match h.name case None => "" case Some(n) => n;
            var fingerprint := match h.fingerprint case None => "" case Some(f) => f;
            && room'.peers == room.peers + [Peer(id, false, name, h.fingerprint, ws, false)]
            && (if NoSender(room.peers) then room'.sent == room.sent
                else exists s :: s in room.peers && s.sender && room'.sent == room.sent + [To(s, Pending(id, name, fingerprint))])
  {
    var room' := Welcome(room, ws, h, id);
    var r := SenderIndex(room'.peers);
    if r.Some? {
      assert room'.peers[r.value] in room.peers;
    } else {
      assert forall i :: 0 <= i < |room.peers| ==> room.peers[i] == room'.peers[i];
    }
  }

  ghost predicate NoSender(peers: seq<Peer>) {
    forall i :: 0 <= i < |peers| ==> !peers[i].sender
  }

  // ----- revocation -----

  /** A revocation by a sender closes the room. */
  lemma RevocationCloses(cfg: Config, events: seq<Event>, ev: Event)
    requires LegalRun(START, cfg, events) && Legal(Run(START, cfg, events), ev)
    requires Revokes(Run(START, cfg, events).room, ev)
    ensures Closed(Step(Run(START, cfg, events), cfg, ev).room)
  {
    hide Run, LegalRun, React, Roster, LimiterAgrees;
    StartInv(cfg);
    RunKeeps(START, cfg, events);
    StepFrame(Run(START, cfg, events), cfg, ev);
  }

  /** Main result: a closed room stays closed until a sender says hello, whatever happens, even when a
      connection makes it adopt its token again. */
  lemma {:induction false} RevocationLasts(sys: Sys, cfg: Config, events: seq<Event>)
    requires Inv(sys, cfg) && Closed(sys.room) && LegalRun(sys, cfg, events)
    requires forall i :: 0 <= i < |events| ==> !IsHello(events[i], true)
    ensures Closed(Run(sys, cfg, events).room)
    decreases |events|
  {
    hide Roster, LimiterAgrees, React, Closed, TokenMatches;
    if events != [] {
      var before, ev := events[..|events| - 1], events[|events| - 1];
      RevocationLasts(sys, cfg, before);
      RunKeeps(sys, cfg, before);
      StepFrame(Run(sys, cfg, before), cfg, ev);
    }
  }

  /** A closed room turns away every receiver, with the right token or not, and tells nobody else. */
  lemma ClosedTurnsAway(sys: Sys, cfg: Config, ev: Event)
    requires Inv(sys, cfg) && Closed(sys.room) && Legal(sys, ev) && IsHello(ev, false)
    ensures var room' := Step(sys, cfg, ev).room;
            && room'.peers == sys.room.peers
            && room'.sent == sys.room.sent + [ToSocket(ev.what.ws, TokenInvalid), ToSocket(ev.what.ws, CloseSocket(1008))]
  {
    hide Roster, LimiterAgrees, TokenMatches, RoomLimiter.Record;
  }

  /** And no longer than that: once a connection carried the token and a sender said hello, the token
      admits receivers again, unless they are locked out. */
  lemma HelloReopens(sys: Sys, cfg: Config, connect: Event, hello: Event, ev: Event)
    requires Inv(sys, cfg) && Closed(sys.room) && LegalRun(sys, cfg, [connect, hello, ev])
    requires connect.what.Connect? && connect.what.hint.Some? && connect.what.hint.value != ""
    requires IsHello(hello, true) && IsHello(ev, false)
    requires Some(Claimed(ev.what.msg.hello, ev.what.tokenParam)) == connect.what.hint
    ensures var expiresAt := ExpiryAt(hello.now, Ttl(cfg, hello.what.msg.hello));
            var joined := Run(sys, cfg, [connect, hello, ev]).room.peers;
            (exists p :: p in joined && !p.sender) <==>
              !Past(ev.now, expiresAt) && sys.room.limiter.lockedOutUntil <= ev.now
  {
    hide Roster, LimiterAgrees, React, RoomLimiter.Record, TokenMatches, Legal;
    var s1 := Step(sys, cfg, connect);
    var s2 := Step(s1, cfg, hello);
    RunAppended(sys, cfg, [], connect);
    RunAppended(sys, cfg, [connect], hello);
    RunAppended(sys, cfg, [connect, hello], ev);
    assert [] + [connect] == [connect] && [connect] + [hello] == [connect, hello] && [connect, hello] + [ev] == [connect, hello, ev];
    StepKeeps(sys, cfg, connect);
    StepKeeps(s1, cfg, hello);
    HelloAfterConnect(sys, cfg, connect, hello);
    JoinsEmptyRoom(s2, cfg, ev);
    HintMatches(s2.room, ev);
  }

  lemma HelloAfterConnect(sys: Sys, cfg: Config, connect: Event, hello: Event)
    requires Closed(sys.room) && connect.what.Connect? && connect.what.hint.Some? && connect.what.hint.value != "" && IsHello(hello, true)
    ensures var room := Step(Step(sys, cfg, connect), cfg, hello).room;
            && room.token == connect.what.hint && room.limiter == sys.room.limiter && NoReceivers(room.peers)
            && room.expiresAt == ExpiryAt(hello.now, Ttl(cfg, hello.what.msg.hello))
  {}

  lemma HintMatches(room: State, ev: Event)
    requires IsHello(ev, false) && room.token.Some? && room.token.value != ""
    requires Claimed(ev.what.msg.hello, ev.what.tokenParam) == room.token.value
    ensures TokenMatches(room, ev.what.msg.hello, ev.what.tokenParam)
  {}

  lemma JoinsEmptyRoom(sys: Sys, cfg: Config, ev: Event)
    requires Inv(sys, cfg) && NoReceivers(sys.room.peers) && Legal(sys, ev) && IsHello(ev, false)
    ensures (exists p :: p in React(sys.room, cfg, ev).peers && !p.sender) <==>
      (TokenMatches(sys.room, ev.what.msg.hello, ev.what.tokenParam)
       && !Past(ev.now, sys.room.expiresAt) && sys.room.limiter.lockedOutUntil <= ev.now)
  {
    hide TokenMatches, RoomLimiter.Record, Roster, LimiterAgrees;
    ReceiverHelloFrame(sys.room, cfg, ev.what.ws, ev.what.msg.hello, ev.what.tokenParam, ev.what.id, ev.now, sys.used);
    var room' := React(sys.room, cfg, ev);
    if |room'.peers| == |sys.room.peers| + 1 {
      assert !room'.peers[|sys.room.peers|].sender;
    }
  }
}

/** The room's sockets, when each says hello at most once: what a dismissal means for a socket rather than for
    one of its peer ids. */
module RoomSockets {
  import opened Common
  import opened Room
  import opened RoomSafety
  import RoomLimiter

  predicate Dismisses(msg: Out) { msg.Rejected? || msg.CloseSocket? }

  /** The sockets on which a rejection or a closing was sent. */
  function Silenced(sent: seq<Delivery>): set<nat> {
    if sent == [] then {}
    else
      var n := |sent| - 1;
      Silenced(sent[..n]) + if Dismisses(sent[n].msg) then {sent[n].ws} else {}
  }

  /** Nothing but closings follows on such a socket. */
  predicate Hushed(sent: seq<Delivery>) {
    sent == []
    || (Hushed(sent[..|sent| - 1])
        && (sent[|sent| - 1].ws in Silenced(sent[..|sent| - 1]) ==> sent[|sent| - 1].msg.CloseSocket?))
  }

  lemma Appended(sent: seq<Delivery>, d: Delivery)
    ensures Silenced(sent + [d]) == Silenced(sent) + if Dismisses(d.msg) then {d.ws} else {}
    ensures Hushed(sent + [d]) == (Hushed(sent) && (d.ws in Silenced(sent) ==> d.msg.CloseSocket?))
  {
    assert (sent + [d])[..|sent|] == sent;
  }

  /** Every peer of the map has a socket of its own, on which it has not been dismissed; `said` are the sockets
      that said hello. */
  ghost predicate Sockets(peers: seq<Peer>, sent: seq<Delivery>, said: set<nat>) {
    && (forall i, j :: 0 <= i < j < |peers| ==> peers[i].ws != peers[j].ws)
    && (forall i :: 0 <= i < |peers| ==> peers[i].ws in said && peers[i].ws !in Silenced(sent))
    && Silenced(sent) <= said && Hushed(sent)
  }

  lemma SayKeeps(peers: seq<Peer>, sent: seq<Delivery>, said: set<nat>, d: Delivery)
    requires Sockets(peers, sent, said) && d.ws !in Silenced(sent) && !Dismisses(d.msg)
    ensures Sockets(peers, sent + [d], said)
  {
    hide Silenced, Hushed;
    Appended(sent, d);
  }

  lemma DismissKeeps(peers: seq<Peer>, sent: seq<Delivery>, said: set<nat>, d: Delivery)
    requires Sockets(peers, sent, said) && d.ws in said && Dismisses(d.msg)
    requires d.ws in Silenced(sent) ==> d.msg.CloseSocket?
    requires forall i :: 0 <= i < |peers| ==> peers[i].ws != d.ws
    ensures Sockets(peers, sent + [d], said)
  {
    hide Silenced, Hushed;
    Appended(sent, d);
  }

  lemma TwoKeep(peers: seq<Peer>, sent: seq<Delivery>, said: set<nat>, a: Delivery, b: Delivery)
    requires Sockets(peers, sent, said) && a.ws in said && a.ws !in Silenced(sent) && a.ws == b.ws && b.msg.CloseSocket?
    requires forall i :: 0 <= i < |peers| ==> peers[i].ws != a.ws
    ensures Sockets(peers, sent + [a, b], said)
  {
    hide Silenced, Hushed, Sockets;
    if Dismisses(a.msg) {
      DismissKeeps(peers, sent, said, a);
    } else {
      SayKeeps(peers, sent, said, a);
    }
    DismissKeeps(peers, sent + [a], said, b);
    assert sent + [a] + [b] == sent + [a, b];
  }

  lemma RemoveKeeps(peers: seq<Peer>, sent: seq<Delivery>, said: set<nat>, i: nat)
    requires Sockets(peers, sent, said) && i < |peers|
    ensures Sockets(Without(peers, i), sent, said)
    ensures forall k :: 0 <= k < |Without(peers, i)| ==> Without(peers, i)[k].ws != peers[i].ws
  {
    hide Silenced, Hushed;
    assert forall k :: 0 <= k < |peers| - 1 ==> Without(peers, i)[k] == peers[if k < i then k else k + 1];
  }

  /** A peer is told it is dismissed and removed. */
  lemma ExpelOneKeeps(peers: seq<Peer>, sent: seq<Delivery>, said: set<nat>, i: nat)
    requires Sockets(peers, sent, said) && i < |peers|
    ensures Sockets(Without(peers, i), sent + [To(peers[i], Rejected), To(peers[i], CloseSocket(1000))], said)
  {
    hide Silenced, Hushed, Without;
    RemoveKeeps(peers, sent, said, i);
    TwoKeep(Without(peers, i), sent, said, To(peers[i], Rejected), To(peers[i], CloseSocket(1000)));
  }

  lemma {:induction false} ExpelKeeps(s: State, i: nat, said: set<nat>)
    requires i <= |s.peers| && Sockets(s.peers, s.sent, said)
    ensures Sockets(Expel(s, i).peers, Expel(s, i).sent, said)
    decreases |s.peers| - i
  {
    hide Sockets;
    if i < |s.peers| {
      if s.peers[i].sender {
        ExpelKeeps(s, i + 1, said);
      } else {
        ExpelOneKeeps(s.peers, s.sent, said, i);
        ExpelKeeps(s.(peers := Without(s.peers, i),
                      sent := s.sent + [To(s.peers[i], Rejected), To(s.peers[i], CloseSocket(1000))]), i, said);
      }
    }
  }

  lemma {:induction false} CloseEachKeeps(peers: seq<Peer>, sent: seq<Delivery>, said: set<nat>)
    requires Sockets([], sent, said) && forall i :: 0 <= i < |peers| ==> peers[i].ws in said
    ensures Sockets([], sent + CloseEach(peers), said)
  {
    hide Silenced, Hushed, Sockets;
    if peers == [] {
      assert sent + CloseEach(peers) == sent;
    } else {
      var p, rest := peers[|peers| - 1], peers[..|peers| - 1];
      CloseEachKeeps(rest, sent, said);
      DismissKeeps([], sent + CloseEach(rest), said, To(p, CloseSocket(1001)));
      assert sent + CloseEach(rest) + [To(p, CloseSocket(1001))] == sent + CloseEach(peers);
    }
  }

  lemma NotifyKeeps(s: State, said: set<nat>, msg: Out)
    requires Sockets(s.peers, s.sent, said) && !Dismisses(msg)
    ensures var s' := NotifySender(s, msg); s'.peers == s.peers && Sockets(s.peers, s'.sent, said)
  {
    hide Silenced, Hushed;
    match SenderIndex(s.peers)
    case None =>
    case Some(i) => SayKeeps(s.peers, s.sent, said, To(s.peers[i], msg));
  }

  lemma ForwardKeeps(s: State, k: nat, id: string, signal: Signal, said: set<nat>)
    requires k < |s.peers| && Sockets(s.peers, s.sent, said)
    ensures var s' := Forward(s, s.peers[k], id, signal); s'.peers == s.peers && Sockets(s.peers, s'.sent, said)
  {
    hide Silenced, Hushed;
    var s' := Forward(s, s.peers[k], id, signal);
    if s'.sent != s.sent {
      var d := s'.sent[|s.sent|];
      assert s'.sent == s.sent + [d];
      SayKeeps(s.peers, s.sent, said, d);
    }
  }

  lemma LeaveKeeps(s: State, ws: nat, said: set<nat>)
    requires Sockets(s.peers, s.sent, said)
    ensures Sockets(Leave(s, ws).peers, Leave(s, ws).sent, said)
  {
    hide Silenced, Hushed, CloseEach, NotifySender, Without;
    match SocketIndex(s.peers, ws)
    case None =>
    case Some(i) =>
      var s1 := s.(peers := Without(s.peers, i));
      RemoveKeeps(s.peers, s.sent, said, i);
      NotifyKeeps(s1, said, PeerGone(s.peers[i].id));
      CloseEachKeeps(s1.peers, s.sent, said);
  }

  lemma AcceptKeeps(s: State, i: nat, said: set<nat>)
    requires Sockets(s.peers, s.sent, said) && i < |s.peers|
    ensures Sockets(s.peers[i := s.peers[i].(accepted := true)], s.sent + [To(s.peers[i], Accepted)], said)
  {
    hide Silenced, Hushed;
    SayKeeps(s.peers, s.sent, said, To(s.peers[i], Accepted));
  }

  lemma ObeyKeeps(s: State, k: nat, msg: Message, said: set<nat>)
    requires k < |s.peers| && Sockets(s.peers, s.sent, said)
    ensures var s' := Obey(s, s.peers[k], msg); Sockets(s'.peers, s'.sent, said)
  {
    hide Sockets, Without, Expel, Forward;
    match msg
    case AcceptMsg(id) =>
      var r := IndexOf(s.peers, id);
      if r.Some? {
        AcceptKeeps(s, r.value, said);
      }
    case RejectMsg(id) =>
      var r := IndexOf(s.peers, id);
      if r.Some? {
        ExpelOneKeeps(s.peers, s.sent, said, r.value);
      }
    case RevokeMsg => ExpelKeeps(s.(token := None, expiresAt := UNSET), 0, said);
    case SignalMsg(id, signal) => ForwardKeeps(s, k, id, signal, said);
    case _ =>
  }

  lemma SaidGrows(peers: seq<Peer>, sent: seq<Delivery>, said: set<nat>, ws: nat)
    requires Sockets(peers, sent, said) && ws !in said
    ensures Sockets(peers, sent, said + {ws}) && ws !in Silenced(sent)
    ensures forall i :: 0 <= i < |peers| ==> peers[i].ws != ws
  {
    hide Silenced, Hushed;
  }

  lemma JoinKeeps(peers: seq<Peer>, sent: seq<Delivery>, said: set<nat>, p: Peer)
    requires Sockets(peers, sent, said) && p.ws !in said
    ensures Sockets(peers + [p], sent, said + {p.ws})
  {
    hide Silenced, Hushed;
  }

  lemma HelloKeeps(s: State, cfg: Config, ws: nat, h: Hello, tokenParam: Option<string>, id: string, now: int, said: set<nat>)
    requires Sockets(s.peers, s.sent, said) && ws !in said
    ensures var s' := Handle(s, cfg, ws, HelloMsg(h), tokenParam, id, now); Sockets(s'.peers, s'.sent, said + {ws})
  {
    hide Sockets, Silenced, Hushed, NotifySender, TokenMatches, RoomLimiter.Record, ExpiryAt, Ttl;
    SaidGrows(s.peers, s.sent, said, ws);
    var name := match h.name case None => "" case Some(n) => n;
    if h.sender {
      var s' := SenderHello(s, cfg, ws, h, id, now);
      JoinKeeps(s.peers, s.sent, said, Peer(id, true, name, None, ws, true));
      SayKeeps(s'.peers, s.sent, said + {ws}, s'.sent[|s.sent|]);
    } else {
      TwoKeep(s.peers, s.sent, said + {ws}, ToSocket(ws, TokenInvalid), ToSocket(ws, CloseSocket(1008)));
      var retry := (s.limiter.lockedOutUntil - now + 999) / 1000;
      TwoKeep(s.peers, s.sent, said + {ws}, ToSocket(ws, TokenLockedOut(retry)), ToSocket(ws, CloseSocket(1013)));
      var p := Peer(id, false, name, h.fingerprint, ws, false);
      JoinKeeps(s.peers, s.sent, said, p);
      NotifyKeeps(s.(peers := s.peers + [p]), said + {ws},
                  Pending(id, name, match h.fingerprint case None => "" case Some(f) => f));
    }
  }

  // ----- runs -----

  predicate SaysHello(ev: Event) {
    ev.what.Receive? && ev.what.msg.HelloMsg?
  }

  function Said(events: seq<Event>): set<nat> {
    if events == [] then {}
    else
      var n := |events| - 1;
      Said(events[..n]) + if SaysHello(events[n]) then {events[n].what.ws} else {}
  }

  predicate OneHelloEach(events: seq<Event>) {
    forall i :: 0 <= i < |events| && SaysHello(events[i]) ==> events[i].what.ws !in Said(events[..i])
  }

  lemma {:induction false} RunKeepsSockets(cfg: Config, events: seq<Event>)
    requires OneHelloEach(events)
    ensures var room := Run(START, cfg, events).room; Sockets(room.peers, room.sent, Said(events))
    decreases |events|
  {
    hide Sockets, Handle, Leave, React;
    if events == [] {
      NoSockets();
    } else {
      var n := |events| - 1;
      assert forall i :: 0 <= i < n ==> events[..n][..i] == events[..i];
      RunKeepsSockets(cfg, events[..n]);
      StepKeepsSockets(Run(START, cfg, events[..n]), cfg, events[n], Said(events[..n]));
    }
  }

  lemma NoSockets()
    ensures Sockets([], [], {})
  {}

  lemma StepKeepsSockets(sys: Sys, cfg: Config, ev: Event, said: set<nat>)
    requires Sockets(sys.room.peers, sys.room.sent, said) && (SaysHello(ev) ==> ev.what.ws !in said)
    ensures var room := React(sys.room, cfg, ev);
            Sockets(room.peers, room.sent, said + if SaysHello(ev) then {ev.what.ws} else {})
  {
    hide Sockets, SenderHello, ReceiverHello, Obey, Leave;
    assert said + {} == said;
    match ev.what
    case Connect(_) =>
    case Receive(ws, msg, tokenParam, id) =>
      var from := SocketIndex(sys.room.peers, ws);
      if msg.HelloMsg? {
        HelloKeeps(sys.room, cfg, ws, msg.hello, tokenParam, id, ev.now, said);
      } else if from.Some? {
        ObeyKeeps(sys.room, from.value, msg, said);
      }
    case Disconnect(ws) => LeaveKeeps(sys.room, ws, said);
  }

  lemma {:induction false} SilencedMeansTold(sent: seq<Delivery>, ws: nat)
    ensures ws in Silenced(sent) <==> exists j :: 0 <= j < |sent| && Dismisses(sent[j].msg) && sent[j].ws == ws
  {
    hide Dismisses;
    if sent != [] {
      SilencedMeansTold(sent[..|sent| - 1], ws);
    }
  }

  lemma {:induction false} HushedAt(sent: seq<Delivery>, k: nat)
    requires Hushed(sent) && k < |sent|
    ensures sent[k].ws in Silenced(sent[..k]) ==> sent[k].msg.CloseSocket?
    decreases |sent|
  {
    hide Silenced;
    var n := |sent| - 1;
    if k < n {
      HushedAt(sent[..n], k);
      assert sent[..n][..k] == sent[..k];
    }
  }

  /** Main result: in every run in which each socket says hello at most once, a socket on which a rejection or a
      closing was sent gets nothing but closings from then on, and nothing said on it has any effect. */
  lemma DismissedSocketIsSilent(cfg: Config, events: seq<Event>, j: nat)
    requires OneHelloEach(events) && j < |Run(START, cfg, events).room.sent| && Dismisses(Run(START, cfg, events).room.sent[j].msg)
    ensures var room := Run(START, cfg, events).room; var ws := room.sent[j].ws;
            && (forall k :: j < k < |room.sent| && room.sent[k].ws == ws ==> room.sent[k].msg.CloseSocket?)
            && (forall ev: Event :: OneHelloEach(events + [ev]) && ev.what.Receive? && ev.what.ws == ws ==> React(room, cfg, ev) == room)
  {
    hide Run, Silenced, Hushed, Said;
    RunKeepsSockets(cfg, events);
    var room := Run(START, cfg, events).room;
    var ws := room.sent[j].ws;
    SilencedMeansTold(room.sent, ws);
    forall k | j < k < |room.sent| && room.sent[k].ws == ws ensures room.sent[k].msg.CloseSocket? {
      HushedAt(room.sent, k);
      SilencedMeansTold(room.sent[..k], ws);
      assert room.sent[..k][j] == room.sent[j];
    }
    forall ev: Event | OneHelloEach(events + [ev]) && ev.what.Receive? && ev.what.ws == ws ensures React(room, cfg, ev) == room {
      assert (events + [ev])[|events|] == ev && (events + [ev])[..|events|] == events;
    }
  }
}

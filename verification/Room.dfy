/** One sharing room of the signaling server (backend/src/room.ts:77-346).

    Each handler is one atomic step with one clock reading. A socket is a number; what the room sends
    is kept in order in `sent`. A missing peer id is the empty string, which the handlers treat the
    same. Fresh ids and the clock are arguments. */
module Room {
  import opened Common
  import opened RoomLimiter
  import FlatObject
  import Token

  /** A JavaScript number, or what arithmetic makes of any other JSON value. */
  datatype Number = Finite(value: real) | Infinite(positive: bool) | NaN

  datatype Config = Config(maxTtlMinutes: real, limits: Limits)

  datatype Peer = Peer(id: string, sender: bool, name: string, fingerprint: Option<string>, ws: nat, accepted: bool)

  datatype Hello = Hello(sender: bool, name: Option<string>, token: Option<string>, ttlMinutes: Option<Number>,
                         reusable: bool, fingerprint: Option<string>)

  predicate IsSignal(fields: seq<FlatObject.Field>) {
    FlatObject.Lookup(fields, "type") in {Some("sdp"), Some("ice")}
  }

  /** All the fields of a session description or candidate, in their order, each value as JSON prints it. */
  type Signal = fields: seq<FlatObject.Field> | IsSignal(fields) witness [FlatObject.Field("type", FlatObject.Str("sdp"))]

  datatype Message =
    | HelloMsg(hello: Hello)
    | AcceptMsg(peer: string)
    | RejectMsg(peer: string)
    | RevokeMsg
    | SignalMsg(peer: string, signal: Signal)
    | OtherMsg

  datatype Out =
    | TokenIs(token: Option<string>)
    | TokenInvalid
    | TokenLockedOut(retryAfter: int)
    | Pending(peer: string, name: string, fingerprint: string)
    | Accepted
    | Rejected
    | PeerGone(peer: string)
    | Relayed(peer: string, signal: Signal)  // printed with `peer` for the signal's peer id
    | CloseSocket(code: int)

  datatype Endpoint = Endpoint(id: string, sender: bool)

  /** Something sent to a socket: as whom the room addressed it, and for a relay on whose behalf. */
  datatype Delivery = Delivery(ws: nat, to: Option<Endpoint>, from: Option<Endpoint>, msg: Out)

  datatype State = State(token: Option<string>, expiresAt: Number, reusable: bool, peers: seq<Peer>,
                         limiter: Limiter, sent: seq<Delivery>)

  const UNSET := Finite(0.0)

  const EMPTY := State(None, UNSET, false, [], RoomLimiter.START, [])

  function End(p: Peer): Endpoint { Endpoint(p.id, p.sender) }

  function To(p: Peer, msg: Out): Delivery { Delivery(p.ws, Some(End(p)), None, msg) }

  function Relay(p: Peer, from: Peer, msg: Out): Delivery { Delivery(p.ws, Some(End(p)), Some(End(from)), msg) }

  function ToSocket(ws: nat, msg: Out): Delivery { Delivery(ws, None, None, msg) }

  function IndexOf(peers: seq<Peer>, id: string): (r: Option<nat>)
    ensures r.Some? ==> r.value < |peers| && peers[r.value].id == id && forall i :: 0 <= i < r.value ==> peers[i].id != id
    ensures r.None? ==> forall i :: 0 <= i < |peers| ==> peers[i].id != id
  {
    if peers == [] then None
    else if peers[0].id == id then Some(0)
    else match IndexOf(peers[1..], id) case None => None case Some(i) => Some(i + 1)
  }

  function SenderIndex(peers: seq<Peer>): (r: Option<nat>)
    ensures r.Some? ==> r.value < |peers| && peers[r.value].sender && forall i :: 0 <= i < r.value ==> !peers[i].sender
    ensures r.None? ==> forall i :: 0 <= i < |peers| ==> !peers[i].sender
  {
    if peers == [] then None
    else if peers[0].sender then Some(0)
    else match SenderIndex(peers[1..]) case None => None case Some(i) => Some(i + 1)
  }

  function SocketIndex(peers: seq<Peer>, ws: nat): (r: Option<nat>)
    ensures r.Some? ==> r.value < |peers| && peers[r.value].ws == ws && forall i :: 0 <= i < r.value ==> peers[i].ws != ws
    ensures r.None? ==> forall i :: 0 <= i < |peers| ==> peers[i].ws != ws
  {
    if peers == [] then None
    else if peers[0].ws == ws then Some(0)
    else match SocketIndex(peers[1..], ws) case None => None case Some(i) => Some(i + 1)
  }

  function Without(peers: seq<Peer>, i: nat): seq<Peer>
    requires i < |peers|
  {
    peers[..i] + peers[i + 1..]
  }

  function NotifySender(s: State, msg: Out): State {
    match SenderIndex(s.peers)
    case None => s
    case Some(i) => s.(sent := s.sent + [To(s.peers[i], msg)])
  }

  // ----- the handlers -----

  /** The room's name is adopted as its token whenever a connection carries another one. */
  function Adopt(s: State, hint: Option<string>): State {
    if hint.Some? && hint.value != "" && s.token != hint then s.(token := hint) else s
  }

  /** `Math.min`. */
  function Least(a: Number, b: real): Number {
    match a
    case Finite(x) => if x < b then a else Finite(b)
    case Infinite(positive) => if positive then Finite(b) else a
    case NaN => NaN
  }

  function Ttl(cfg: Config, h: Hello): Number {
    Least(match h.ttlMinutes case None => Finite(30.0) case Some(t) => t, cfg.maxTtlMinutes)
  }

  function ExpiryAt(now: int, minutes: Number): Number {
    match minutes case Finite(m) => Finite(now as real + m * 60_000.0) case _ => minutes
  }

  /** `!expiresAt` */
  predicate Unset(expiresAt: Number) {
    expiresAt == Finite(0.0) || expiresAt == NaN
  }

  /** `now > expiresAt` */
  predicate Past(now: int, expiresAt: Number) {
    match expiresAt
    case Finite(x) => now as real > x
    case Infinite(positive) => !positive
    case NaN => false
  }

  function SenderHello(s: State, cfg: Config, ws: nat, h: Hello, id: string, now: int): State {
    var s1 := if !Unset(s.expiresAt) then s else s.(expiresAt := ExpiryAt(now, Ttl(cfg, h)), reusable := h.reusable);
    var p := Peer(id, true, match h.name case None => "" case Some(n) => n, None, ws, true);
    s1.(peers := s1.peers + [p], sent := s1.sent + [ToSocket(ws, TokenIs(s1.token))])
  }

  function Claimed(h: Hello, tokenParam: Option<string>): string {
    Token.Upper(match h.token case Some(t) => t case None => match tokenParam case Some(t) => t case None => "")
  }

  predicate TokenMatches(s: State, h: Hello, tokenParam: Option<string>) {
    s.token.Some? && s.token.value != "" && Claimed(h, tokenParam) == s.token.value
  }

  function ReceiverHello(s: State, cfg: Config, ws: nat, h: Hello, tokenParam: Option<string>, id: string, now: int): State {
    if !TokenMatches(s, h, tokenParam) then
      s.(limiter := Record(s.limiter, cfg.limits, now),
         sent := s.sent + [ToSocket(ws, TokenInvalid), ToSocket(ws, CloseSocket(1008))])
    else if Past(now, s.expiresAt) then
      s.(sent := s.sent + [ToSocket(ws, TokenInvalid), ToSocket(ws, CloseSocket(1008))])
    else if now < s.limiter.lockedOutUntil then
      var retry := (s.limiter.lockedOutUntil - now + 999) / 1000;
      s.(sent := s.sent + [ToSocket(ws, TokenLockedOut(retry)), ToSocket(ws, CloseSocket(1013))])
    else Welcome(s, ws, h, id)
  }

  function Welcome(s: State, ws: nat, h: Hello, id: string): State {
    var name := match h.name case None => "" case Some(n) => n;
    var fingerprint := match h.fingerprint case None => "" case Some(f) => f;
    NotifySender(s.(peers := s.peers + [Peer(id, false, name, h.fingerprint, ws, false)]), Pending(id, name, fingerprint))
  }

  function Accept(s: State, from: Peer, id: string): State {
    match IndexOf(s.peers, id)
    case None => s
    case Some(i) =>
      if !from.sender || id == "" || s.peers[i].sender then s
      else s.(peers := s.peers[i := s.peers[i].(accepted := true)], sent := s.sent + [To(s.peers[i], Accepted)])
  }

  function Reject(s: State, from: Peer, id: string): State {
    match IndexOf(s.peers, id)
    case None => s
    case Some(i) =>
      if !from.sender || id == "" then s
      else s.(peers := Without(s.peers, i), sent := s.sent + [To(s.peers[i], Rejected), To(s.peers[i], CloseSocket(1000))])
  }

  /** Every receiver from position `i` on is told, disconnected and deleted, in order. */
  function Expel(s: State, i: nat): State
    requires i <= |s.peers|
    decreases |s.peers| - i
  {
    if i == |s.peers| then s
    else if s.peers[i].sender then Expel(s, i + 1)
    else
      Expel(s.(peers := Without(s.peers, i), sent := s.sent + [To(s.peers[i], Rejected), To(s.peers[i], CloseSocket(1000))]), i)
  }

  function Revoke(s: State, from: Peer): State {
    if from.sender then Expel(s.(token := None, expiresAt := UNSET), 0) else s
  }

  /** Without a peer id, or with the alias `sender`, a receiver's message goes to the sender, accepted
      or not. */
  function Forward(s: State, from: Peer, id: string, signal: Signal): State {
    if !from.sender && (id == "" || id == "sender") then
      match SenderIndex(s.peers)
      case None => s
      case Some(i) => s.(sent := s.sent + [Relay(s.peers[i], from, Relayed(from.id, signal))])
    else
      match IndexOf(s.peers, id)
      case None => s
      case Some(i) =>
        var target := s.peers[i];
        if id == "" || (from.sender && !target.accepted) || (!from.sender && !from.accepted) then s
        else s.(sent := s.sent + [Relay(target, from, Relayed(if target.sender then from.id else id, signal))])
  }

  function CloseEach(peers: seq<Peer>): seq<Delivery> {
    if peers == [] then [] else CloseEach(peers[..|peers| - 1]) + [To(peers[|peers| - 1], CloseSocket(1001))]
  }

  function Leave(s: State, ws: nat): State {
    match SocketIndex(s.peers, ws)
    case None => s
    case Some(i) =>
      var p := s.peers[i];
      var s1 := s.(peers := Without(s.peers, i));
      if !p.sender then NotifySender(s1, PeerGone(p.id))
      else if s.reusable then s1
      else s1.(peers := [], sent := s1.sent + CloseEach(s1.peers))
  }

  /** A message on a socket. All but a hello need the socket to have said hello. */
  function Handle(s: State, cfg: Config, ws: nat, msg: Message, tokenParam: Option<string>, id: string, now: int): State {
    if msg.HelloMsg? then
      if msg.hello.sender then SenderHello(s, cfg, ws, msg.hello, id, now)
      else ReceiverHello(s, cfg, ws, msg.hello, tokenParam, id, now)
    else
      match SocketIndex(s.peers, ws)
      case None => s
      case Some(i) => Obey(s, s.peers[i], msg)
  }

  function Obey(s: State, peer: Peer, msg: Message): State {
    match msg
    case AcceptMsg(id) => Accept(s, peer, id)
    case RejectMsg(id) => Reject(s, peer, id)
    case RevokeMsg => Revoke(s, peer)
    case SignalMsg(id, signal) => Forward(s, peer, id, signal)
    case _ => s
  }

  class Room {
    const cfg: Config
    var token: Option<string>
    var expiresAt: Number
    var reusable: bool
    var peers: seq<Peer>
    var attempts: seq<int>
    var lockedOutUntil: int
    var sent: seq<Delivery>

    function S(): State
      reads this
    {
      State(token, expiresAt, reusable, peers, Limiter(attempts, lockedOutUntil), sent)
    }

    constructor (cfg: Config)
      ensures this.cfg == cfg && S() == EMPTY
    {
      this.cfg := cfg;
      token, expiresAt, reusable, peers, attempts, lockedOutUntil, sent := None, UNSET, false, [], [], 0, [];
    }

    method Send(p: Peer, msg: Out)
      modifies this`sent
      ensures sent == old(sent) + [To(p, msg)]
    {
      sent := sent + [Delivery(p.ws, Some(End(p)), None, msg)];
    }

    method Tell(ws: nat, msg: Out)
      modifies this`sent
      ensures sent == old(sent) + [ToSocket(ws, msg)]
    {
      sent := sent + [Delivery(ws, None, None, msg)];
    }

    method Get(id: string) returns (r: Option<nat>)
      ensures r == IndexOf(peers, id)
    {
      for i := 0 to |peers|
        invariant IndexOf(peers, id) == match IndexOf(peers[i..], id) case None => None case Some(k) => Some(i + k)
      {
        assert peers[i..][1..] == peers[i + 1..];
        if peers[i].id == id {
          return Some(i);
        }
      }
      return None;
    }

    method FindSender() returns (r: Option<nat>)
      ensures r == SenderIndex(peers)
    {
      for i := 0 to |peers|
        invariant SenderIndex(peers) == match SenderIndex(peers[i..]) case None => None case Some(k) => Some(i + k)
      {
        assert peers[i..][1..] == peers[i + 1..];
        if peers[i].sender {
          return Some(i);
        }
      }
      return None;
    }

    method FindPeerByWs(ws: nat) returns (r: Option<nat>)
      ensures r == SocketIndex(peers, ws)
    {
      for i := 0 to |peers|
        invariant SocketIndex(peers, ws) == match SocketIndex(peers[i..], ws) case None => None case Some(k) => Some(i + k)
      {
        assert peers[i..][1..] == peers[i + 1..];
        if peers[i].ws == ws {
          return Some(i);
        }
      }
      return None;
    }

    method RecordAttempt(now: int)
      modifies this`attempts, this`lockedOutUntil
      ensures Limiter(attempts, lockedOutUntil) == Record(old(S()).limiter, cfg.limits, now)
    {
      var l := RoomLimiter.RecordAttempt(Limiter(attempts, lockedOutUntil), cfg.limits, now);
      attempts, lockedOutUntil := l.attempts, l.lockedOutUntil;
    }

    method Fetch(hint: Option<string>)
      modifies this`token
      ensures S() == Adopt(old(S()), hint)
    {
      if hint.Some? && hint.value != "" && token != hint {
        token := hint;
      }
    }

    /** The two things sent to a socket that is refused. */
    method Refuse(ws: nat, reason: Out, code: int)
      modifies this`sent
      ensures sent == old(sent) + [ToSocket(ws, reason), ToSocket(ws, CloseSocket(code))]
    {
      Tell(ws, reason);
      Tell(ws, CloseSocket(code));
    }

    method HandleHello(ws: nat, h: Hello, tokenParam: Option<string>, id: string, now: int)
      modifies this
      ensures S() == Handle(old(S()), cfg, ws, HelloMsg(h), tokenParam, id, now)
    {
      if h.sender {
        WelcomeSender(ws, h, id, now);
        return;
      }
      var claimed := Claimed(h, tokenParam);
      if token.None? || token.value == "" || claimed != token.value {
        RecordAttempt(now);
        Refuse(ws, TokenInvalid, 1008);
        return;
      }
      if Past(now, expiresAt) {
        Refuse(ws, TokenInvalid, 1008);
        return;
      }
      if now < lockedOutUntil {
        Refuse(ws, TokenLockedOut((lockedOutUntil - now + 999) / 1000), 1013);
        return;
      }
      WelcomeReceiver(ws, h, id);
    }

    method WelcomeSender(ws: nat, h: Hello, id: string, now: int)
      modifies this`expiresAt, this`reusable, this`peers, this`sent
      ensures S() == SenderHello(old(S()), cfg, ws, h, id, now)
    {
      if Unset(expiresAt) {
        expiresAt := ExpiryAt(now, Ttl(cfg, h));
        reusable := h.reusable;
      }
      peers := peers + [Peer(id, true, match h.name case None => "" case Some(n) => n, None, ws, true)];
      Tell(ws, TokenIs(token));
    }

    method WelcomeReceiver(ws: nat, h: Hello, id: string)
      modifies this`peers, this`sent
      ensures S() == Welcome(old(S()), ws, h, id)
    {
      var name := match h.name case None => "" case Some(n) => n;
      peers := peers + [Peer(id, false, name, h.fingerprint, ws, false)];
      var sender := FindSender();
      if sender.Some? {
        Send(peers[sender.value], Pending(id, name, match h.fingerprint case None => "" case Some(f) => f));
      }
    }

    method HandleAccept(from: Peer, id: string)
      modifies this`peers, this`sent
      ensures S() == Accept(old(S()), from, id)
    {
      if !from.sender || id == "" {
        return;
      }
      var r := Get(id);
      if r.None? || peers[r.value].sender {
        return;
      }
      peers := peers[r.value := peers[r.value].(accepted := true)];
      Send(peers[r.value], Accepted);
    }

    method HandleReject(from: Peer, id: string)
      modifies this`peers, this`sent
      ensures S() == Reject(old(S()), from, id)
    {
      if !from.sender || id == "" {
        return;
      }
      var r := Get(id);
      if r.None? {
        return;
      }
      Dismiss(peers[r.value]);
      peers := peers[..r.value] + peers[r.value + 1..];
    }

    method Dismiss(p: Peer)
      modifies this`sent
      ensures sent == old(sent) + [To(p, Rejected), To(p, CloseSocket(1000))]
    {
      Send(p, Rejected);
      Send(p, CloseSocket(1000));
    }

    /** Entries are deleted while the map is walked. */
    method HandleRevoke(from: Peer)
      modifies this`token, this`expiresAt, this`peers, this`sent
      ensures S() == Revoke(old(S()), from)
    {
      if !from.sender {
        return;
      }
      token, expiresAt := None, UNSET;
      var i := 0;
      while i < |peers|
        invariant i <= |peers| && Expel(S(), i) == Revoke(old(S()), from)
        decreases |peers| - i
      {
        if peers[i].sender {
          i := i + 1;
        } else {
          Dismiss(peers[i]);
          peers := peers[..i] + peers[i + 1..];
        }
      }
    }

    method RelayToPeer(from: Peer, id: string, signal: Signal)
      modifies this`sent
      ensures S() == Forward(old(S()), from, id, signal)
    {
      if !from.sender && (id == "" || id == "sender") {
        var sender := FindSender();
        if sender.Some? {
          var p := peers[sender.value];
          sent := sent + [Delivery(p.ws, Some(End(p)), Some(End(from)), Relayed(from.id, signal))];
        }
        return;
      }
      if id == "" {
        return;
      }
      var r := Get(id);
      if r.None? {
        return;
      }
      var target := peers[r.value];
      if from.sender && !target.accepted {
        return;
      }
      if !from.sender && !from.accepted {
        return;
      }
      var out := Relayed(id, signal);
      if target.sender {
        out := Relayed(from.id, signal);
      }
      sent := sent + [Delivery(target.ws, Some(End(target)), Some(End(from)), out)];
    }

    method OnMessage(ws: nat, msg: Message, tokenParam: Option<string>, id: string, now: int)
      modifies this
      ensures S() == Handle(old(S()), cfg, ws, msg, tokenParam, id, now)
    {
      if msg.HelloMsg? {
        HandleHello(ws, msg.hello, tokenParam, id, now);
        return;
      }
      var found := FindPeerByWs(ws);
      if found.None? {
        return;
      }
      var peer := peers[found.value];
      match msg {
        case AcceptMsg(target) => HandleAccept(peer, target);
        case RejectMsg(target) => HandleReject(peer, target);
        case RevokeMsg => HandleRevoke(peer);
        case SignalMsg(target, signal) => RelayToPeer(peer, target, signal);
        case _ =>
      }
    }

    method CloseAll()
      modifies this`sent
      ensures sent == old(sent) + CloseEach(peers)
    {
      for i := 0 to |peers|
        invariant sent == old(sent) + CloseEach(peers[..i])
      {
        assert peers[..i + 1][..i] == peers[..i];
        Send(peers[i], CloseSocket(1001));
      }
      assert peers[..|peers|] == peers;
    }

    method OnClose(ws: nat)
      modifies this`peers, this`sent
      ensures S() == Leave(old(S()), ws)
    {
      var found := FindPeerByWs(ws);
      if found.None? {
        return;
      }
      var peer := peers[found.value];
      peers := peers[..found.value] + peers[found.value + 1..];
      if !peer.sender {
        var sender := FindSender();
        if sender.Some? {
          Send(peers[sender.value], PeerGone(peer.id));
        }
      } else if !reusable {
        CloseAll();
        peers := [];
      }
    }
  }
}

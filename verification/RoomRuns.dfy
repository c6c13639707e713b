/** What a room guarantees over whole runs: who may be sent what, when receivers may join, and how
    long a revocation lasts. */
module RoomRuns {
  import opened Common
  import opened RoomLimiter
  import opened Room

  // ----- the order of what was sent -----

  function Told(d: Delivery): set<string> {
    match d.to case None => {} case Some(e) => {e.id}
  }

  /** The peers that were told they are accepted, with the socket they were told on. */
  function Granted(sent: seq<Delivery>): map<string, nat> {
    if sent == [] then map[] else Grant(Granted(sent[..|sent| - 1]), sent[|sent| - 1])
  }

  function Grant(granted: map<string, nat>, d: Delivery): map<string, nat> {
    if d.msg.Accepted? && d.to.Some? then granted[d.to.value.id := d.ws] else granted
  }

  /** The peers that were rejected or disconnected by the room. */
  function Dismissed(sent: seq<Delivery>): set<string> {
    if sent == [] then {}
    else
      var n := |sent| - 1;
      Dismissed(sent[..n]) + if sent[n].msg.Rejected? || sent[n].msg.CloseSocket? then Told(sent[n]) else {}
  }

  /** `d` may follow `sent`: a receiver is relayed only what a sender sends it after its accept, or
      what an accepted receiver sends it; a sender is told who speaks to it, and a dismissed peer is sent
      nothing and speaks to nobody. */
  predicate MayFollow(sent: seq<Delivery>, d: Delivery) {
    && (d.from.Some? ==> d.from.value.id !in Dismissed(sent))
    && match d.to
       case None => !d.msg.Relayed?
       case Some(e) =>
         && (d.msg.Relayed? ==> d.from.Some?)
         && (d.msg.Relayed? && !e.sender ==> (if d.from.value.sender then e.id else d.from.value.id) in Granted(sent))
         && (d.msg.Relayed? && !e.sender && d.from.value.sender ==> Granted(sent)[e.id] == d.ws)
         && (d.msg.Relayed? ==> d.msg.peer == if e.sender then d.from.value.id else e.id)
         && (d.msg.Accepted? ==> !e.sender)
         && (e.id in Dismissed(sent) ==> d.msg.CloseSocket?)
  }

  predicate Orderly(sent: seq<Delivery>) {
    sent == [] || (Orderly(sent[..|sent| - 1]) && MayFollow(sent[..|sent| - 1], sent[|sent| - 1]))
  }

  lemma Appended(sent: seq<Delivery>, d: Delivery)
    ensures Granted(sent + [d]) == Grant(Granted(sent), d)
    ensures Dismissed(sent + [d]) == Dismissed(sent) + if d.msg.Rejected? || d.msg.CloseSocket? then Told(d) else {}
    ensures Orderly(sent + [d]) == (Orderly(sent) && MayFollow(sent, d))
  {
    assert (sent + [d])[..|sent|] == sent;
  }

  /** The peer map agrees with what was sent: a receiver in it is marked accepted exactly if it was
      told so, and nobody in it has been dismissed. */
  ghost predicate Agrees(peers: seq<Peer>, sent: seq<Delivery>) {
    forall i :: 0 <= i < |peers| ==>
      && peers[i].id !in Dismissed(sent)
      && (if peers[i].sender then peers[i].accepted && peers[i].id !in Granted(sent)
          else peers[i].accepted == (peers[i].id in Granted(sent))
               && (peers[i].accepted ==> Granted(sent)[peers[i].id] == peers[i].ws))
  }

  ghost predicate Roster(peers: seq<Peer>, sent: seq<Delivery>, used: set<string>) {
    && (forall i, j :: 0 <= i < j < |peers| ==> peers[i].id != peers[j].id)
    && (forall i :: 0 <= i < |peers| ==> peers[i].id in used)
    && Orderly(sent) && Granted(sent).Keys <= used && Dismissed(sent) <= used
    && Agrees(peers, sent)
  }

  // ----- what each thing a handler does keeps -----

  /** A message that neither accepts nor dismisses. */
  lemma SendKeeps(peers: seq<Peer>, sent: seq<Delivery>, used: set<string>, d: Delivery)
    requires Roster(peers, sent, used) && MayFollow(sent, d)
    requires d.to.None? || !(d.msg.Accepted? || d.msg.Rejected? || d.msg.CloseSocket?)
    ensures Roster(peers, sent + [d], used) && Granted(sent + [d]) == Granted(sent)
  {
    hide Granted, Dismissed, Orderly, MayFollow;
    Appended(sent, d);
    assert forall x: set<string> :: x + {} == x;
  }

  lemma JoinKeeps(peers: seq<Peer>, sent: seq<Delivery>, used: set<string>, p: Peer)
    requires Roster(peers, sent, used) && p.id !in used && p.accepted == p.sender
    ensures Roster(peers + [p], sent, used + {p.id})
  {
    hide Granted, Dismissed, Orderly;
  }

  lemma RemoveKeeps(peers: seq<Peer>, sent: seq<Delivery>, used: set<string>, i: nat)
    requires Roster(peers, sent, used) && i < |peers|
    ensures Roster(Without(peers, i), sent, used)
    ensures forall k :: 0 <= k < |peers| - 1 ==> Without(peers, i)[k] == peers[if k < i then k else k + 1]
    ensures forall k :: 0 <= k < |peers| - 1 ==> Without(peers, i)[k].id != peers[i].id
  {
    hide Granted, Dismissed, Orderly;
  }

  lemma AcceptKeeps(peers: seq<Peer>, sent: seq<Delivery>, used: set<string>, i: nat)
    requires Roster(peers, sent, used) && i < |peers| && !peers[i].sender
    ensures Roster(peers[i := peers[i].(accepted := true)], sent + [To(peers[i], Accepted)], used)
  {
    hide Granted, Dismissed, Orderly;
    Appended(sent, To(peers[i], Accepted));
  }

  /** A dismissal of somebody who is not in the map any more. */
  lemma FarewellKeeps(peers: seq<Peer>, sent: seq<Delivery>, used: set<string>, p: Peer, msg: Out)
    requires Roster(peers, sent, used) && p.id in used && (msg.Rejected? || msg.CloseSocket?)
    requires forall i :: 0 <= i < |peers| ==> peers[i].id != p.id
    requires p.id !in Dismissed(sent) || msg.CloseSocket?
    ensures Roster(peers, sent + [To(p, msg)], used) && Granted(sent + [To(p, msg)]) == Granted(sent)
  {
    hide Granted, Dismissed, Orderly;
    Appended(sent, To(p, msg));
  }

  lemma DismissKeeps(peers: seq<Peer>, sent: seq<Delivery>, used: set<string>, i: nat)
    requires Roster(peers, sent, used) && i < |peers|
    ensures Roster(Without(peers, i), sent + [To(peers[i], Rejected), To(peers[i], CloseSocket(1000))], used)
    ensures Granted(sent + [To(peers[i], Rejected), To(peers[i], CloseSocket(1000))]) == Granted(sent)
  {
    hide Granted, Dismissed, Orderly, Without;
    var p := peers[i];
    RemoveKeeps(peers, sent, used, i);
    WithoutLength(peers, i);
    FarewellKeeps(Without(peers, i), sent, used, p, Rejected);
    FarewellKeeps(Without(peers, i), sent + [To(p, Rejected)], used, p, CloseSocket(1000));
    assert sent + [To(p, Rejected)] + [To(p, CloseSocket(1000))] == sent + [To(p, Rejected), To(p, CloseSocket(1000))];
  }

  lemma WithoutLength(peers: seq<Peer>, i: nat)
    requires i < |peers|
    ensures |Without(peers, i)| == |peers| - 1
  {}

  lemma RefuseKeeps(peers: seq<Peer>, sent: seq<Delivery>, used: set<string>, ws: nat, reason: Out, code: int)
    requires Roster(peers, sent, used) && !reason.Relayed?
    ensures Roster(peers, sent + [ToSocket(ws, reason), ToSocket(ws, CloseSocket(code))], used)
    ensures Granted(sent + [ToSocket(ws, reason), ToSocket(ws, CloseSocket(code))]) == Granted(sent)
  {
    hide Granted, Dismissed, Orderly, Roster;
    SendKeeps(peers, sent, used, ToSocket(ws, reason));
    SendKeeps(peers, sent + [ToSocket(ws, reason)], used, ToSocket(ws, CloseSocket(code)));
    assert sent + [ToSocket(ws, reason)] + [ToSocket(ws, CloseSocket(code))]
        == sent + [ToSocket(ws, reason), ToSocket(ws, CloseSocket(code))];
  }

  lemma NotifyKeeps(s: State, used: set<string>, msg: Out)
    requires Roster(s.peers, s.sent, used) && (msg.Pending? || msg.PeerGone?)
    ensures var s' := NotifySender(s, msg); s'.peers == s.peers && Roster(s.peers, s'.sent, used) && Granted(s'.sent) == Granted(s.sent)
  {
    hide Granted, Dismissed, Orderly;
    match SenderIndex(s.peers)
    case None =>
    case Some(i) => SendKeeps(s.peers, s.sent, used, To(s.peers[i], msg));
  }

  lemma {:induction false} CloseEachKeeps(peers: seq<Peer>, sent: seq<Delivery>, used: set<string>)
    requires Roster([], sent, used) && forall i :: 0 <= i < |peers| ==> peers[i].id in used
    ensures Roster([], sent + CloseEach(peers), used) && Granted(sent + CloseEach(peers)) == Granted(sent)
  {
    hide Granted, Dismissed, Orderly, Roster;
    if peers == [] {
      assert sent + CloseEach(peers) == sent;
    } else {
      var p := peers[|peers| - 1];
      var rest := peers[..|peers| - 1];
      CloseEachKeeps(rest, sent, used);
      FarewellKeeps([], sent + CloseEach(rest), used, p, CloseSocket(1001));
      assert sent + CloseEach(rest) + [To(p, CloseSocket(1001))] == sent + CloseEach(peers);
    }
  }

  lemma ClearKeeps(peers: seq<Peer>, sent: seq<Delivery>, used: set<string>)
    requires Roster(peers, sent, used)
    ensures Roster([], sent + CloseEach(peers), used) && Granted(sent + CloseEach(peers)) == Granted(sent)
  {
    hide Granted, Dismissed, Orderly, CloseEach;
    CloseEachKeeps(peers, sent, used);
  }

  lemma {:induction false} ExpelKeeps(s: State, i: nat, used: set<string>)
    requires i <= |s.peers| && Roster(s.peers, s.sent, used)
    requires forall k :: 0 <= k < i ==> s.peers[k].sender
    ensures var s' := Expel(s, i);
            && Roster(s'.peers, s'.sent, used) && (forall k :: 0 <= k < |s'.peers| ==> s'.peers[k].sender)
            && s'.(peers := s.peers, sent := s.sent) == s && Granted(s'.sent) == Granted(s.sent)
    decreases |s.peers| - i
  {
    hide Granted, Dismissed, Orderly, Roster;
    if i < |s.peers| {
      if s.peers[i].sender {
        ExpelKeeps(s, i + 1, used);
      } else {
        DismissKeeps(s.peers, s.sent, used, i);
        ExpelKeeps(s.(peers := Without(s.peers, i),
                      sent := s.sent + [To(s.peers[i], Rejected), To(s.peers[i], CloseSocket(1000))]), i, used);
      }
    }
  }

  lemma ForwardKeeps(s: State, k: nat, id: string, signal: Signal, used: set<string>)
    requires k < |s.peers| && Roster(s.peers, s.sent, used)
    ensures var s' := Forward(s, s.peers[k], id, signal);
            s'.(sent := s.sent) == s && Roster(s.peers, s'.sent, used) && Granted(s'.sent) == Granted(s.sent)
  {
    hide Granted, Dismissed, Orderly;
    var s' := Forward(s, s.peers[k], id, signal);
    if s'.sent != s.sent {
      var d := s'.sent[|s.sent|];
      assert s'.sent == s.sent + [d];
      SendKeeps(s.peers, s.sent, used, d);
    }
  }

  lemma LeaveKeeps(s: State, ws: nat, used: set<string>)
    requires Roster(s.peers, s.sent, used)
    ensures var s' := Leave(s, ws);
            && Roster(s'.peers, s'.sent, used) && s'.(peers := s.peers, sent := s.sent) == s
            && (forall k :: 0 <= k < |s'.peers| ==> s'.peers[k] in s.peers)
            && Granted(s'.sent) == Granted(s.sent)
  {
    hide Roster, CloseEach, NotifySender, Granted;
    match SocketIndex(s.peers, ws)
    case None =>
    case Some(i) =>
      var s1 := s.(peers := Without(s.peers, i));
      RemoveKeeps(s.peers, s.sent, used, i);
      NotifyFrame(s1, PeerGone(s.peers[i].id));
      NotifyKeeps(s1, used, PeerGone(s.peers[i].id));
      ClearKeeps(s1.peers, s.sent, used);
  }

  lemma NotifyFrame(s: State, msg: Out)
    ensures NotifySender(s, msg).(sent := s.sent) == s
  {}

  lemma ObeyKeeps(s: State, k: nat, msg: Message, used: set<string>)
    requires k < |s.peers| && Roster(s.peers, s.sent, used)
    ensures var s' := Obey(s, s.peers[k], msg);
            && Roster(s'.peers, s'.sent, used)
            && (!(msg.AcceptMsg? && s.peers[k].sender) ==> Granted(s'.sent) == Granted(s.sent))
            && forall id :: id in Granted(s'.sent) && id !in Granted(s.sent) ==> msg == AcceptMsg(id)
  {
    hide Roster, Without, Expel, Forward, Granted;
    match msg
    case AcceptMsg(id) =>
      var r := IndexOf(s.peers, id);
      if r.Some? && !s.peers[r.value].sender {
        AcceptKeeps(s.peers, s.sent, used, r.value);
        Appended(s.sent, To(s.peers[r.value], Accepted));
      }
    case RejectMsg(id) =>
      var r := IndexOf(s.peers, id);
      if r.Some? {
        DismissKeeps(s.peers, s.sent, used, r.value);
      }
    case RevokeMsg => ExpelKeeps(s.(token := None, expiresAt := UNSET), 0, used);
    case SignalMsg(id, signal) => ForwardKeeps(s, k, id, signal, used);
    case _ =>
  }

  lemma SenderHelloKeeps(s: State, cfg: Config, ws: nat, h: Hello, id: string, now: int, used: set<string>)
    requires Roster(s.peers, s.sent, used) && id !in used
    ensures var s' := SenderHello(s, cfg, ws, h, id, now);
            Roster(s'.peers, s'.sent, used + {id}) && Granted(s'.sent) == Granted(s.sent)
  {
    hide Roster, Granted;
    var s' := SenderHello(s, cfg, ws, h, id, now);
    JoinKeeps(s.peers, s.sent, used, s'.peers[|s.peers|]);
    SendKeeps(s'.peers, s.sent, used + {id}, s'.sent[|s.sent|]);
  }

  lemma WelcomeKeeps(s: State, ws: nat, h: Hello, id: string, used: set<string>)
    requires Roster(s.peers, s.sent, used) && id !in used
    ensures var s' := Welcome(s, ws, h, id);
            && Roster(s'.peers, s'.sent, used + {id}) && s'.(peers := s.peers, sent := s.sent) == s
            && Granted(s'.sent) == Granted(s.sent)
            && s'.peers == s.peers + [Peer(id, false, match h.name case None => "" case Some(n) => n, h.fingerprint, ws, false)]
  {
    hide Roster, NotifySender, Granted;
    var p := Peer(id, false, match h.name case None => "" case Some(n) => n, h.fingerprint, ws, false);
    JoinKeeps(s.peers, s.sent, used, p);
    var msg := Pending(id, p.name, match h.fingerprint case None => "" case Some(f) => f);
    NotifyFrame(s.(peers := s.peers + [p]), msg);
    NotifyKeeps(s.(peers := s.peers + [p]), used + {id}, msg);
  }

  lemma UsedGrows(peers: seq<Peer>, sent: seq<Delivery>, used: set<string>, id: string)
    requires Roster(peers, sent, used)
    ensures Roster(peers, sent, used + {id})
  {
    hide Granted, Dismissed, Orderly;
  }

  lemma ReceiverHelloKeeps(s: State, cfg: Config, ws: nat, h: Hello, tokenParam: Option<string>, id: string, now: int, used: set<string>)
    requires Roster(s.peers, s.sent, used) && id !in used
    ensures var s' := ReceiverHello(s, cfg, ws, h, tokenParam, id, now);
            Roster(s'.peers, s'.sent, used + {id}) && Granted(s'.sent) == Granted(s.sent)
  {
    hide Roster, Welcome, TokenMatches, Record, Granted;
    UsedGrows(s.peers, s.sent, used, id);
    RefuseKeeps(s.peers, s.sent, used + {id}, ws, TokenInvalid, 1008);
    RefuseKeeps(s.peers, s.sent, used + {id}, ws, TokenLockedOut((s.limiter.lockedOutUntil - now + 999) / 1000), 1013);
    WelcomeKeeps(s, ws, h, id, used);
  }
}

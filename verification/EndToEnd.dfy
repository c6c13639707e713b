/** The pieces together: a sender's offer goes through the room, the receiver's socket, the text scanner and
    the decoder into the receiver's state machine. Sockets deliver in order; the machine's only other
    inputs, peer-connection events, come after an offer was applied. */
module EndToEnd {
  import opened Common
  import opened FlatObject
  import opened Signaling
  import opened SdpCodec
  import opened RoomTexts
  import opened ReceiveSession
  import Room
  import RoomRuns
  import RoomSafety

  // ----- the socket -----

  /** What was sent on one socket, in order. */
  function Inbox(sent: seq<Room.Delivery>, ws: nat): seq<Room.Delivery> {
    if sent == [] then []
    else
      var n := |sent| - 1;
      Inbox(sent[..n], ws) + if sent[n].ws == ws then [sent[n]] else []
  }

  /** A message a sender had relayed to a receiver. */
  predicate FromSender(d: Room.Delivery) {
    d.msg.Relayed? && d.to.Some? && !d.to.value.sender && d.from.Some? && d.from.value.sender
  }

  lemma {:induction false} GrantIsInInbox(sent: seq<Room.Delivery>, id: string) returns (j: nat)
    requires id in RoomRuns.Granted(sent)
    ensures var inbox := Inbox(sent, RoomRuns.Granted(sent)[id]); j < |inbox| && inbox[j].msg == Room.Accepted
  {
    var n := |sent| - 1;
    if sent[n].msg.Accepted? && sent[n].to.Some? && sent[n].to.value.id == id {
      j := |Inbox(sent[..n], sent[n].ws)|;
    } else {
      j := GrantIsInInbox(sent[..n], id);
    }
  }

  /** On the receiver's own socket, too, the accept comes before anything from a sender. */
  lemma {:induction false} AcceptIsEarlier(sent: seq<Room.Delivery>, ws: nat, k: nat) returns (j: nat)
    requires RoomRuns.Orderly(sent) && k < |Inbox(sent, ws)| && FromSender(Inbox(sent, ws)[k])
    ensures j < k && Inbox(sent, ws)[j].msg == Room.Accepted
  {
    hide RoomRuns.Granted, RoomRuns.Dismissed;
    var n := |sent| - 1;
    if k < |Inbox(sent[..n], ws)| {
      j := AcceptIsEarlier(sent[..n], ws, k);
    } else {
      j := GrantIsInInbox(sent[..n], sent[n].to.value.id);
    }
  }

  // ----- the receiver's session -----

  /** What the texts of a socket make the session do. */
  function Feed(inbox: seq<Room.Delivery>): (r: seq<Input>)
    ensures forall i :: 0 <= i < |r| ==> r[i].Signal?
  {
    if inbox == [] then []
    else
      var n := |inbox| - 1;
      Feed(inbox[..n]) + match Read(inbox[n].msg) case None => [] case Some(e) => [Signal(e)]
  }

  /** Something on the socket, before `k`, reads as an accept. */
  ghost predicate AcceptSeen(inbox: seq<Room.Delivery>, k: nat) {
    exists j :: 0 <= j < k && j < |inbox| && (inbox[j].msg == Room.Accepted || ReadsAsAccept(inbox[j].msg))
  }

  lemma {:induction false} AcceptIsFed(inbox: seq<Room.Delivery>)
    ensures Signal(RequestAccepted) in Feed(inbox) <==> AcceptSeen(inbox, |inbox|)
  {
    hide Read, ReadsAsAccept;
    if inbox != [] {
      var n := |inbox| - 1;
      AcceptIsFed(inbox[..n]);
      OnlyAcceptsReadSo(inbox[n].msg);
    }
  }

  /** Inputs that leave the session ready for an offer. */
  predicate Quiet(input: Input) {
    input.Signal? && !input.event.SdpOffer? && !input.event.TokenInvalid? && !input.event.TokenLockedOut?
  }

  const FRESH := Rx(AwaitingAccept, [], [])

  lemma {:induction false} QuietStaysReady(inputs: seq<Input>)
    requires forall i :: 0 <= i < |inputs| ==> Quiet(inputs[i])
    ensures var rx := Run(FRESH, inputs); rx.state in {AwaitingAccept, Accepted} && rx.applied == []
    decreases |inputs|
  {
    if inputs != [] {
      QuietStaysReady(inputs[..|inputs| - 1]);
    }
  }

  /** `inbox[k]` is a relayed message that reads as an offer, and nothing before it read as an offer or a
      refusal of the token. */
  ghost predicate FirstOffer(inbox: seq<Room.Delivery>, k: nat) {
    && k < |inbox| && inbox[k].msg.Relayed? && Read(inbox[k].msg).Some? && Read(inbox[k].msg).value.SdpOffer?
    && forall i :: 0 <= i < |Feed(inbox[..k])| ==> Quiet(Feed(inbox[..k])[i])
  }

  /** Main result: the first offer relayed on a socket, whoever it comes from and whatever it looks like, is
      applied at once, as far as it has a description. It finds the session accepted if and only if the room
      accepted it on that socket before, or a relayed message before it reads as an accept. */
  lemma FirstOfferArrives(inbox: seq<Room.Delivery>, k: nat)
    requires FirstOffer(inbox, k)
    ensures var before, after := Run(FRESH, Feed(inbox[..k])), Run(FRESH, Feed(inbox[..k + 1]));
            && before.state in {AwaitingAccept, Accepted} && before.applied == []
            && (before.state == Accepted <==> AcceptSeen(inbox, k))
            && after.state == Negotiating
            && after.applied == match OfferSdp(Read(inbox[k].msg).value.json) case None => [] case Some(sdp) => [sdp]
  {
    hide Read, OfferSdp, Run, Feed, ReadsAsAccept;
    var inputs := Feed(inbox[..k]);
    QuietStaysReady(inputs);
    AcceptedWhenApplied(inputs, |inputs|);
    assert inputs[..|inputs|] == inputs;
    AcceptIsFed(inbox[..k]);
    SeenInPrefix(inbox, k);
    FeedNext(inbox, k);
    RunNext(inputs, Signal(Read(inbox[k].msg).value));
  }

  lemma SeenInPrefix(inbox: seq<Room.Delivery>, k: nat)
    requires k <= |inbox|
    ensures AcceptSeen(inbox, k) <==> AcceptSeen(inbox[..k], |inbox[..k]|)
  {
    hide ReadsAsAccept;
    if AcceptSeen(inbox, k) {
      var j :| 0 <= j < k && j < |inbox| && (inbox[j].msg == Room.Accepted || ReadsAsAccept(inbox[j].msg));
      assert inbox[..k][j] == inbox[j];
    }
  }

  /** A relayed flat description with the type `offer`, and any further fields, reads as an offer, and gives the
      description it was printed from if and only if that has no control character besides tab, line feed and
      carriage return. */
  lemma FlatOfferIsRead(peer: string, signal: Room.Signal, sdp: string)
    requires ValidFields(signal) && Lookup(signal, "type") == Some("sdp") && Lookup(signal, "sdp_type") == Some("offer")
    requires Lookup(signal, "sdp") == Some(Stringify(sdp))
    ensures var e := Read(Room.Relayed(peer, signal));
            e.Some? && e.value.SdpOffer? && (OfferSdp(e.value.json) == Some(sdp) <==> Allowed(sdp))
  {
    hide Print, Renamed, ValidFields, Lookup, Stringify, Unescape, Allowed, OfferSdp, Read;
    FlatRelayIsRead(peer, signal);
    FlatRelayIsDecoded(peer, signal);
    UnescapePrinted(sdp);
  }

  /** Where everything relayed so far is flat, therefore: the first offer finds the session accepted if and only
      if the room accepted it on that socket before, and what is applied is the very description that was
      relayed if and only if that has no control character besides those three. */
  lemma FirstFlatOfferArrives(inbox: seq<Room.Delivery>, k: nat, sdp: string)
    requires k < |inbox| && inbox[k].msg.Relayed?
    requires forall i :: 0 <= i <= k && inbox[i].msg.Relayed? ==> ValidFields(inbox[i].msg.signal)
    requires var signal := inbox[k].msg.signal;
             && Lookup(signal, "type") == Some("sdp") && Lookup(signal, "sdp_type") == Some("offer")
             && Lookup(signal, "sdp") == Some(Stringify(sdp))
    requires forall i :: 0 <= i < |Feed(inbox[..k])| ==> Quiet(Feed(inbox[..k])[i])
    ensures var before, after := Run(FRESH, Feed(inbox[..k])), Run(FRESH, Feed(inbox[..k + 1]));
            && (before.state == Accepted <==> exists j :: 0 <= j < k && inbox[j].msg == Room.Accepted)
            && after.state == Negotiating && |after.applied| <= 1 && (after.applied == [sdp] <==> Allowed(sdp))
  {
    hide Read, OfferSdp, Run, Feed, ReadsAsAccept, ValidFields, Lookup, Stringify, Allowed;
    FlatOfferIsRead(inbox[k].msg.peer, inbox[k].msg.signal, sdp);
    FirstOfferArrives(inbox, k);
    forall i | 0 <= i < k ensures !ReadsAsAccept(inbox[i].msg) {
      if inbox[i].msg.Relayed? {
        FlatRelayIsNoAccept(inbox[i].msg.peer, inbox[i].msg.signal);
      } else {
        OwnIsNoRelay(inbox[i].msg);
      }
    }
    assert [sdp][0] == sdp;
    match OfferSdp(Read(inbox[k].msg).value.json)
    case None =>
    case Some(s) => assert [s][0] == s;
  }

  lemma OwnIsNoRelay(msg: Room.Out)
    ensures !msg.Relayed? ==> !ReadsAsAccept(msg)
  {}

  /** In every run of the room an offer that comes first and from a sender finds the session accepted. */
  lemma SendersOfferFindsAccepted(cfg: Room.Config, events: seq<RoomSafety.Event>, ws: nat, k: nat)
    requires RoomSafety.LegalRun(RoomSafety.START, cfg, events)
    requires var inbox := Inbox(RoomSafety.Run(RoomSafety.START, cfg, events).room.sent, ws);
             FirstOffer(inbox, k) && FromSender(inbox[k])
    ensures var inbox := Inbox(RoomSafety.Run(RoomSafety.START, cfg, events).room.sent, ws);
            Run(FRESH, Feed(inbox[..k])).state == Accepted
  {
    hide RoomSafety.Run, RoomSafety.LegalRun, RoomRuns.Orderly, Inbox, Feed, Run, Read, OfferSdp;
    RoomSafety.StartInv(cfg);
    RoomSafety.RunKeeps(RoomSafety.START, cfg, events);
    var sent := RoomSafety.Run(RoomSafety.START, cfg, events).room.sent;
    var j := AcceptIsEarlier(sent, ws, k);
    FirstOfferArrives(Inbox(sent, ws), k);
  }

  /** So in every run an offer that comes first and does not find the session accepted was relayed to a
      receiver on behalf of another receiver, one that was accepted itself. */
  lemma EarlyOfferIsAReceivers(cfg: Room.Config, events: seq<RoomSafety.Event>, ws: nat, k: nat)
    requires RoomSafety.LegalRun(RoomSafety.START, cfg, events)
    requires var inbox := Inbox(RoomSafety.Run(RoomSafety.START, cfg, events).room.sent, ws);
             FirstOffer(inbox, k) && inbox[k].to.Some? && !inbox[k].to.value.sender
             && Run(FRESH, Feed(inbox[..k])).state != Accepted
    ensures var sent := RoomSafety.Run(RoomSafety.START, cfg, events).room.sent; var d := Inbox(sent, ws)[k];
            && d.from.Some? && !d.from.value.sender
            && exists j :: 0 <= j < |sent| && sent[j].msg == Room.Accepted && sent[j].to == d.from
  {
    hide RoomSafety.Run, RoomSafety.LegalRun, RoomRuns.Orderly, Feed, Run, Read;
    RoomSafety.StartInv(cfg);
    RoomSafety.RunKeeps(RoomSafety.START, cfg, events);
    var sent := RoomSafety.Run(RoomSafety.START, cfg, events).room.sent;
    var i := InboxIndex(sent, ws, k);
    RoomSafety.RelayAfterAccept(sent, i);
    if sent[i].from.value.sender {
      SendersOfferFindsAccepted(cfg, events, ws, k);
    }
  }

  lemma {:induction false} InboxIndex(sent: seq<Room.Delivery>, ws: nat, k: nat) returns (i: nat)
    requires k < |Inbox(sent, ws)|
    ensures i < |sent| && sent[i] == Inbox(sent, ws)[k]
  {
    var n := |sent| - 1;
    if k < |Inbox(sent[..n], ws)| {
      i := InboxIndex(sent[..n], ws, k);
    } else {
      i := n;
    }
  }

  lemma FeedNext(inbox: seq<Room.Delivery>, k: nat)
    requires k < |inbox|
    ensures Feed(inbox[..k + 1]) == Feed(inbox[..k]) + match Read(inbox[k].msg) case None => [] case Some(e) => [Signal(e)]
  {
    hide Read;
    assert inbox[..k + 1][..k] == inbox[..k];
  }

  lemma RunNext(inputs: seq<Input>, input: Input)
    ensures Run(FRESH, inputs + [input]) == Step(Run(FRESH, inputs), input)
  {
    hide Step;
    assert (inputs + [input])[..|inputs|] == inputs;
  }
}

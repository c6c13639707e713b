/** A run in which a receiver's first offer comes before its accept: an accepted receiver names another one
    (backend/src/room.ts:286-298). Nothing but its speaker tells it from a sender's offer. */
module EarlyOffer {
  import opened Common
  import opened Room
  import opened RoomSafety
  import RoomLimiter
  import Token
  import Session = ReceiveSession
  import Flat = FlatObject
  import EndToEnd
  import RoomTexts
  import SdpCodec

  const CFG := Config(1440.0, RoomLimiter.Limits(60_000, 10, 300_000))

  const SENDER := Peer("s", true, "", None, 1, true)
  const FIRST := Peer("b", false, "", None, 2, false)
  const SECOND := Peer("a", false, "", None, 3, false)

  const TOLD := FIRST.(accepted := true)

  const OFFER := [Flat.Field("type", Flat.Str("sdp")), Flat.Field("peer_id", Flat.Str("a")),
                  Flat.Field("sdp_type", Flat.Str("offer")), Flat.Field("sdp", Flat.Str("x"))]

  function Greet(sender: bool): Message {
    HelloMsg(Hello(sender, None, if sender then None else Some("T"), None, false, None))
  }

  /** A connection, the hellos of a sender and two receivers, the accept of the first one, and the first one's
      offer to the second. */
  const EVENTS := [
    Event(1, Connect(Some("T"))),
    Event(1, Receive(1, Greet(true), None, "s")),
    Event(1, Receive(2, Greet(false), None, "b")),
    Event(1, Receive(3, Greet(false), None, "a")),
    Event(1, Receive(1, AcceptMsg("b"), None, "")),
    Event(1, Receive(2, SignalMsg("a", OFFER), None, ""))]

  const GREETED := State(Some("T"), Finite(1_800_001.0), false, [SENDER], RoomLimiter.START, [ToSocket(1, TokenIs(Some("T")))])

  const BOTH := GREETED.(peers := [SENDER, FIRST, SECOND],
                         sent := GREETED.sent + [To(SENDER, Pending("b", "", "")), To(SENDER, Pending("a", "", ""))])

  const OFFERED := BOTH.(peers := [SENDER, TOLD, SECOND],
                         sent := BOTH.sent + [To(FIRST, Accepted), Relay(SECOND, TOLD, Relayed("a", OFFER))])

  lemma ReceiverJoins(room: State, ws: nat, id: string)
    requires room.token == Some("T") && room.expiresAt == Finite(1_800_001.0) && room.limiter == RoomLimiter.START
    requires |room.peers| > 0 && room.peers[0] == SENDER
    ensures Handle(room, CFG, ws, Greet(false), None, id, 1)
         == room.(peers := room.peers + [Peer(id, false, "", None, ws, false)], sent := room.sent + [To(SENDER, Pending(id, "", ""))])
  {
    assert Token.Upper("T") == "T";
  }

  lemma FoundBySocket(peers: seq<Peer>, k: nat)
    requires k < |peers| && forall i, j :: 0 <= i < j < |peers| ==> peers[i].ws != peers[j].ws
    ensures SocketIndex(peers, peers[k].ws) == Some(k)
  {
    var r := SocketIndex(peers, peers[k].ws);
    assert r.Some?;
  }

  lemma AcceptStep()
    ensures Handle(BOTH, CFG, 1, AcceptMsg("b"), None, "", 1)
         == BOTH.(peers := [SENDER, TOLD, SECOND], sent := BOTH.sent + [To(FIRST, Accepted)])
  {
    FoundBySocket(BOTH.peers, 0);
    IndexOfDistinct(BOTH.peers, 1);
  }

  lemma OfferStep()
    ensures var room := BOTH.(peers := [SENDER, TOLD, SECOND], sent := BOTH.sent + [To(FIRST, Accepted)]);
            Handle(room, CFG, 2, SignalMsg("a", OFFER), None, "", 1) == OFFERED
  {
    FoundBySocket([SENDER, TOLD, SECOND], 1);
    IndexOfDistinct([SENDER, TOLD, SECOND], 2);
  }

  lemma Extends(i: nat, sys: Sys)
    requires i < |EVENTS| && LegalRun(START, CFG, EVENTS[..i]) && Run(START, CFG, EVENTS[..i]) == sys && Legal(sys, EVENTS[i])
    ensures LegalRun(START, CFG, EVENTS[..i + 1]) && Run(START, CFG, EVENTS[..i + 1]) == Step(sys, CFG, EVENTS[i])
  {
    hide Step, Legal;
    RunAppended(START, CFG, EVENTS[..i], EVENTS[i]);
    assert EVENTS[..i + 1] == EVENTS[..i] + [EVENTS[i]];
  }

  lemma Greeted()
    ensures LegalRun(START, CFG, EVENTS[..2]) && Run(START, CFG, EVENTS[..2]) == Sys(GREETED, {"s"}, 1, [], Some(1))
  {
    assert EVENTS[..0] == [];
    Extends(0, START);
    Extends(1, Step(START, CFG, EVENTS[0]));
  }

  lemma Joined()
    ensures LegalRun(START, CFG, EVENTS[..4]) && Run(START, CFG, EVENTS[..4]) == Sys(BOTH, {"s", "b", "a"}, 1, [], Some(1))
  {
    hide Handle, Greet;
    Greeted();
    GreetIsHello(GREETED, 2, "b");
    ReceiverJoins(GREETED, 2, "b");
    Extends(2, Sys(GREETED, {"s"}, 1, [], Some(1)));
    var one := GREETED.(peers := GREETED.peers + [FIRST], sent := GREETED.sent + [To(SENDER, Pending("b", "", ""))]);
    assert one.peers[0] == SENDER;
    GreetIsHello(one, 3, "a");
    ReceiverJoins(one, 3, "a");
    Extends(3, Sys(one, {"s"} + {"b"}, 1, [], Some(1)));
    assert {"s"} + {"b"} + {"a"} == {"s", "b", "a"};
  }

  lemma GreetIsHello(room: State, ws: nat, id: string)
    requires room.token == Some("T")
    ensures var ev := Event(1, Receive(ws, Greet(false), None, id));
            IsHello(ev, false) && !IsHello(ev, true) && !Revokes(room, ev) && !Fails(room, ev)
  {
    assert Token.Upper("T") == "T";
  }

  /** This run is possible. */
  lemma RunsToOffer()
    ensures LegalRun(START, CFG, EVENTS) && Run(START, CFG, EVENTS).room == OFFERED
  {
    hide Handle;
    Joined();
    AcceptStep();
    OfferStep();
    var used := {"s", "b", "a"};
    var accepted := BOTH.(peers := [SENDER, TOLD, SECOND], sent := BOTH.sent + [To(FIRST, Accepted)]);
    Extends(4, Sys(BOTH, used, 1, [], Some(1)));
    Extends(5, Sys(accepted, used, 1, [], Some(1)));
    assert EVENTS[..6] == EVENTS;
  }

  /** In it the second receiver, which nobody accepted, gets an offer as the first text on its socket, and its
      session, still awaiting its accept, applies it. */
  lemma OfferBeforeAccept()
    ensures LegalRun(START, CFG, EVENTS)
    ensures var room := Run(START, CFG, EVENTS).room; var inbox := EndToEnd.Inbox(room.sent, 3);
            && !ToldAccepted(room, "a") && inbox == [Relay(SECOND, TOLD, Relayed("a", OFFER))]
            && EndToEnd.FirstOffer(inbox, 0)
            && Session.Run(EndToEnd.FRESH, EndToEnd.Feed(inbox[..0])).state == Session.AwaitingAccept
            && Session.Run(EndToEnd.FRESH, EndToEnd.Feed(inbox)).applied == ["x"]
  {
    hide Run, LegalRun, Session.Run, EndToEnd.Feed, RoomTexts.Read, SdpCodec.OfferSdp;
    RunsToOffer();
    InboxOfThird();
    var inbox := EndToEnd.Inbox(OFFERED.sent, 3);
    NothingFed(inbox);
    OfferIsRead();
    EndToEnd.FirstOfferArrives(inbox, 0);
    assert inbox[..0 + 1] == inbox;
  }

  lemma NothingFed(inbox: seq<Delivery>)
    ensures EndToEnd.Feed(inbox[..0]) == []
  {}

  lemma OfferIsRead()
    ensures var e := RoomTexts.Read(Relayed("a", OFFER));
            e.Some? && e.value.SdpOffer? && SdpCodec.OfferSdp(e.value.json) == Some("x")
  {
    hide RoomTexts.Read, SdpCodec.OfferSdp;
    XIsClean();
    SdpCodec.OfferIsClean();
    SdpCodec.StringifyClean("a");
    SdpCodec.PrintedSdpValid("a", "offer", "x");
    SdpCodec.SdpLookups("a", "offer", "x");
    EndToEnd.FlatOfferIsRead("a", OFFER, "x");
  }

  lemma XIsClean()
    ensures SdpCodec.Stringify("x") == "x" && SdpCodec.Allowed("x")
  {
    SdpCodec.StringifyClean("x");
  }

  lemma InboxOfThird()
    ensures EndToEnd.Inbox(OFFERED.sent, 3) == [Relay(SECOND, TOLD, Relayed("a", OFFER))]
  {
    var sent := OFFERED.sent;
    assert sent[..5][..4] == sent[..4] && sent[..4][..3] == sent[..3] && sent[..3][..2] == sent[..2];
    assert sent[..2][..1] == sent[..1] && sent[..1][..0] == [];
    assert EndToEnd.Inbox(sent[..1], 3) == [];
    assert EndToEnd.Inbox(sent[..2], 3) == [];
    assert EndToEnd.Inbox(sent[..3], 3) == [];
    assert EndToEnd.Inbox(sent[..4], 3) == [];
    assert sent[..|sent| - 1] == sent[..4];
  }
}

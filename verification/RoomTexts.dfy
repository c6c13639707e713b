/** The texts between the room and the plugin: what the server prints (backend/src/room.ts:190, 198-237, 245-270,
    280, 294-298), how the plugin reads it, and what the server reads of what the plugin sends. */
module RoomTexts {
  import opened Common
  import opened Scanner
  import opened FlatObject
  import opened Signaling
  import opened SdpCodec
  import Room

  function TypeField(name: string): Field { Field("type", Str(name)) }

  function Digits(n: nat): string {
    if n < 10 then ['0' + n as char] else Digits(n / 10) + ['0' + (n % 10) as char]
  }

  function Decimal(n: int): string {
    if n < 0 then "-" + Digits(-n) else Digits(n)
  }

  /** `{ ...msg, peer_id: peer }`: the value is replaced where it stands, or added at the end. */
  function Renamed(fields: seq<Field>, peer: string): (r: seq<Field>)
    ensures Lookup(fields, "type") == Lookup(r, "type")
  {
    if fields == [] then [Field("peer_id", Str(Stringify(peer)))]
    else if fields[0].key == "peer_id" then [Field("peer_id", Str(Stringify(peer)))] + fields[1..]
    else [fields[0]] + Renamed(fields[1..], peer)
  }

  /** The fields of what the room sends as text. */
  function Fields(msg: Room.Out): Option<seq<Field>> {
    match msg
    case TokenIs(token) =>
      Some([TypeField("token"), Field("token", match token case None => Bare("null") case Some(t) => Str(Stringify(t)))])
    case TokenInvalid => Some([TypeField("token_invalid")])
    case TokenLockedOut(retry) => Some([TypeField("token_locked_out"), Field("retry_after", Bare(Decimal(retry)))])
    case Pending(peer, name, fingerprint) => Some(PendingFields(peer, name, fingerprint))
    case Accepted => Some([TypeField("accepted")])
    case Rejected => Some([TypeField("rejected")])
    case PeerGone(peer) => Some([TypeField("peer_gone"), Field("peer_id", Str(Stringify(peer)))])
    case Relayed(peer, signal) => Some(Renamed(signal, peer))
    case CloseSocket(_) => None
  }

  /** The event of what the room sends, as the plugin reads its text. */
  function Read(msg: Room.Out): Option<Event> {
    match Fields(msg) case None => None case Some(fs) => Dispatch(Print(fs))
  }

  lemma {:induction false} DigitsAreBare(n: nat)
    ensures BareText(Digits(n))
  {
    if n >= 10 {
      DigitsAreBare(n / 10);
    }
  }

  lemma Keys()
    ensures Identifier("type") && Identifier("token") && Identifier("retry_after") && Identifier("peer_id") && BareText("null")
  {}

  lemma TokenTypesAreWellEscaped()
    ensures WellEscaped("token") && WellEscaped("token_invalid") && WellEscaped("token_locked_out")
  {
    PlainIsWellEscaped("token");
    PlainIsWellEscaped("token_invalid");
    PlainIsWellEscaped("token_locked_out");
  }

  lemma PeerTypesAreWellEscaped()
    ensures WellEscaped("accepted") && WellEscaped("rejected") && WellEscaped("peer_gone")
  {
    PlainIsWellEscaped("accepted");
    PlainIsWellEscaped("rejected");
    PlainIsWellEscaped("peer_gone");
  }

  /** Whatever the room sends of its own is a flat object with names of letters. */
  lemma OwnTextsAreFlat(msg: Room.Out)
    requires Fields(msg).Some? && !msg.Relayed?
    ensures ValidFields(Fields(msg).value)
  {
    hide WellEscaped, Identifier, BareText, Stringify, Decimal;
    Keys();
    TokenTypesAreWellEscaped();
    PeerTypesAreWellEscaped();
    match msg
    case TokenIs(token) => if token.Some? { StringifyIsWellEscaped(token.value); }
    case TokenLockedOut(retry) => DecimalIsBare(retry);
    case Pending(peer, name, fingerprint) => PendingFieldsValid(peer, name, fingerprint);
    case PeerGone(peer) => StringifyIsWellEscaped(peer);
    case _ =>
  }

  lemma DecimalIsBare(n: int)
    ensures BareText(Decimal(n))
  {
    DigitsAreBare(if n < 0 then -n else n);
  }

  /** A relayed message that is flat is relayed flat. */
  lemma {:induction false} RenamedIsFlat(fields: seq<Field>, peer: string)
    requires ValidFields(fields)
    ensures ValidFields(Renamed(fields, peer))
  {
    hide WellEscaped, Identifier, BareText, Stringify;
    Keys();
    StringifyIsWellEscaped(peer);
    if fields != [] {
      RenamedIsFlat(fields[1..], peer);
    }
  }

  function NumberOf(s: string): int
    requires s != ""
  {
    (s[|s| - 1] as int - '0' as int) + if |s| == 1 then 0 else 10 * NumberOf(s[..|s| - 1])
  }

  /** A printed number reads back as that number, in digits, with a sign only if it is negative. */
  lemma DecimalReads(n: int)
    ensures var s := Decimal(n);
            s != "" && if n < 0 then s[0] == '-' && |s| > 1 && NumberOf(s[1..]) == -n else NumberOf(s) == n
    ensures forall i :: 0 <= i < |Decimal(n)| ==> '0' <= Decimal(n)[i] <= '9' || (i == 0 && n < 0)
  {
    DigitsRead(if n < 0 then -n else n);
    assert n < 0 ==> Decimal(n)[1..] == Digits(-n);
  }

  lemma {:induction false} DigitsRead(n: nat)
    ensures Digits(n) != "" && NumberOf(Digits(n)) == n
    ensures forall i :: 0 <= i < |Digits(n)| ==> '0' <= Digits(n)[i] <= '9'
  {
    if n >= 10 {
      DigitsRead(n / 10);
      var s := Digits(n / 10);
      assert Digits(n)[..|Digits(n)| - 1] == s;
    }
  }

  /** Everything the room sends of its own reads as the event it means, with the peer, token or text it carries. */
  lemma OwnTextsAreRead(msg: Room.Out)
    requires !msg.Relayed?
    ensures match msg
            case TokenIs(token) => Read(msg) == Some(TokenIssued(if token.None? then None else Some(Stringify(token.value))))
            case TokenInvalid => Read(msg) == Some(Event.TokenInvalid)
            case TokenLockedOut(retry) =>
              && Fields(msg) == Some([Field("type", Str("token_locked_out")), Field("retry_after", Bare(Decimal(retry)))])
              && Read(msg) == Some(Event.TokenLockedOut(Print(Fields(msg).value)))
            case Pending(peer, name, fingerprint) =>
              Read(msg) == Some(RequestPending(Some(Stringify(peer)), Print(PendingFields(peer, name, fingerprint))))
            case Accepted => Read(msg) == Some(RequestAccepted)
            case Rejected => Read(msg) == Some(RequestRejected)
            case PeerGone(peer) => Read(msg) == Some(Event.PeerGone(Some(Stringify(peer))))
            case CloseSocket(_) => Read(msg) == None
  {
    hide Print, Dispatch, Stringify, Decimal, ValidFields;
    if Fields(msg).Some? {
      OwnTextsAreFlat(msg);
      DispatchReadsFields(Fields(msg).value);
    }
    OwnLookups(msg);
  }

  lemma OwnLookups(msg: Room.Out)
    requires !msg.Relayed?
    ensures match msg
            case TokenIs(token) =>
              Lookup(Fields(msg).value, "token") == (match token case None => None case Some(t) => Some(Stringify(t)))
            case Pending(peer, name, fingerprint) => Lookup(Fields(msg).value, "peer_id") == Some(Stringify(peer))
            case PeerGone(peer) => Lookup(Fields(msg).value, "peer_id") == Some(Stringify(peer))
            case _ => true
  {
    hide Stringify, Decimal;
    match msg
    case Pending(peer, name, fingerprint) => PendingLookups(peer, name, fingerprint);
    case TokenIs(token) =>
      var fs := Fields(msg).value;
      assert fs[1..][0] == fs[1] && fs[1..][1..] == [];
      assert Lookup(fs[1..], "token") == if token.None? then None else Some(Stringify(token.value));
    case _ =>
  }

  lemma {:induction false} RenamedKeeps(fields: seq<Field>, peer: string, key: string)
    requires key != "peer_id"
    ensures Lookup(Renamed(fields, peer), key) == Lookup(fields, key)
  {
    hide Stringify;
    if fields != [] {
      RenamedKeeps(fields[1..], peer, key);
      assert ([fields[0]] + Renamed(fields[1..], peer))[1..] == Renamed(fields[1..], peer);
    }
  }

  /** A relayed message whose text the plugin takes for an accept. */
  predicate ReadsAsAccept(msg: Room.Out) {
    msg.Relayed? && Read(msg) == Some(RequestAccepted)
  }

  /** Of the room's own messages only its accept reads as one. */
  lemma OnlyAcceptsReadSo(msg: Room.Out)
    ensures Read(msg) == Some(RequestAccepted) <==> msg == Room.Accepted || ReadsAsAccept(msg)
  {
    hide Print, Dispatch, Stringify, Decimal, ValidFields;
    if Fields(msg).Some? && !msg.Relayed? {
      OwnTextsAreFlat(msg);
      DispatchReadsFields(Fields(msg).value);
    }
  }

  /** A relayed flat object never does: the scanner finds its own type. */
  lemma FlatRelayIsNoAccept(peer: string, signal: Room.Signal)
    requires ValidFields(signal)
    ensures !ReadsAsAccept(Room.Relayed(peer, signal))
  {
    hide Print, Dispatch, Renamed, ValidFields;
    RenamedIsFlat(signal, peer);
    DispatchReadsFields(Renamed(signal, peer));
  }

  // ----- what the plugin makes of relayed flat objects -----

  lemma {:induction false} RenamedPeer(fields: seq<Field>, peer: string)
    ensures Lookup(Renamed(fields, peer), "peer_id") == Some(Stringify(peer))
  {
    hide Stringify;
    if fields != [] && fields[0].key != "peer_id" {
      RenamedPeer(fields[1..], peer);
      assert ([fields[0]] + Renamed(fields[1..], peer))[1..] == Renamed(fields[1..], peer);
    }
  }

  /** Every relayed flat description or candidate, with any further fields in any order, arrives by its type,
      from the peer the room names. */
  lemma FlatRelayIsRead(peer: string, signal: Room.Signal)
    requires ValidFields(signal)
    ensures var json, from := Print(Renamed(signal, peer)), Some(Stringify(peer));
            Read(Room.Relayed(peer, signal)) == Some(
              if Lookup(signal, "type") == Some("ice") then IceCandidate(from, json)
              else if Lookup(signal, "sdp_type") == Some("offer") then SdpOffer(from, json)
              else SdpAnswer(from, json))
  {
    hide Print, Dispatch, Renamed, ValidFields, Lookup, Stringify;
    RenamedIsFlat(signal, peer);
    RenamedPeer(signal, peer);
    RenamedKeeps(signal, peer, "sdp_type");
    DispatchReadsFields(Renamed(signal, peer));
  }

  /** The receiver unescapes the whole field; the sender, and both for candidates, take what stands before the
      first quote. */
  lemma FlatRelayIsDecoded(peer: string, signal: Room.Signal)
    requires ValidFields(signal)
    ensures var json := Print(Renamed(signal, peer));
            && (Lookup(signal, "sdp").Some? ==>
                  var raw := Lookup(signal, "sdp").value;
                  OfferSdp(json) == Some(Unescape(raw)) && AnswerSdp(json) == Some(BeforeQuote(raw)))
            && (Lookup(signal, "candidate").Some? && Lookup(signal, "mid").Some? ==>
                  IceParts(json) == Some((BeforeQuote(Lookup(signal, "candidate").value), BeforeQuote(Lookup(signal, "mid").value))))
  {
    hide Print, Renamed, ValidFields, Lookup, Pattern, OccursAt, StringEnd, Unescape, Identifier, Strchr;
    var fs := Renamed(signal, peer);
    RenamedIsFlat(signal, peer);
    RenamedKeeps(signal, peer, "sdp");
    RenamedKeeps(signal, peer, "candidate");
    RenamedKeeps(signal, peer, "mid");
    DecodedKeys();
    PatternLength("sdp");
    PatternCutsField(fs, "sdp");
    if Lookup(fs, "sdp").Some? {
      TextAfterCutsField(fs, "sdp");
    }
    if Lookup(fs, "candidate").Some? && Lookup(fs, "mid").Some? {
      TextAfterCutsField(fs, "candidate");
      TextAfterCutsField(fs, "mid");
    }
  }

  lemma DecodedKeys()
    ensures Identifier("sdp") && Identifier("candidate") && Identifier("mid")
  {}

  lemma PrintedBeforeQuote(s: string)
    ensures BeforeQuote(Stringify(s)) == s <==> Stringify(s) == s
  {
    hide Stringify, CleanUpToBackslashes, Strchr;
    QuoteFree(Stringify(s));
    QuoteIsOwn(s);
    QuoteIsKept(s);
    CleanHasNoQuote(s);
    var raw := BeforeQuote(Stringify(s));
    assert '"' !in raw;
    if '"' !in s {
      assert raw == Stringify(s);
    }
  }

  /** An answer that comes through the room decodes to the description that was relayed if and only if the
      server's print of it needs no escape at all. */
  lemma RelayedAnswerExactly(peer: string, signal: Room.Signal, sdp: string)
    requires ValidFields(signal) && Lookup(signal, "sdp") == Some(Stringify(sdp))
    ensures AnswerSdp(Print(Renamed(signal, peer))) == Some(sdp) <==> Stringify(sdp) == sdp
  {
    hide Print, Renamed, ValidFields, Lookup, Stringify, AnswerSdp, BeforeQuote;
    FlatRelayIsDecoded(peer, signal);
    PrintedBeforeQuote(sdp);
  }

  /** And so for candidates and their mids, in either direction. */
  lemma RelayedIceExactly(peer: string, signal: Room.Signal, candidate: string, mid: string)
    requires ValidFields(signal)
    requires Lookup(signal, "candidate") == Some(Stringify(candidate)) && Lookup(signal, "mid") == Some(Stringify(mid))
    ensures IceParts(Print(Renamed(signal, peer))) == Some((candidate, mid)) <==>
      (Stringify(candidate) == candidate && Stringify(mid) == mid)
  {
    hide Print, Renamed, ValidFields, Lookup, Stringify, IceParts, BeforeQuote;
    FlatRelayIsDecoded(peer, signal);
    PrintedBeforeQuote(candidate);
    PrintedBeforeQuote(mid);
  }

  // ----- outside flat objects -----

  const INNER := "{\"type\":\"accepted\""
  const PREFIX := "{\"a\":{\"type\":\"accepted\""

  /** An object with another one inside it, in front of its own type. */
  function Nesting(rest: seq<Field>): (r: Room.Signal) {
    NestingIsSignal(rest);
    [Field("a", Bare(INNER + "}")), TypeField("ice")] + rest
  }

  lemma NestingIsSignal(rest: seq<Field>)
    ensures Lookup([Field("a", Bare(INNER + "}")), TypeField("ice")] + rest, "type") == Some("ice")
  {
    var fs := [Field("a", Bare(INNER + "}")), TypeField("ice")] + rest;
    assert fs[1..][0] == TypeField("ice");
    assert Lookup(fs[1..], "type") == Some("ice");
  }

  lemma NestingText(rest: seq<Field>, peer: string)
    ensures PREFIX <= Print(Renamed(Nesting(rest), peer))
  {
    hide Stringify;
    var fs := Renamed(Nesting(rest), peer);
    NestedFirst(fs[0], Chain(',', fs[1..]));
  }

  lemma NestedFirst(f: Field, tail: string)
    requires f == Field("a", Bare(INNER + "}"))
    ensures PREFIX <= ['{'] + FieldText(f) + tail
  {
    assert PREFIX == ['{'] + ("\"a\":" + INNER);
    assert FieldText(f) == ("\"a\":" + INNER) + "}";
    assert ['{'] + FieldText(f) + tail == PREFIX + ("}" + tail);
  }

  lemma FirstChar(text: string, sub: string, k: nat)
    requires sub != ""
    ensures OccursAt(text, sub, k) ==> k < |text| && text[k] == sub[0]
  {}

  lemma InnerTypeIsFound(text: string)
    requires PREFIX <= text
    ensures DupStr(text, "type") == Some("accepted")
  {
    hide StringEnd;
    InnerTypeIsFirst(text);
    InnerTypeEnds(text);
    LeastAccepted(text, "type", Some(7));
  }

  lemma InnerTypeIsFirst(text: string)
    requires PREFIX <= text
    ensures Accepts(text, "type", 7) && SkipSeparators(text, 12) == 13
    ensures forall k: nat :: Accepts(text, "type", k) ==> 7 <= k
  {
    assert forall k :: 0 <= k < |PREFIX| ==> text[k] == PREFIX[k];
    assert text[7..11] == PREFIX[7..11] == "type";
    forall k | 0 <= k < 7 ensures !OccursAt(text, "type", k) {
      FirstChar(text, "type", k);
    }
  }

  lemma InnerTypeEnds(text: string)
    requires PREFIX <= text
    ensures StringEnd(text, 14) == 22 && text[14..22] == "accepted"
  {
    assert forall k :: 0 <= k < |PREFIX| ==> text[k] == PREFIX[k];
    assert PREFIX[14..22] == "accepted";
    StringEndsAt(text, 14, 22);
  }

  lemma {:induction false} StringEndsAt(text: string, p: nat, e: nat)
    requires p <= e < |text| && text[e] == '"' && forall i :: p <= i < e ==> text[i] != '"' && text[i] != '\\'
    ensures StringEnd(text, p) == e
    decreases e - p
  {
    if p < e {
      StringEndsAt(text, p + 1, e);
    }
  }

  /** The scanner looks for a key at any depth. So a relayed message with an object inside it, in front of its
      type, can read as an accept although the room sent none. */
  lemma NestedObjectReadsAsAccept(peer: string, rest: seq<Field>)
    ensures !ValidFields(Nesting(rest)) && ReadsAsAccept(Room.Relayed(peer, Nesting(rest)))
  {
    hide Renamed, Print, FindStr, Stringify, Nesting;
    NestingText(rest, peer);
    InnerTypeIsFound(Print(Renamed(Nesting(rest), peer)));
    NestingIsNotFlat(rest);
  }

  lemma NestingIsNotFlat(rest: seq<Field>)
    ensures !ValidFields(Nesting(rest))
  {
    var f := Nesting(rest)[0];
    assert f.value.text[0] == '{';
  }

  // ----- what the server reads -----

  /** The fields of a text as the server prints them again, if it can read them. */
  function Reprint(fs: seq<Field>): Option<seq<Field>> {
    if fs == [] then Some([])
    else
      match (fs[0].value, Reprint(fs[1..]))
      case (Bare(_), Some(rest)) => Some([fs[0]] + rest)
      case (Str(raw), Some(rest)) =>
        if ParseString(raw).Some? then Some([Field(fs[0].key, Str(Stringify(ParseString(raw).value)))] + rest) else None
      case _ => None
  }

  /** The message the room obeys for a printed description or candidate. */
  function Understood(fs: seq<Field>): Option<Room.Message> {
    match Reprint(fs)
    case None => None
    case Some(signal) =>
      if !Room.IsSignal(signal) then None
      else
        match Lookup(fs, "peer_id")
        case None => Some(Room.SignalMsg("", signal))
        case Some(raw) => if ParseString(raw).Some? then Some(Room.SignalMsg(ParseString(raw).value, signal)) else None
  }

  lemma ReprintFirst(fs: seq<Field>, f: Field, raw: string)
    requires f.value == Str(raw)
    ensures Reprint([f] + fs) ==
      if ParseString(raw).Some? && Reprint(fs).Some?
      then Some([Field(f.key, Str(Stringify(ParseString(raw).value)))] + Reprint(fs).value) else None
  {
    hide ParseString, Stringify;
    assert ([f] + fs)[1..] == fs;
  }

  /** The offer a sender sends is understood as that very offer if and only if it has no control character
      besides tab, line feed and carriage return; any other is not understood at all. */
  lemma OfferIsUnderstood(peer: string, sdp: string)
    requires ParseString(peer) == Some(peer)
    ensures Understood(SdpFields(peer, "offer", Escape(sdp)))
         == if Allowed(sdp) then Some(Room.SignalMsg(peer, SdpFields(Stringify(peer), "offer", Stringify(sdp)))) else None
  {
    hide ParseString, Escape, Allowed, Stringify, Reprint;
    ServerKeepsText(sdp);
    OfferIsClean();
    StringifyClean("sdp");
    StringifyParses("offer");
    StringifyParses("sdp");
    var fs := SdpFields(peer, "offer", Escape(sdp));
    assert fs == [fs[0]] + ([fs[1]] + ([fs[2]] + ([fs[3]] + [])));
    NothingToReprint();
    ReprintFirst([], fs[3], Escape(sdp));
    ReprintFirst([fs[3]] + [], fs[2], "offer");
    ReprintFirst([fs[2]] + ([fs[3]] + []), fs[1], peer);
    ReprintFirst([fs[1]] + ([fs[2]] + ([fs[3]] + [])), fs[0], "sdp");
    SdpLookups(peer, "offer", Escape(sdp));
    SdpLookups(Stringify(peer), "offer", Stringify(sdp));
    var signal := SdpFields(Stringify(peer), "offer", Stringify(sdp));
    assert signal == [signal[0]] + ([signal[1]] + ([signal[2]] + ([signal[3]] + [])));
  }

  lemma NothingToReprint()
    ensures Reprint([]) == Some([])
  {}
}

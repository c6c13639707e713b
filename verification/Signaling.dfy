/** The signaling client's messages: what it sends and the event each received text becomes
    (src/signaling.c:162-217, src/signaling.c:385-477). */
module Signaling {
  import opened Common
  import opened Scanner
  import opened FlatObject

  /** The events of the client; a `peer` is the copied `peer_id`, a `json` the received text. */
  datatype Event =
    | TokenIssued(token: Option<string>)
    | RequestPending(peer: Option<string>, json: string)
    | PeerGone(peer: Option<string>)
    | RequestAccepted
    | RequestRejected
    | TokenInvalid
    | TokenLockedOut(json: string)
    | SdpOffer(peer: Option<string>, json: string)
    | SdpAnswer(peer: Option<string>, json: string)
    | IceCandidate(peer: Option<string>, json: string)

  // ----- receiving -----

  /** The event of an object, read from its fields. `json` is the text handed on with it. */
  function EventOf(fs: seq<Field>, json: string): Option<Event> {
    var peer := Lookup(fs, "peer_id");
    match Lookup(fs, "type")
    case None => None
    case Some(t) =>
      if t == "token" then Some(TokenIssued(Lookup(fs, "token")))
      else if t == "pending" then Some(RequestPending(peer, json))
      else if t == "peer_gone" then Some(PeerGone(peer))
      else if t == "accepted" then Some(RequestAccepted)
      else if t == "rejected" then Some(RequestRejected)
      else if t == "token_invalid" then Some(TokenInvalid)
      else if t == "token_locked_out" then Some(TokenLockedOut(json))
      else if t == "sdp" then
        Some(if Lookup(fs, "sdp_type") == Some("offer") then SdpOffer(peer, json) else SdpAnswer(peer, json))
      else if t == "ice" then Some(IceCandidate(peer, json))
      else None
  }

  /** The receiving side of the client object: the token it remembers. */
  class Client {
    var token: Option<string>

    constructor (initial: Option<string>)
      ensures token == initial
    {
      token := initial;
    }

    /** On any text. */
    method HandleMessage(json: string) returns (event: Option<Event>)
      modifies this
      ensures event == Dispatch(json)
      ensures token == if event.Some? && event.value.TokenIssued? then event.value.token else old(token)
    {
      var matched := JsonEqStr(json, "type", "token");
      if matched {
        var tok := JsonDupStr(json, "token");
        token := tok;
        return Some(TokenIssued(tok));
      }
      matched := JsonEqStr(json, "type", "pending");
      if matched {
        var peer := JsonDupStr(json, "peer_id");
        return Some(RequestPending(peer, json));
      }
      matched := JsonEqStr(json, "type", "peer_gone");
      if matched {
        var peer := JsonDupStr(json, "peer_id");
        return Some(PeerGone(peer));
      }
      matched := JsonEqStr(json, "type", "accepted");
      if matched { return Some(RequestAccepted); }
      matched := JsonEqStr(json, "type", "rejected");
      if matched { return Some(RequestRejected); }
      matched := JsonEqStr(json, "type", "token_invalid");
      if matched { return Some(TokenInvalid); }
      matched := JsonEqStr(json, "type", "token_locked_out");
      if matched { return Some(TokenLockedOut(json)); }
      matched := JsonEqStr(json, "type", "sdp");
      if matched {
        var offer := JsonEqStr(json, "sdp_type", "offer");
        var peer := JsonDupStr(json, "peer_id");
        return Some(if offer then SdpOffer(peer, json) else SdpAnswer(peer, json));
      }
      matched := JsonEqStr(json, "type", "ice");
      if matched {
        var peer := JsonDupStr(json, "peer_id");
        return Some(IceCandidate(peer, json));
      }
      return None;
    }
  }

  /** The event of a text: the fields are read by the scanner. */
  function Dispatch(json: string): Option<Event> {
    var peer := DupStr(json, "peer_id");
    if EqStr(json, "type", "token") then Some(TokenIssued(DupStr(json, "token")))
    else if EqStr(json, "type", "pending") then Some(RequestPending(peer, json))
    else if EqStr(json, "type", "peer_gone") then Some(PeerGone(peer))
    else if EqStr(json, "type", "accepted") then Some(RequestAccepted)
    else if EqStr(json, "type", "rejected") then Some(RequestRejected)
    else if EqStr(json, "type", "token_invalid") then Some(TokenInvalid)
    else if EqStr(json, "type", "token_locked_out") then Some(TokenLockedOut(json))
    else if EqStr(json, "type", "sdp") then
      Some(if EqStr(json, "sdp_type", "offer") then SdpOffer(peer, json) else SdpAnswer(peer, json))
    else if EqStr(json, "type", "ice") then Some(IceCandidate(peer, json))
    else None
  }

  /** On every printed object the text-level dispatch is the field-level one. */
  lemma DispatchReadsFields(fs: seq<Field>)
    requires ValidFields(fs)
    ensures Dispatch(Print(fs)) == EventOf(fs, Print(fs))
  {
    hide Print, DupStr, Lookup, FindStr, Identifier, ValidFields;
    KeyNames();
    ScannerFindsField(fs, "type");
    ScannerFindsField(fs, "peer_id");
    ScannerFindsField(fs, "token");
    ScannerFindsField(fs, "sdp_type");
  }

  lemma KeyNames()
    ensures Identifier("type") && Identifier("peer_id") && Identifier("token") && Identifier("sdp_type")
  {}

  // ----- sending -----

  function EscapeChar(c: char): string {
    if c == '\\' then "\\\\"
    else if c == '"' then "\\\""
    else if c == '\n' then "\\n"
    else if c == '\r' then "\\r"
    else if c == '\t' then "\\t"
    else [c]
  }

  /** The sender's minimal escaping of an SDP. */
  function Escape(s: string): string {
    if s == "" then "" else EscapeChar(s[0]) + Escape(s[1..])
  }

  function SdpFields(peer: string, sdpType: string, rawSdp: string): seq<Field> {
    [Field("type", Str("sdp")), Field("peer_id", Str(peer)), Field("sdp_type", Str(sdpType)), Field("sdp", Str(rawSdp))]
  }

  method SendSdp(peer: string, sdpType: string, sdp: string) returns (json: string)
    ensures json == Print(SdpFields(peer, sdpType, Escape(sdp)))
  {
    var esc := "";
    var p := 0;
    while p < |sdp|
      invariant p <= |sdp| && esc + Escape(sdp[p..]) == Escape(sdp)
    {
      assert sdp[p..][1..] == sdp[p + 1..];
      assert esc + (EscapeChar(sdp[p]) + Escape(sdp[p + 1..])) == (esc + EscapeChar(sdp[p])) + Escape(sdp[p + 1..]);
      match sdp[p] {
        case '\\' => esc := esc + "\\\\";
        case '"' => esc := esc + "\\\"";
        case '\n' => esc := esc + "\\n";
        case '\r' => esc := esc + "\\r";
        case '\t' => esc := esc + "\\t";
        case c => esc := esc + [c];
      }
      p := p + 1;
    }
    assert esc + "" == esc;
    json := SdpFormat(peer, sdpType, esc);
    SdpText(peer, sdpType, esc);
  }

  /** The format strings of `send_sdp` and `send_ice`, filled in. */
  function SdpFormat(peer: string, sdpType: string, raw: string): string {
    "{" + "\"type\":\"sdp\""
    + ("," + ("\"peer_id\":\"" + peer + "\"")
       + ("," + ("\"sdp_type\":\"" + sdpType + "\"")
          + ("," + ("\"sdp\":\"" + raw + "\"") + "}")))
  }

  function IceFormat(peer: string, candidate: string, mid: string, mline: string): string {
    "{" + "\"type\":\"ice\""
    + ("," + ("\"peer_id\":\"" + peer + "\"")
       + ("," + ("\"candidate\":\"" + candidate + "\"")
          + ("," + ("\"mid\":\"" + mid + "\"")
             + ("," + ("\"mline\":" + mline) + "}"))))
  }

  lemma SdpText(peer: string, sdpType: string, raw: string)
    ensures Print(SdpFields(peer, sdpType, raw)) == SdpFormat(peer, sdpType, raw)
  {
    StringField("type", "sdp", "\"type\":\"");
    assert "\"type\":\"" + "sdp" + "\"" == "\"type\":\"sdp\"";
    StringField("peer_id", peer, "\"peer_id\":\"");
    StringField("sdp_type", sdpType, "\"sdp_type\":\"");
    StringField("sdp", raw, "\"sdp\":\"");
    hide FieldText;
    var fs := SdpFields(peer, sdpType, raw);
    assert Chain(',', fs[4..]) == "}";
    assert Chain(',', fs[3..]) == "," + FieldText(fs[3]) + Chain(',', fs[4..]) by { assert fs[3..][1..] == fs[4..]; }
    assert Chain(',', fs[2..]) == "," + FieldText(fs[2]) + Chain(',', fs[3..]) by { assert fs[2..][1..] == fs[3..]; }
    assert Chain(',', fs[1..]) == "," + FieldText(fs[1]) + Chain(',', fs[2..]) by { assert fs[1..][1..] == fs[2..]; }
  }

  lemma IceText(peer: string, candidate: string, mid: string, mline: string)
    ensures Print(IceFields(peer, candidate, mid, mline)) == IceFormat(peer, candidate, mid, mline)
  {
    StringField("type", "ice", "\"type\":\"");
    assert "\"type\":\"" + "ice" + "\"" == "\"type\":\"ice\"";
    StringField("peer_id", peer, "\"peer_id\":\"");
    StringField("candidate", candidate, "\"candidate\":\"");
    StringField("mid", mid, "\"mid\":\"");
    assert FieldText(Field("mline", Bare(mline))) == "\"mline\":" + mline;
    hide FieldText;
    var fs := IceFields(peer, candidate, mid, mline);
    assert Chain(',', fs[5..]) == "}";
    assert Chain(',', fs[4..]) == "," + FieldText(fs[4]) + Chain(',', fs[5..]) by { assert fs[4..][1..] == fs[5..]; }
    assert Chain(',', fs[3..]) == "," + FieldText(fs[3]) + Chain(',', fs[4..]) by { assert fs[3..][1..] == fs[4..]; }
    assert Chain(',', fs[2..]) == "," + FieldText(fs[2]) + Chain(',', fs[3..]) by { assert fs[2..][1..] == fs[3..]; }
    assert Chain(',', fs[1..]) == "," + FieldText(fs[1]) + Chain(',', fs[2..]) by { assert fs[1..][1..] == fs[2..]; }
  }

  lemma StringField(key: string, raw: string, open: string)
    requires open == "\"" + key + "\":\""
    ensures FieldText(Field(key, Str(raw))) == open + raw + "\""
  {}

  function IceFields(peer: string, candidate: string, mid: string, mline: string): seq<Field> {
    [Field("type", Str("ice")), Field("peer_id", Str(peer)), Field("candidate", Str(candidate)),
     Field("mid", Str(mid)), Field("mline", Bare(mline))]
  }

  // ----- escaping -----

  /** Free of quotes and backslashes, as names, ids, candidates and mids must be: they are printed
      as they are. */
  predicate Plain(s: string) {
    '"' !in s && '\\' !in s
  }

  lemma {:induction false} PlainIsWellEscaped(s: string)
    requires Plain(s)
    ensures WellEscaped(s)
  {
    if s != "" {
      PlainIsWellEscaped(s[1..]);
    }
  }

  lemma {:induction false} EscapedIsWellEscaped(s: string)
    ensures WellEscaped(Escape(s))
  {
    if s != "" {
      EscapedIsWellEscaped(s[1..]);
      var e := EscapeChar(s[0]);
      assert (e + Escape(s[1..]))[|e|..] == Escape(s[1..]);
    }
  }
}

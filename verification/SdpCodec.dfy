/** The decoders of relayed session descriptions and candidates (src/receive-session.c:252-321,
    src/sender.c:413-459), and the round trips through the signaling text. */
module SdpCodec {
  import opened Common
  import opened Scanner
  import opened FlatObject
  import opened Signaling

  // ----- the receiver's offer decoder -----

  function UnescapeChar(e: char): char {
    if e == 'n' then '\n' else if e == 'r' then '\r' else if e == 't' then '\t' else e
  }

  function Unescape(s: string): string {
    if s == "" then ""
    else if s[0] == '\\' && |s| > 1 then [UnescapeChar(s[1])] + Unescape(s[2..])
    else [s[0]] + Unescape(s[1..])
  }

  /** The description the receiver applies for a text, if any. */
  function OfferSdp(json: string): Option<string> {
    match Strstr(json, Pattern("sdp"), 0)
    case None => None
    case Some(q) => Some(Unescape(json[q + 7..StringEnd(json, q + 7)]))
  }

  method DecodeOffer(json: string) returns (sdp: Option<string>)
    ensures sdp == OfferSdp(json)
  {
    var hit := Strstr(json, Pattern("sdp"), 0);
    if hit.None? {
      return None;
    }
    var p := hit.value + 7;
    var end := p;
    while end < |json|
      invariant p <= end <= |json| && StringEnd(json, end) == StringEnd(json, p)
      decreases |json| - end
    {
      if json[end] == '\\' && end + 1 < |json| {
        end := end + 2;
        continue;
      }
      if json[end] == '"' {
        break;
      }
      end := end + 1;
    }
    var text := UnescapeSpan(json[p..end]);
    return Some(text);
  }

  /** The unescape loop writes into a buffer of the span's length, which it cannot overrun. */
  method UnescapeSpan(span: string) returns (text: string)
    ensures text == Unescape(span)
  {
    var len := |span|;
    var buffer := new char[len + 1];
    var i, j := 0, 0;
    while i < len
      invariant j <= i <= len
      invariant buffer[..j] + Unescape(span[i..]) == Unescape(span)
    {
      UnescapeAt(span, i);
      ghost var done, start := buffer[..j], i;
      if span[i] == '\\' && i + 1 < len {
        match span[i + 1] {
          case 'n' => buffer[j] := '\n';
          case 'r' => buffer[j] := '\r';
          case 't' => buffer[j] := '\t';
          case e => buffer[j] := e;
        }
        i := i + 1;
      } else {
        buffer[j] := span[i];
      }
      i, j := i + 1, j + 1;
      AppendedChar(buffer[..j], done, buffer[j - 1], Unescape(span[i..]), Unescape(span[start..]));
    }
    text := buffer[..j];
    assert text + "" == text;
  }

  lemma UnescapeAt(span: string, i: nat)
    requires i < |span|
    ensures Unescape(span[i..])
         == if span[i] == '\\' && i + 1 < |span| then [UnescapeChar(span[i + 1])] + Unescape(span[i + 2..])
            else [span[i]] + Unescape(span[i + 1..])
  {
    assert span[i..][1..] == span[i + 1..];
    if i + 1 < |span| {
      assert span[i..][2..] == span[i + 2..] && span[i..][1] == span[i + 1];
    }
  }

  // ----- the sender's answer decoder, which does not unescape -----

  function AnswerSdp(json: string): Option<string> {
    match Strstr(json, Pattern("sdp"), 0)
    case None => None
    case Some(q) =>
      match Strchr(json, '"', q + 7)
      case None => None
      case Some(end) => Some(json[q + 7..end])
  }

  // ----- the candidate decoder, the same on both sides -----

  function TextAfter(json: string, pattern: string): Option<string> {
    match Strstr(json, pattern, 0)
    case None => None
    case Some(q) =>
      match Strchr(json, '"', q + |pattern|)
      case None => None
      case Some(end) => Some(json[q + |pattern|..end])
  }

  /** The candidate and its mid, when both are there. */
  function IceParts(json: string): Option<(string, string)> {
    match (TextAfter(json, Pattern("candidate")), TextAfter(json, Pattern("mid")))
    case (Some(candidate), Some(mid)) => Some((candidate, mid))
    case _ => None
  }

  // ----- round trips -----

  lemma {:induction false} UnescapeInvertsEscape(s: string)
    ensures Unescape(Escape(s)) == s
  {
    if s != "" {
      var e := EscapeChar(s[0]);
      var rest := Escape(s[1..]);
      UnescapeInvertsEscape(s[1..]);
      assert (e + rest)[|e|..] == rest;
      assert Unescape(e + rest) == [s[0]] + Unescape(rest);
    }
  }

  /** On a printed object the pattern search and the quote scan cut out exactly the field. */
  lemma PatternCutsField(fs: seq<Field>, key: string)
    requires ValidFields(fs) && Identifier(key)
    ensures var hit := Strstr(Print(fs), Pattern(key), 0);
            match Lookup(fs, key)
            case None => hit.None?
            case Some(raw) =>
              && hit.Some?
              && var p := hit.value + |key| + 4; var end := p + |raw|;
              && end < |Print(fs)| && Print(fs)[p..end] == raw && Print(fs)[end] == '"' && StringEnd(Print(fs), p) == end
  {
    hide Print, ValidFields, Identifier, Lookup, FindStr, StringEnd, OccursAt, Pattern;
    PatternLength(key);
    FoundSpan(Print(fs), key);
    ScannerFindsField(fs, key);
    PatternFindsField(fs, key);
  }

  lemma FoundSpan(text: string, key: string)
    ensures match FindStr(text, key)
            case None => DupStr(text, key) == None
            case Some(span) =>
              && span.start <= span.end <= |text| && DupStr(text, key) == Some(text[span.start..span.end])
              && span.end == StringEnd(text, span.start) && (span.end < |text| ==> text[span.end] == '"')
  {
    hide Accepts;
  }

  /** The text up to the first quote of an escaped value. */
  lemma TextAfterCutsField(fs: seq<Field>, key: string)
    requires ValidFields(fs) && Identifier(key) && Lookup(fs, key).Some?
    ensures var raw := Lookup(fs, key).value;
            TextAfter(Print(fs), Pattern(key)) == Some(match Strchr(raw, '"', 0) case None => raw case Some(n) => raw[..n])
  {
    hide Print, ValidFields, Identifier, Lookup, Pattern, StringEnd, OccursAt;
    PatternLength(key);
    PatternCutsField(fs, key);
    var json := Print(fs);
    var raw := Lookup(fs, key).value;
    var p := Strstr(json, Pattern(key), 0).value + |key| + 4;
    assert json[p..][..|raw|] == raw;
    FirstQuote(json, p, raw);
  }

  lemma PatternLength(key: string)
    ensures |Pattern(key)| == |key| + 4
  {}

  lemma FirstQuote(json: string, p: nat, raw: string)
    requires p + |raw| < |json| && json[p..p + |raw|] == raw && json[p + |raw|] == '"'
    ensures var n := match Strchr(raw, '"', 0) case None => |raw| case Some(n) => n;
            Strchr(json, '"', p) == Some(p + n) && json[p..p + n] == raw[..n]
  {
    hide Strchr;
    var n := match Strchr(raw, '"', 0) case None => |raw| case Some(n) => n;
    QuoteFree(raw);
    SliceAt(json, p, raw);
    assert json[p..p + n] == raw[..n];
    FirstAt(json, '"', p, p + n);
  }

  lemma QuoteFree(raw: string)
    ensures var n := match Strchr(raw, '"', 0) case None => |raw| case Some(n) => n;
            n <= |raw| && (n < |raw| ==> raw[n] == '"') && forall i :: 0 <= i < n ==> raw[i] != '"'
  {
    var n := match Strchr(raw, '"', 0) case None => |raw| case Some(n) => n;
    assert raw[0..] == raw && '"' !in raw[0..n];
    assert forall i :: 0 <= i < n ==> raw[i] == raw[0..n][i];
  }

  lemma SliceAt(json: string, p: nat, raw: string)
    requires p + |raw| <= |json| && json[p..p + |raw|] == raw
    ensures forall i :: p <= i < p + |raw| ==> json[i] == raw[i - p]
  {
    assert forall i :: p <= i < p + |raw| ==> json[i] == json[p..p + |raw|][i - p];
  }

  lemma {:induction false} FirstAt(text: string, c: char, p: nat, e: nat)
    requires p <= e < |text| && text[e] == c && forall i :: p <= i < e ==> text[i] != c
    ensures Strchr(text, c, p) == Some(e)
    decreases e - p
  {
    if p < e {
      FirstAt(text, c, p + 1, e);
    }
  }

  lemma KeysAreIdentifiers()
    ensures Identifier("type") && Identifier("peer_id") && Identifier("sdp_type") && Identifier("sdp")
    ensures Identifier("candidate") && Identifier("mid") && Identifier("mline")
  {}

  lemma LiteralsAreWellEscaped()
    ensures WellEscaped("sdp") && WellEscaped("ice")
  {
    PlainIsWellEscaped("sdp");
    PlainIsWellEscaped("ice");
  }

  lemma SdpFieldsValid(peer: string, sdpType: string, sdp: string)
    requires Plain(peer) && Plain(sdpType)
    ensures ValidFields(SdpFields(peer, sdpType, Escape(sdp)))
  {
    KeysAreIdentifiers();
    LiteralsAreWellEscaped();
    PlainIsWellEscaped(peer);
    PlainIsWellEscaped(sdpType);
    EscapedIsWellEscaped(sdp);
    hide WellEscaped, Identifier;
  }

  lemma IceFieldsValid(peer: string, candidate: string, mid: string, mline: string)
    requires Plain(peer) && Plain(candidate) && Plain(mid) && BareText(mline)
    ensures ValidFields(IceFields(peer, candidate, mid, mline))
  {
    KeysAreIdentifiers();
    LiteralsAreWellEscaped();
    PlainIsWellEscaped(peer);
    PlainIsWellEscaped(candidate);
    PlainIsWellEscaped(mid);
    hide WellEscaped, Identifier, BareText;
  }

  lemma SdpLookups(peer: string, sdpType: string, raw: string)
    ensures var fs := SdpFields(peer, sdpType, raw);
            && Lookup(fs, "type") == Some("sdp") && Lookup(fs, "peer_id") == Some(peer)
            && Lookup(fs, "sdp_type") == Some(sdpType) && Lookup(fs, "sdp") == Some(raw)
  {
    var fs := SdpFields(peer, sdpType, raw);
    assert fs[1..][1..] == fs[2..] && fs[2..][1..] == fs[3..];
    assert Lookup(fs[1..], "peer_id") == Some(peer);
    assert Lookup(fs[2..], "sdp_type") == Some(sdpType) && Lookup(fs[1..], "sdp_type") == Some(sdpType);
    assert Lookup(fs[3..], "sdp") == Some(raw) && Lookup(fs[2..], "sdp") == Some(raw) && Lookup(fs[1..], "sdp") == Some(raw);
  }

  /** Either kind arrives as its event, from the peer named, with the text. */
  lemma SdpDispatch(peer: string, sdpType: string, sdp: string)
    requires Plain(peer) && Plain(sdpType)
    ensures var json := SdpFormat(peer, sdpType, Escape(sdp));
            Dispatch(json) == Some(if sdpType == "offer" then SdpOffer(Some(peer), json) else SdpAnswer(Some(peer), json))
  {
    hide ValidFields, Print, Lookup, Dispatch, SdpFormat, SdpFields, Escape;
    SdpFieldsValid(peer, sdpType, sdp);
    SdpLookups(peer, sdpType, Escape(sdp));
    SdpText(peer, sdpType, Escape(sdp));
    DispatchReadsFields(SdpFields(peer, sdpType, Escape(sdp)));
  }

  /** Where the pattern search finds the description in a sent text. */
  lemma SdpIsCut(peer: string, sdpType: string, sdp: string)
    requires Plain(peer) && Plain(sdpType)
    ensures var json := SdpFormat(peer, sdpType, Escape(sdp)); var hit := Strstr(json, Pattern("sdp"), 0);
            && hit.Some? && (var p := hit.value + 7; var end := p + |Escape(sdp)|;
            && end < |json| && json[p..end] == Escape(sdp) && json[end] == '"' && StringEnd(json, p) == end)
  {
    KeysAreIdentifiers();
    hide ValidFields, Print, Lookup, Identifier, SdpFormat, StringEnd, Pattern, OccursAt, SdpFields, Escape;
    SdpFieldsValid(peer, sdpType, sdp);
    SdpLookups(peer, sdpType, Escape(sdp));
    SdpText(peer, sdpType, Escape(sdp));
    PatternCutsField(SdpFields(peer, sdpType, Escape(sdp)), "sdp");
  }

  /** Main result: every offer sent arrives as an offer from that peer, and the receiver decodes the
      very description that was sent. No SDP character is excluded. */
  lemma OfferRoundTrip(peer: string, sdp: string)
    requires Plain(peer)
    ensures var json := SdpFormat(peer, "offer", Escape(sdp));
            Dispatch(json) == Some(SdpOffer(Some(peer), json)) && OfferSdp(json) == Some(sdp)
  {
    hide Dispatch, SdpFormat, Escape, StringEnd, Unescape, OccursAt;
    SdpDispatch(peer, "offer", sdp);
    SdpIsCut(peer, "offer", sdp);
    UnescapeInvertsEscape(sdp);
  }

  predicate NeedsEscape(c: char) {
    c == '\\' || c == '"' || c == '\n' || c == '\r' || c == '\t'
  }

  /** Escaping changes nothing, or makes the text longer. */
  lemma {:induction false} EscapeGrows(s: string)
    ensures |Escape(s)| >= |s|
    ensures (forall i :: 0 <= i < |s| ==> !NeedsEscape(s[i])) <==> |Escape(s)| == |s|
    ensures (forall i :: 0 <= i < |s| ==> !NeedsEscape(s[i])) ==> Escape(s) == s
  {
    if s != "" {
      EscapeGrows(s[1..]);
      assert s == [s[0]] + s[1..];
      assert |EscapeChar(s[0])| == if NeedsEscape(s[0]) then 2 else 1;
      assert (forall i :: 0 <= i < |s| ==> !NeedsEscape(s[i]))
        <==> !NeedsEscape(s[0]) && (forall i :: 0 <= i < |s[1..]| ==> !NeedsEscape(s[1..][i]));
    }
  }

  lemma {:induction false} EscapeKeepsQuotes(s: string)
    ensures '"' in Escape(s) <==> '"' in s
  {
    if s != "" {
      EscapeKeepsQuotes(s[1..]);
      assert s == [s[0]] + s[1..];
      assert '"' in EscapeChar(s[0]) <==> s[0] == '"';
    }
  }

  /** Main result: the sender reads an answer up to its first quote and does not unescape it, so the
      round trip holds exactly for the descriptions without a backslash, quote, line feed, carriage
      return or tab. */
  lemma AnswerRoundTripExactly(peer: string, sdpType: string, sdp: string)
    requires Plain(peer) && Plain(sdpType) && sdpType != "offer"
    ensures var json := SdpFormat(peer, sdpType, Escape(sdp));
            && Dispatch(json) == Some(SdpAnswer(Some(peer), json))
            && (AnswerSdp(json) == Some(sdp) <==> forall i :: 0 <= i < |sdp| ==> !NeedsEscape(sdp[i]))
  {
    AnswerText(peer, sdpType, sdp);
    var raw := Escape(sdp);
    EscapeGrows(sdp);
    EscapeKeepsQuotes(sdp);
    assert raw[0..] == raw;
    match Strchr(raw, '"', 0)
    case None =>
    case Some(n) =>
      assert raw[n] == '"' && raw[0..n] == raw[..n];
      assert '"' in sdp && '"' !in raw[..n];
      assert exists i :: 0 <= i < |sdp| && sdp[i] == '"';
  }

  lemma AnswerText(peer: string, sdpType: string, sdp: string)
    requires Plain(peer) && Plain(sdpType) && sdpType != "offer"
    ensures var json := SdpFormat(peer, sdpType, Escape(sdp)); var raw := Escape(sdp);
            && Dispatch(json) == Some(SdpAnswer(Some(peer), json))
            && AnswerSdp(json) == Some(match Strchr(raw, '"', 0) case None => raw case Some(n) => raw[..n])
  {
    hide Dispatch, SdpFormat, Escape, StringEnd, OccursAt;
    SdpDispatch(peer, sdpType, sdp);
    SdpIsCut(peer, sdpType, sdp);
    var json := SdpFormat(peer, sdpType, Escape(sdp));
    FirstQuote(json, Strstr(json, Pattern("sdp"), 0).value + 7, Escape(sdp));
  }

  /** Every candidate of plain text arrives, with its mid. */
  lemma IceRoundTrip(peer: string, candidate: string, mid: string, mline: string)
    requires Plain(peer) && Plain(candidate) && Plain(mid) && BareText(mline)
    ensures var json := IceFormat(peer, candidate, mid, mline);
            Dispatch(json) == Some(IceCandidate(Some(peer), json)) && IceParts(json) == Some((candidate, mid))
  {
    KeysAreIdentifiers();
    PlainHasNoQuote(candidate);
    PlainHasNoQuote(mid);
    hide ValidFields, Print, Lookup, Dispatch, Identifier, IceFormat, Pattern, OccursAt, IceFields, TextAfter;
    var fs := IceFields(peer, candidate, mid, mline);
    IceText(peer, candidate, mid, mline);
    IceFieldsValid(peer, candidate, mid, mline);
    IceLookups(peer, candidate, mid, mline);
    DispatchReadsFields(fs);
    TextAfterCutsField(fs, "candidate");
    TextAfterCutsField(fs, "mid");
  }

  lemma PlainHasNoQuote(s: string)
    requires Plain(s)
    ensures Strchr(s, '"', 0) == None
  {
    assert s[0..] == s;
  }

  lemma IceLookups(peer: string, candidate: string, mid: string, mline: string)
    ensures var fs := IceFields(peer, candidate, mid, mline);
            && Lookup(fs, "type") == Some("ice") && Lookup(fs, "peer_id") == Some(peer)
            && Lookup(fs, "candidate") == Some(candidate) && Lookup(fs, "mid") == Some(mid)
  {
    var fs := IceFields(peer, candidate, mid, mline);
    assert fs[1..][1..] == fs[2..] && fs[2..][1..] == fs[3..];
    assert Lookup(fs[1..], "peer_id") == Some(peer);
    assert Lookup(fs[2..], "candidate") == Some(candidate) && Lookup(fs[1..], "candidate") == Some(candidate);
    assert Lookup(fs[3..], "mid") == Some(mid) && Lookup(fs[2..], "mid") == Some(mid) && Lookup(fs[1..], "mid") == Some(mid);
  }

  // ----- through the server, which parses the text and prints the object again -----

  predicate Allowed(s: string) {
    forall i :: 0 <= i < |s| ==> s[i] >= ' ' || s[i] in "\t\n\r"
  }

  const HEX := "0123456789abcdef"

  /** One character as `JSON.stringify` prints it. */
  function StringifyChar(c: char): string {
    if c == '"' || c == '\\' || c == '\n' || c == '\r' || c == '\t' then EscapeChar(c)
    else if c as int == 8 then "\\b"
    else if c as int == 12 then "\\f"
    else if c < ' ' then "\\u00" + [HEX[c as int / 16]] + [HEX[c as int % 16]]
    else [c]
  }

  function Stringify(s: string): string {
    if s == "" then "" else StringifyChar(s[0]) + Stringify(s[1..])
  }

  function HexValue(c: char): Option<nat> {
    if '0' <= c <= '9' then Some(c as int - '0' as int)
    else if 'a' <= c <= 'f' then Some(c as int - 'a' as int + 10)
    else if 'A' <= c <= 'F' then Some(c as int - 'A' as int + 10)
    else None
  }

  /** The character four hexadecimal digits name; halves of a pair of them are not characters. */
  function HexChar(digits: string): Option<char>
    requires |digits| == 4
  {
    match (HexValue(digits[0]), HexValue(digits[1]), HexValue(digits[2]), HexValue(digits[3]))
    case (Some(a), Some(b), Some(c), Some(d)) =>
      var n := ((a * 16 + b) * 16 + c) * 16 + d;
      if n < 0xD800 || 0xE000 <= n < 0x10000 then Some(n as char) else None
    case _ => None
  }

  /** What a two-character escape stands for (RFC 8259 section 7). */
  function EscapedChar(e: char): Option<char> {
    if e == '"' || e == '\\' || e == '/' then Some(e)
    else if e == 'b' then Some(8 as char)
    else if e == 'f' then Some(12 as char)
    else if e == 'n' then Some('\n')
    else if e == 'r' then Some('\r')
    else if e == 't' then Some('\t')
    else None
  }

  function Prepend(c: Option<char>, rest: Option<string>): Option<string> {
    if c.Some? && rest.Some? then Some([c.value] + rest.value) else None
  }

  /** What `JSON.parse` makes of the text between the quotes of a string. */
  function ParseString(raw: string): Option<string> {
    if raw == "" then Some("")
    else if raw[0] == '\\' then
      if |raw| >= 6 && raw[1] == 'u' then Prepend(HexChar(raw[2..6]), ParseString(raw[6..]))
      else if |raw| >= 2 then Prepend(EscapedChar(raw[1]), ParseString(raw[2..]))
      else None
    else if raw[0] == '"' || raw[0] < ' ' then None
    else Prepend(Some(raw[0]), ParseString(raw[1..]))
  }

  /** The server reads from the sender's text the very description, and prints the same text again, exactly
      when the description has no control character besides tab, line feed and carriage return; any other
      it cannot read. */
  lemma {:induction false} ServerKeepsText(s: string)
    ensures ParseString(Escape(s)) == if Allowed(s) then Some(s) else None
    ensures Stringify(s) == Escape(s) <==> Allowed(s)
  {
    if s != "" {
      ServerKeepsText(s[1..]);
      var c := s[0];
      AllowedFirst(s);
      assert s == [c] + s[1..];
      ParseEscaped(c, Escape(s[1..]));
      if Allowed([c]) {
        assert [c][0] >= ' ' || [c][0] in "\t\n\r";
        assert StringifyChar(c) == EscapeChar(c);
        SamePrefix(EscapeChar(c), Stringify(s[1..]), Escape(s[1..]));
      } else {
        assert Stringify(s)[0] == '\\' && Escape(s)[0] == c;
      }
    }
  }

  lemma AllowedFirst(s: string)
    requires s != ""
    ensures Allowed(s) <==> Allowed([s[0]]) && Allowed(s[1..])
  {
    assert s == [s[0]] + s[1..];
  }

  lemma SamePrefix(e: string, a: string, b: string)
    ensures e + a == e + b <==> a == b
  {
    assert (e + a)[|e|..] == a && (e + b)[|e|..] == b;
  }

  lemma ParseEscaped(c: char, rest: string)
    ensures ParseString(EscapeChar(c) + rest) == if Allowed([c]) then Prepend(Some(c), ParseString(rest)) else None
  {
    var e := EscapeChar(c);
    assert (e + rest)[|e|..] == rest;
    assert Allowed([c]) <==> [c][0] >= ' ' || [c][0] in "\t\n\r";
  }

  /** Whatever the server prints reads back as what it was. */
  lemma {:induction false} StringifyParses(s: string)
    ensures ParseString(Stringify(s)) == Some(s)
  {
    if s != "" {
      StringifyParses(s[1..]);
      assert s == [s[0]] + s[1..];
      ParseStringified(s[0], Stringify(s[1..]));
    }
  }

  lemma ParseStringified(c: char, rest: string)
    ensures ParseString(StringifyChar(c) + rest) == Prepend(Some(c), ParseString(rest))
  {
    hide HexValue, HexChar;
    var e := StringifyChar(c);
    assert (e + rest)[|e|..] == rest;
    if |e| == 6 {
      ControlDigits(c);
      assert (e + rest)[2..6] == e[2..6] == ['0', '0', HEX[c as int / 16], HEX[c as int % 16]];
    }
  }

  lemma ControlDigits(c: char)
    requires c < ' '
    ensures HexChar(['0', '0', HEX[c as int / 16], HEX[c as int % 16]]) == Some(c)
  {
    HexOf(c as int / 16);
    HexOf(c as int % 16);
  }

  lemma HexOf(d: nat)
    requires d < 16
    ensures HexValue(HEX[d]) == Some(d) && HEX[d] != '"' && HEX[d] != '\\'
    ensures HexValue('0') == Some(0)
  {}

  /** What the receiver makes of a printed description: the description, exactly when the server could have
      read it from the sender. */
  lemma {:induction false} UnescapePrinted(s: string)
    ensures Unescape(Stringify(s)) == s <==> Allowed(s)
  {
    if s != "" {
      UnescapePrinted(s[1..]);
      UnescapeFirst(s[0], Stringify(s[1..]));
      AllowedFirst(s);
      assert s == [s[0]] + s[1..];
    }
  }

  lemma UnescapeFirst(c: char, rest: string)
    ensures var u := Unescape(StringifyChar(c) + rest);
            if Allowed([c]) then u == [c] + Unescape(rest) else u != "" && u[0] != c
  {
    var e := StringifyChar(c);
    assert (e + rest)[|e|..] == rest;
    assert Allowed([c]) <==> [c][0] >= ' ' || [c][0] in "\t\n\r";
  }

  lemma PrintedSdpValid(peer: string, sdpType: string, sdp: string)
    ensures ValidFields(SdpFields(Stringify(peer), Stringify(sdpType), Stringify(sdp)))
  {
    hide WellEscaped, Stringify, Identifier;
    KeysAreIdentifiers();
    LiteralsAreWellEscaped();
    StringifyIsWellEscaped(peer);
    StringifyIsWellEscaped(sdpType);
    StringifyIsWellEscaped(sdp);
  }

  lemma OfferIsClean()
    ensures Stringify("offer") == "offer"
  {
    StringifyClean("offer");
  }

  lemma {:induction false} StringifyClean(s: string)
    requires forall i :: 0 <= i < |s| ==> 'a' <= s[i] <= 'z'
    ensures Stringify(s) == s
  {
    if s != "" {
      StringifyClean(s[1..]);
    }
  }

  /** Every description printed by the server arrives as an offer or an answer, whatever its fields contain. */
  lemma RelayedSdpArrives(peer: string, sdpType: string, sdp: string)
    ensures var json := Print(SdpFields(Stringify(peer), Stringify(sdpType), Stringify(sdp)));
            && Dispatch(json) == Some(if Stringify(sdpType) == "offer" then SdpOffer(Some(Stringify(peer)), json)
                                      else SdpAnswer(Some(Stringify(peer)), json))
            && OfferSdp(json) == Some(Unescape(Stringify(sdp)))
  {
    hide ValidFields, Print, Lookup, Dispatch, Identifier, Pattern, OccursAt, SdpFields, StringEnd, Stringify, Unescape;
    var fs := SdpFields(Stringify(peer), Stringify(sdpType), Stringify(sdp));
    KeyOfSdp();
    PrintedSdpValid(peer, sdpType, sdp);
    SdpLookups(Stringify(peer), Stringify(sdpType), Stringify(sdp));
    DispatchReadsFields(fs);
    PatternLength("sdp");
    PatternCutsField(fs, "sdp");
  }

  lemma KeyOfSdp()
    ensures Identifier("sdp")
  {}

  /** An offer relayed by the server arrives as one, and decodes to the description it was relayed with if and
      only if that has no control character besides tab, line feed and carriage return. */
  lemma RelayedOfferRoundTrip(peer: string, sdp: string)
    ensures var json := Print(SdpFields(Stringify(peer), Stringify("offer"), Stringify(sdp)));
            && Dispatch(json) == Some(SdpOffer(Some(Stringify(peer)), json))
            && (OfferSdp(json) == Some(sdp) <==> Allowed(sdp))
  {
    hide Print, SdpFields, Dispatch, OfferSdp, Stringify, Unescape;
    RelayedSdpArrives(peer, "offer", sdp);
    OfferIsClean();
    UnescapePrinted(sdp);
  }

  // ----- the server's notice of a new receiver, read by the sender -----

  function PendingFields(peer: string, name: string, fingerprint: string): seq<Field> {
    [Field("type", Str("pending")), Field("peer_id", Str(Stringify(peer))), Field("name", Str(Stringify(name))),
     Field("fingerprint", Str(Stringify(fingerprint)))]
  }

  /** The name and fingerprint the sender admits a receiver with: each the text up to the next quote, cut
      to its buffer, or nothing. */
  function PendingParts(json: string): (string, string) {
    (match TextAfter(json, Pattern("name")) case None => "" case Some(n) => Truncate(n, 128),
     match TextAfter(json, Pattern("fingerprint")) case None => "" case Some(f) => Truncate(f, 128))
  }

  function BeforeQuote(raw: string): string {
    match Strchr(raw, '"', 0) case None => raw case Some(n) => raw[..n]
  }

  lemma {:induction false} StringifyIsWellEscaped(s: string)
    ensures WellEscaped(Stringify(s))
  {
    if s != "" {
      StringifyIsWellEscaped(s[1..]);
      CharKeepsWellEscaped(s[0], Stringify(s[1..]));
    }
  }

  lemma CharKeepsWellEscaped(c: char, rest: string)
    requires WellEscaped(rest)
    ensures WellEscaped(StringifyChar(c) + rest)
  {
    var e := StringifyChar(c);
    assert (e + rest)[|e|..] == rest;
    if |e| == 6 {
      assert e[0] == '\\' && e[2] == '0' && e[3] == '0';
      HexOf(c as int / 16);
      HexOf(c as int % 16);
      assert (e + rest)[2..] == e[2..] + rest;
      PlainPrefix(e[2..], rest);
    }
  }

  lemma {:induction false} PlainPrefix(s: string, rest: string)
    requires Plain(s) && WellEscaped(rest)
    ensures WellEscaped(s + rest)
  {
    if s == "" {
      assert s + rest == rest;
    } else {
      assert (s + rest)[1..] == s[1..] + rest;
      PlainPrefix(s[1..], rest);
    }
  }

  lemma PendingLookups(peer: string, name: string, fingerprint: string)
    ensures var fs := PendingFields(peer, name, fingerprint);
            && Lookup(fs, "type") == Some("pending") && Lookup(fs, "peer_id") == Some(Stringify(peer))
            && Lookup(fs, "name") == Some(Stringify(name)) && Lookup(fs, "fingerprint") == Some(Stringify(fingerprint))
  {
    hide Stringify;
    var fs := PendingFields(peer, name, fingerprint);
    assert fs[1..][1..] == fs[2..] && fs[2..][1..] == fs[3..];
    assert Lookup(fs[1..], "peer_id") == Some(Stringify(peer));
    assert Lookup(fs[2..], "name") == Some(Stringify(name)) && Lookup(fs[1..], "name") == Some(Stringify(name));
    assert Lookup(fs[3..], "fingerprint") == Some(Stringify(fingerprint));
    assert Lookup(fs[2..], "fingerprint") == Some(Stringify(fingerprint));
    assert Lookup(fs[1..], "fingerprint") == Some(Stringify(fingerprint));
  }

  lemma PendingFieldsValid(peer: string, name: string, fingerprint: string)
    ensures ValidFields(PendingFields(peer, name, fingerprint))
    ensures Identifier("name") && Identifier("fingerprint")
  {
    hide WellEscaped, Stringify, Identifier;
    PendingLiterals();
    StringifyIsWellEscaped(peer);
    StringifyIsWellEscaped(name);
    StringifyIsWellEscaped(fingerprint);
  }

  lemma PendingLiterals()
    ensures WellEscaped("pending")
    ensures Identifier("type") && Identifier("peer_id") && Identifier("name") && Identifier("fingerprint")
  {
    PlainIsWellEscaped("pending");
  }

  /** Every notice of a new receiver arrives as one, whatever its name and fingerprint contain; the sender
      takes of each what stands before its first quote, cut to 127 characters. */
  lemma PendingArrives(peer: string, name: string, fingerprint: string)
    ensures var json := Print(PendingFields(peer, name, fingerprint));
            && Dispatch(json) == Some(RequestPending(Some(Stringify(peer)), json))
            && PendingParts(json) == (Truncate(BeforeQuote(Stringify(name)), 128), Truncate(BeforeQuote(Stringify(fingerprint)), 128))
  {
    hide ValidFields, Print, Lookup, Dispatch, Identifier, Pattern, OccursAt, PendingFields, TextAfter, Stringify;
    var fs := PendingFields(peer, name, fingerprint);
    PendingFieldsValid(peer, name, fingerprint);
    PendingLookups(peer, name, fingerprint);
    DispatchReadsFields(fs);
    TextAfterCutsField(fs, "name");
    TextAfterCutsField(fs, "fingerprint");
  }

  predicate Clean(c: char) {
    StringifyChar(c) == [c]
  }

  predicate AllBackslashes(s: string) {
    forall i :: 0 <= i < |s| ==> s[i] == '\\'
  }

  /** Only backslashes at its end need an escape. */
  predicate CleanUpToBackslashes(s: string) {
    AllBackslashes(s) || (s != "" && Clean(s[0]) && CleanUpToBackslashes(s[1..]))
  }

  lemma StringifyGrows(s: string)
    ensures |Stringify(s)| >= |s| && (Stringify(s) == s <==> |Stringify(s)| == |s|)
  {
    if s != "" {
      StringifyGrows(s[1..]);
      var e := StringifyChar(s[0]);
      assert |e| >= 1 && (|e| == 1 ==> e == [s[0]]);
      assert s == [s[0]] + s[1..];
    }
  }

  lemma {:induction false} QuoteIsKept(s: string)
    ensures '"' in s ==> '"' in Stringify(s)
  {
    if s != "" {
      QuoteIsKept(s[1..]);
      assert s == [s[0]] + s[1..];
      assert s[0] == '"' ==> '"' in StringifyChar(s[0]);
    }
  }

  lemma {:induction false} QuoteIsOwn(s: string)
    ensures '"' in Stringify(s) ==> '"' in s
  {
    if s != "" {
      QuoteIsOwn(s[1..]);
      assert s == [s[0]] + s[1..];
      CharQuote(s[0]);
    }
  }

  lemma CharQuote(c: char)
    ensures '"' in StringifyChar(c) ==> c == '"'
  {
    if |StringifyChar(c)| == 6 {
      HexOf(c as int / 16);
      HexOf(c as int % 16);
    }
  }

  function Backslashes(k: nat): string { seq(k, _ => '\\') }

  lemma PrefixStep(s: string, w: string)
    requires s != "" && w != ""
    ensures s <= w <==> s[0] == w[0] && s[1..] <= w[1..]
  {
    if s[0] == w[0] && s[1..] <= w[1..] {
      assert forall i :: 1 <= i < |s| ==> s[i] == s[1..][i - 1] == w[1..][i - 1] == w[i];
    }
  }

  lemma AllBackslashesStep(s: string)
    requires s != ""
    ensures AllBackslashes(s) <==> s[0] == '\\' && AllBackslashes(s[1..])
  {
    assert s == [s[0]] + s[1..];
  }

  /** A text is a prefix of its printed form behind some backslashes only if it is all backslashes. */
  lemma {:induction false} ShiftedPrefix(s: string, k: nat)
    requires k > 0
    ensures s <= Backslashes(k) + Stringify(s) <==> AllBackslashes(s)
    decreases s
  {
    hide AllBackslashes, Stringify, Backslashes;
    if s == "" {
      NoBackslashes();
    } else {
      ShiftByOne(s, k);
      PrefixStep(s, Backslashes(k) + Stringify(s));
      AllBackslashesStep(s);
      if s[0] == '\\' {
        ShiftedPrefix(s[1..], k + 1);
      }
    }
  }

  lemma ShiftByOne(s: string, k: nat)
    requires s != "" && k > 0
    ensures var whole := Backslashes(k) + Stringify(s);
            whole != "" && whole[0] == '\\' && (s[0] == '\\' ==> whole[1..] == Backslashes(k + 1) + Stringify(s[1..]))
  {}

  lemma NoBackslashes()
    ensures AllBackslashes("")
  {}

  lemma {:induction false} PrefixOfPrinted(s: string)
    ensures s <= Stringify(s) <==> CleanUpToBackslashes(s)
  {
    hide AllBackslashes;
    if s == "" {
      NoBackslashes();
    } else {
      var c, t := s[0], s[1..];
      PrefixStep(s, Stringify(s));
      AllBackslashesStep(s);
      if Clean(c) {
        PrefixOfPrinted(t);
        assert Stringify(s)[1..] == Stringify(t);
      } else if c == '\\' {
        ShiftedPrefix(t, 1);
        assert Stringify(s)[1..] == Backslashes(1) + Stringify(t);
      }
    }
  }

  lemma {:induction false} CleanHasNoQuote(s: string)
    ensures CleanUpToBackslashes(s) || Stringify(s) == s ==> '"' !in s
  {
    if '"' in s {
      QuoteIsKept(s);
      QuoteNotPrefix(s);
    }
  }

  lemma {:induction false} QuoteNotPrefix(s: string)
    requires '"' in s
    ensures !CleanUpToBackslashes(s) && Stringify(s) != s
  {
    assert s == [s[0]] + s[1..];
    StringifyGrows(s);
    StringifyGrows(s[1..]);
    if s[0] != '"' {
      QuoteNotPrefix(s[1..]);
    }
  }

  /** So a name or fingerprint arrives as it was if and only if it has at most 127 characters and either none
      needs an escape, or it has exactly 127 and only backslashes at its end need one: the cut then takes
      their escapes away again. */
  lemma TextArrivesExactly(s: string)
    ensures Truncate(BeforeQuote(Stringify(s)), 128) == s <==>
      (|s| < 128 && (Stringify(s) == s || (|s| == 127 && CleanUpToBackslashes(s))))
  {
    hide Stringify, CleanUpToBackslashes, Strchr;
    QuoteFree(Stringify(s));
    CleanHasNoQuote(s);
    StringifyGrows(s);
    PrefixOfPrinted(s);
    QuoteIsOwn(s);
    var raw := BeforeQuote(Stringify(s));
    assert '"' !in raw;
    if '"' !in s {
      assert raw == Stringify(s);
      if |s| == 127 && |raw| > 127 {
        assert Truncate(raw, 128) == raw[..127];
        assert s <= raw <==> s == raw[..127];
      }
    }
  }
}

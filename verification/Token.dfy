/** Tokens: generation, the well-formedness check, normalisation of pasted text and the edge's
    routing (src/token.c, backend/src/index.ts, backend/src/room.ts:58-73). */
module Token {
  import opened Common

  const ALPHABET := "ABCDEFGHJKMNPQRSTUVWXYZ23456789"
  const PADDED := "ABCDEFGHJKKMNPQRSTUVWXYZ23456789"
  const TOKEN_BUF := 20

  // ----- the format, as the edge's regular expression states it -----

  predicate RegexClass(c: char) {
    'A' <= c <= 'H' || c in "JKMNPQRSTUVWXYZ" || '2' <= c <= '9'
  }

  /** `/^TTHR-[..]{4}-[..]{4}-[..]{4}$/` */
  predicate MatchesRegex(s: string) {
    |s| == 19 && s[..5] == "TTHR-" && forall p :: 5 <= p < 19 ==> SlotMatches(s, p)
  }

  predicate SlotMatches(s: string, p: nat)
    requires p < |s|
  {
    if p == 9 || p == 14 then s[p] == '-' else RegexClass(s[p])
  }

  /** The alphabet of both programs and the class of the regular expression are the same set. */
  lemma AlphabetIsRegexClass(c: char)
    ensures c in ALPHABET <==> RegexClass(c)
  {
    assert ALPHABET == "ABCDEFGH" + "JKMNPQRSTUVWXYZ" + "23456789";
    assert c in "ABCDEFGH" <==> 'A' <= c <= 'H';
    assert c in "23456789" <==> '2' <= c <= '9';
  }

  method CharInAlphabet(c: char) returns (found: bool)
    ensures found <==> RegexClass(c)
  {
    AlphabetIsRegexClass(c);
    for i := 0 to |ALPHABET|
      invariant c !in ALPHABET[..i]
    {
      if ALPHABET[i] == c {
        return true;
      }
    }
    assert ALPHABET[..|ALPHABET|] == ALPHABET;
    return false;
  }

  /** The plugin's checker accepts exactly what the edge's regular expression accepts. The text ends
      where its terminator is, which is no alphabet character and no dash. */
  method IsWellFormed(s: string) returns (ok: bool)
    ensures ok <==> MatchesRegex(s)
  {
    if !("TTHR-" <= s) {
      return false;
    }
    assert s[..5] == "TTHR-";
    var p := 5;
    for g := 0 to 3
      invariant p == 5 + 5 * g - (if g == 3 then 1 else 0) && p <= |s|
      invariant forall q :: 5 <= q < p ==> SlotMatches(s, q)
    {
      for i := 0 to 4
        invariant p == 5 + 5 * g + i && p <= |s|
        invariant forall q :: 5 <= q < p ==> SlotMatches(s, q)
      {
        var known := false;
        if p < |s| {
          known := CharInAlphabet(s[p]);
        }
        assert p < 19 && p != 9 && p != 14;
        if !known {
          assert p < |s| ==> !SlotMatches(s, p);
          return false;
        }
        p := p + 1;
      }
      if g + 1 < 3 {
        if p == |s| || s[p] != '-' {
          assert (p == 9 || p == 14) && (p < |s| ==> !SlotMatches(s, p));
          return false;
        }
        p := p + 1;
      }
    }
    return p == |s|;
  }

  // ----- generation -----

  /** The character that stands in slot `p` of the token spelled by twelve indices into a table. */
  function SlotChar(table: string, codes: seq<nat>, p: nat): char
    requires |codes| == 12 && p < 19 && forall k :: 0 <= k < 12 ==> codes[k] < |table|
  {
    if p < 5 then "TTHR-"[p]
    else if p == 9 || p == 14 then '-'
    else table[codes[p - 5 - (p - 5) / 5]]
  }

  function Spell(table: string, codes: seq<nat>): string
    requires |codes| == 12 && forall k :: 0 <= k < 12 ==> codes[k] < |table|
  {
    seq(19, p requires 0 <= p < 19 => SlotChar(table, codes, p))
  }

  /** Every token either program can generate is well formed. */
  lemma SpelledIsWellFormed(table: string, codes: seq<nat>)
    requires |codes| == 12 && forall k :: 0 <= k < 12 ==> codes[k] < |table|
    requires table == PADDED || table == ALPHABET
    ensures MatchesRegex(Spell(table, codes))
  {
    var t := Spell(table, codes);
    assert t[..5] == "TTHR-";
    forall p | 5 <= p < 19 ensures SlotMatches(t, p) {
      if p != 9 && p != 14 {
        var c := table[codes[p - 5 - (p - 5) / 5]];
        PaddedIsAlphabet(c);
        AlphabetIsRegexClass(c);
      }
    }
  }

  lemma PaddedIsAlphabet(c: char)
    ensures c in PADDED <==> c in ALPHABET
  {
    assert PADDED == "ABCDEFGHJ" + "K" + "KMNPQRSTUVWXYZ23456789";
    assert ALPHABET == "ABCDEFGHJ" + "KMNPQRSTUVWXYZ23456789";
    assert "KMNPQRSTUVWXYZ23456789"[0] == 'K';
  }

  function Codes(bytes: seq<byte>, size: nat): (codes: seq<nat>)
    requires size > 0
    ensures |codes| == |bytes| && forall k :: 0 <= k < |codes| ==> codes[k] < size
  {
    seq(|bytes|, k requires 0 <= k < |bytes| => bytes[k] as int % size)
  }

  /** The plugin's generator, on the bytes its random source delivered (none if it failed). */
  method Generate(out: array<char>, bytes: Option<seq<byte>>) returns (ok: bool)
    requires bytes.Some? ==> |bytes.value| == 12
    modifies out
    ensures ok <==> out.Length >= TOKEN_BUF && bytes.Some?
    ensures ok ==> out[..19] == Spell(PADDED, Codes(bytes.value, 32)) && out[19] == '\0'
    ensures !ok ==> out[..] == old(out[..])
  {
    if out.Length < TOKEN_BUF || bytes.None? {
      return false;
    }
    ghost var codes := Codes(bytes.value, 32);
    out[0], out[1], out[2], out[3], out[4] := 'T', 'T', 'H', 'R', '-';
    var pos := 5;
    for g := 0 to 3
      invariant pos == 5 + 5 * g - (if g == 3 then 1 else 0)
      invariant forall q :: 0 <= q < pos ==> out[q] == SlotChar(PADDED, codes, q)
    {
      for i := 0 to 4
        invariant pos == 5 + 5 * g + i
        invariant forall q :: 0 <= q < pos ==> out[q] == SlotChar(PADDED, codes, q)
      {
        var idx := bytes.value[g * 4 + i] as int % 32;
        assert pos - 5 - (pos - 5) / 5 == g * 4 + i;
        out[pos] := PADDED[idx];
        pos := pos + 1;
      }
      if g + 1 < 3 {
        out[pos] := '-';
        pos := pos + 1;
      }
    }
    out[pos] := '\0';
    return true;
  }

  /** The server's generator: three groups of four, each from fresh bytes. */
  method GenerateToken(bytes: seq<seq<byte>>) returns (token: string)
    requires |bytes| == 3 && forall g :: 0 <= g < 3 ==> |bytes[g]| == 4
    ensures token == Spell(ALPHABET, Codes(bytes[0] + bytes[1] + bytes[2], 31))
  {
    var groups := [];
    for g := 0 to 3
      invariant |groups| == g
      invariant forall h :: 0 <= h < g ==> IsGroup(groups[h], bytes[h])
    {
      var s := "";
      for i := 0 to 4
        invariant |s| == i && forall k :: 0 <= k < i ==> s[k] == ALPHABET[bytes[g][k] as int % 31]
      {
        s := s + [ALPHABET[bytes[g][i] as int % |ALPHABET|]];
      }
      groups := groups + [s];
    }
    token := "TTHR-" + groups[0] + "-" + groups[1] + "-" + groups[2];
    JoinedGroups(bytes, groups);
  }

  ghost predicate IsGroup(s: string, bytes: seq<byte>) {
    |s| == 4 && |bytes| == 4 && forall k :: 0 <= k < 4 ==> s[k] == ALPHABET[bytes[k] as int % 31]
  }

  lemma JoinedGroups(bytes: seq<seq<byte>>, groups: seq<string>)
    requires |bytes| == 3 && |groups| == 3 && forall g :: 0 <= g < 3 ==> IsGroup(groups[g], bytes[g])
    requires |bytes[0] + bytes[1] + bytes[2]| == 12
    ensures "TTHR-" + groups[0] + "-" + groups[1] + "-" + groups[2]
         == Spell(ALPHABET, Codes(bytes[0] + bytes[1] + bytes[2], 31))
  {
    var token := "TTHR-" + groups[0] + "-" + groups[1] + "-" + groups[2];
    var all := bytes[0] + bytes[1] + bytes[2];
    var spelled := Spell(ALPHABET, Codes(all, 31));
    forall p | 0 <= p < 19 ensures token[p] == spelled[p] {
      if p >= 5 && p != 9 && p != 14 {
        var k := p - 5 - (p - 5) / 5;
        assert token[p] == groups[k / 4][k % 4];
        assert all[k] == bytes[k / 4][k % 4];
      }
    }
  }

  // ----- normalisation -----

  /** C's `isspace`, and the quotes. */
  predicate Stripped(c: char) {
    c == ' ' || 9 <= c as int <= 13 || c == '"' || c == '\''
  }

  function ToUpper(c: char): char {
    if 'a' <= c <= 'z' then (c as int - 32) as char else c
  }

  function Canonical(c: char): char {
    var u := ToUpper(c);
    if u == 'O' then '0' else if u == 'I' || u == 'L' then '1' else u
  }

  /** The characters that normalisation keeps, in canonical form. */
  function Kept(s: string): string {
    if s == "" then ""
    else if Stripped(s[0]) then Kept(s[1..])
    else [Canonical(s[0])] + Kept(s[1..])
  }

  /** What a buffer of `size` characters holds of them. */
  function Normal(s: string, size: nat): (n: string)
    requires size > 0
    ensures |n| < size
  {
    Truncate(Kept(s), size)
  }

  method Normalise(text: string, out: array<char>) returns (ok: bool)
    modifies out
    ensures out.Length < TOKEN_BUF ==> !ok && out[..] == old(out[..])
    ensures out.Length >= TOKEN_BUF ==>
              var n := Normal(text, out.Length);
              out[..|n|] == n && out[|n|] == '\0' && (ok <==> MatchesRegex(n))
  {
    if out.Length < TOKEN_BUF {
      return false;
    }
    var j, p := 0, 0;
    while p < |text| && j + 1 < out.Length
      invariant p <= |text| && j < out.Length
      invariant out[..j] + Kept(text[p..]) == Kept(text)
      decreases |text| - p
    {
      ghost var done := out[..j];
      KeptAt(text, p);
      var c := text[p];
      p := p + 1;
      if Stripped(c) {
        continue;
      }
      c := ToUpper(c);
      if c == 'O' {
        c := '0';
      } else if c == 'I' || c == 'L' {
        c := '1';
      }
      out[j] := c;
      j := j + 1;
      AppendedChar(out[..j], done, c, Kept(text[p..]), Kept(text[p - 1..]));
    }
    out[j] := '\0';
    var n := out[..j];
    if p == |text| {
      assert text[p..] == "" && n + "" == n;
    } else {
      assert j == out.Length - 1 && Kept(text)[..j] == n;
    }
    assert n == Normal(text, out.Length);
    ok := IsWellFormed(n);
  }

  lemma KeptAt(text: string, p: nat)
    requires p < |text|
    ensures Kept(text[p..]) == if Stripped(text[p]) then Kept(text[p + 1..]) else [Canonical(text[p])] + Kept(text[p + 1..])
  {
    assert text[p..][1..] == text[p + 1..];
  }

  lemma {:induction false} KeptOfKept(s: string)
    requires forall i :: 0 <= i < |s| ==> !Stripped(s[i]) && Canonical(s[i]) == s[i]
    ensures Kept(s) == s
  {
    if s != "" {
      KeptOfKept(s[1..]);
    }
  }

  lemma RegexTextIsCanonical(t: string)
    requires MatchesRegex(t)
    ensures forall i :: 0 <= i < |t| ==> !Stripped(t[i]) && Canonical(t[i]) == t[i]
  {
    assert forall c: char :: RegexClass(c) ==> !Stripped(c) && Canonical(c) == c;
    forall i | 0 <= i < |t| ensures !Stripped(t[i]) && Canonical(t[i]) == t[i] {
      if i < 5 {
        assert t[i] == t[..5][i];
        assert t[i] in "TTHR-";
      } else {
        assert SlotMatches(t, i);
      }
    }
  }

  /** Normalising an accepted result changes nothing. */
  lemma NormaliseIsIdempotent(s: string, size: nat)
    requires size >= TOKEN_BUF && MatchesRegex(Normal(s, size))
    ensures Normal(Normal(s, size), size) == Normal(s, size)
  {
    RegexTextIsCanonical(Normal(s, size));
    KeptOfKept(Normal(s, size));
  }

  /** `s` is `t` with letters in either case and with spaces and quotes put in anywhere. */
  predicate Sloppy(s: string, t: string) {
    if s == "" then t == ""
    else if Stripped(s[0]) then Sloppy(s[1..], t)
    else t != "" && ToUpper(s[0]) == ToUpper(t[0]) && Sloppy(s[1..], t[1..])
  }

  lemma {:induction false} SloppyKeeps(s: string, t: string)
    requires Sloppy(s, t) && forall i :: 0 <= i < |t| ==> !Stripped(t[i]) && Canonical(t[i]) == t[i]
    ensures Kept(s) == t
  {
    if s != "" {
      if Stripped(s[0]) {
        SloppyKeeps(s[1..], t);
      } else {
        SloppyKeeps(s[1..], t[1..]);
        assert Canonical(s[0]) == Canonical(t[0]);
      }
    }
  }

  /** A well-formed token survives any change of case and any inserted spaces and quotes. */
  lemma NormaliseRecovers(s: string, t: string, size: nat)
    requires MatchesRegex(t) && Sloppy(s, t) && size >= TOKEN_BUF
    ensures Normal(s, size) == t
  {
    RegexTextIsCanonical(t);
    SloppyKeeps(s, t);
  }

  /** With the buffer of every caller, a pasted text is accepted exactly when its first 19 kept
      characters are a token; whatever follows is cut off. With a larger buffer the text must be the
      token and nothing more. */
  lemma AcceptedExactly(s: string, size: nat)
    requires size >= TOKEN_BUF
    ensures MatchesRegex(Normal(s, size))
       <==> if size == TOKEN_BUF then |Kept(s)| >= 19 && MatchesRegex(Kept(s)[..19]) else MatchesRegex(Kept(s))
  {
    if |Kept(s)| == 19 {
      assert Kept(s)[..19] == Kept(s);
    }
  }

  lemma {:induction false} KeptConcat(s: string, t: string)
    ensures Kept(s + t) == Kept(s) + Kept(t)
  {
    if s == "" {
      assert s + t == t;
    } else {
      assert (s + t)[1..] == s[1..] + t;
      KeptConcat(s[1..], t);
    }
  }

  /** So over-long text is not rejected: a token with any tail is taken for the token, while a larger
      buffer would let only a tail of spaces and quotes pass. */
  lemma TailIsCutOff(t: string, tail: string)
    requires MatchesRegex(t)
    ensures Normal(t + tail, TOKEN_BUF) == t
    ensures MatchesRegex(Normal(t + tail, TOKEN_BUF + 1)) <==> Kept(tail) == ""
  {
    KeptConcat(t, tail);
    RegexTextIsCanonical(t);
    KeptOfKept(t);
    assert Kept(tail) == "" ==> Kept(t + tail) == t;
  }

  const LOWER := "abcdefghijklmnopqrstuvwxyz"
  const UPPER := "ABCDEFGHIJKLMNOPQRSTUVWXYZ"

  /** Letters go to upper case and nothing else changes. */
  lemma UpperTable(c: char)
    ensures forall i :: 0 <= i < 26 ==> ToUpper(LOWER[i]) == UPPER[i]
    ensures c !in LOWER ==> ToUpper(c) == c
  {
    hide ToUpper;
    forall i | 0 <= i < 26 ensures ToUpper(LOWER[i]) == UPPER[i] {
      LetterAt(i);
      UpperOf(LOWER[i]);
    }
    if 'a' <= c <= 'z' {
      LetterAt(c as int - 'a' as int);
    }
    UpperOf(c);
  }

  lemma LetterAt(i: nat)
    requires i < 26
    ensures LOWER[i] == ('a' as int + i) as char && UPPER[i] == ('A' as int + i) as char
  {}

  lemma UpperOf(c: char)
    ensures ToUpper(c) == if 'a' <= c <= 'z' then ('A' as int + (c as int - 'a' as int)) as char else c
  {}

  /** White space and quotes are dropped, and nothing else. */
  lemma StrippedTable(c: char)
    ensures Stripped(c) <==> c in [' ', '\t', '\n', 11 as char, 12 as char, '\r', '"', '\'']
  {}

  /** Of what is kept only O, I and L are changed, to the digits they look like, which no token has. */
  lemma CanonicalTable(c: char)
    ensures Canonical(c) == (if c == 'o' || c == 'O' then '0' else if c == 'i' || c == 'I' || c == 'l' || c == 'L' then '1' else ToUpper(c))
    ensures !RegexClass('0') && !RegexClass('1') && !RegexClass('O') && !RegexClass('I') && !RegexClass('L')
  {}

  lemma {:induction false} SloppyPrefix(s: string, t: string) returns (m: nat)
    requires t <= Kept(s) && forall i :: 0 <= i < |t| ==> ToUpper(t[i]) == t[i] && t[i] != '0' && t[i] != '1'
    ensures m <= |s| && Sloppy(s[..m], t)
  {
    if t == "" {
      m := 0;
    } else if Stripped(s[0]) {
      var k := SloppyPrefix(s[1..], t);
      m := k + 1;
      assert s[..m][1..] == s[1..][..k] && s[..m][0] == s[0];
    } else {
      assert t[0] == Kept(s)[0] == Canonical(s[0]);
      assert t[1..] <= Kept(s)[1..];
      var k := SloppyPrefix(s[1..], t[1..]);
      m := k + 1;
      assert s[..m][1..] == s[1..][..k] && s[..m][0] == s[0];
    }
  }

  lemma {:induction false} KeptOfPrefix(s: string, m: nat)
    requires m <= |s|
    ensures Kept(s[..m]) <= Kept(s)
  {
    KeptConcat(s[..m], s[m..]);
    assert s == s[..m] + s[m..];
  }

  lemma TokenCharacters(t: string)
    requires MatchesRegex(t)
    ensures forall i :: 0 <= i < |t| ==> ToUpper(t[i]) == t[i] && t[i] != '0' && t[i] != '1' && !Stripped(t[i]) && Canonical(t[i]) == t[i]
  {
    RegexTextIsCanonical(t);
    forall i | 0 <= i < |t| ensures ToUpper(t[i]) == t[i] && t[i] != '0' && t[i] != '1' {
      if i < 5 {
        assert t[i] == t[..5][i];
      } else {
        assert SlotMatches(t, i);
      }
    }
  }

  /** Main result: with the buffer of every caller a pasted text is taken for a token exactly if some beginning of
      it is that token, in letters of either case, with spaces and quotes put in anywhere. */
  lemma TakenForExactly(s: string, t: string)
    requires MatchesRegex(t)
    ensures Normal(s, TOKEN_BUF) == t <==> exists m :: 0 <= m <= |s| && Sloppy(s[..m], t)
  {
    hide MatchesRegex, Canonical, Stripped, Sloppy;
    TokenLength(t);
    TokenCharacters(t);
    if Normal(s, TOKEN_BUF) == t {
      var m := SloppyPrefix(s, t);
    }
    if m :| 0 <= m <= |s| && Sloppy(s[..m], t) {
      SloppyKeeps(s[..m], t);
      KeptOfPrefix(s, m);
    }
  }

  lemma TokenLength(t: string)
    requires MatchesRegex(t)
    ensures |t| == 19
  {}

  /** Both generators spell their random bytes: each byte picks the character of its place. */
  lemma SpellsTheBytes(table: string, bytes: seq<byte>, k: nat)
    requires |bytes| == 12 && k < 12 && |table| > 0
    ensures var t := Spell(table, Codes(bytes, |table|));
            t[..5] == "TTHR-" && t[9] == '-' && t[14] == '-' && t[5 + k + k / 4] == table[bytes[k] as int % |table|]
  {
    var t := Spell(table, Codes(bytes, |table|));
    assert t[..5] == "TTHR-";
  }

  // ----- the edge's routing -----

  datatype Response = Health | NotFound | UpgradeRequired | InvalidToken | Room(name: string)

  function {:induction false} Upper(s: string): (u: string)
    ensures |u| == |s| && forall i :: 0 <= i < |s| ==> u[i] == ToUpper(s[i])
  {
    if s == "" then "" else [ToUpper(s[0])] + Upper(s[1..])
  }

  /** A request's answer; `minted` is the token the edge would generate. A missing and an empty
      token parameter are the same to the server. */
  function Route(path: string, upgrade: Option<string>, tokenParam: Option<string>, minted: string): Response {
    if path == "/health" then Health
    else if path != "/v1" then NotFound
    else if upgrade != Some("websocket") then UpgradeRequired
    else
      match tokenParam
      case Some(t) =>
        if t == "" then Room(minted)
        else if MatchesRegex(Upper(t)) then Room(Upper(t))
        else InvalidToken
      case None => Room(minted)
  }

  /** The edge's answer to every request. A token in the query leads to the room of its upper-case form if that is
      well formed, and is refused otherwise; without one a token is minted. */
  lemma RoutesExactly(path: string, upgrade: Option<string>, param: Option<string>, minted: string)
    ensures var r := Route(path, upgrade, param, minted);
            if path == "/health" then r == Health
            else if path != "/v1" then r == NotFound
            else if upgrade != Some("websocket") then r == UpgradeRequired
            else if param == None || param == Some("") then r == Room(minted)
            else if r.Room? then
              MatchesRegex(r.name) && |r.name| == |param.value| && forall i :: 0 <= i < |r.name| ==> r.name[i] == ToUpper(param.value[i])
            else
              r == InvalidToken && forall n :: MatchesRegex(n) && |n| == |param.value| ==>
                exists i :: 0 <= i < |n| && n[i] != ToUpper(param.value[i])
  {
    hide MatchesRegex;
    if param.Some? {
      var u := Upper(param.value);
      forall n | !MatchesRegex(u) && MatchesRegex(n) && |n| == |param.value| ensures exists i :: 0 <= i < |n| && n[i] != ToUpper(param.value[i]) {
        if forall i :: 0 <= i < |n| ==> n[i] == ToUpper(param.value[i]) {
          SameText(n, u);
        }
      }
    }
  }

  lemma SameText(a: string, b: string)
    ensures |a| == |b| && (forall i :: 0 <= i < |a| ==> a[i] == b[i]) ==> a == b
  {}

  /** A room is only ever reached under a well-formed name; every token that normalisation accepts
      and every token a room was minted under leads to the room of exactly that name. */
  lemma RoomNamesAreTokens(path: string, upgrade: Option<string>, param: Option<string>, minted: string)
    requires MatchesRegex(minted)
    ensures var r := Route(path, upgrade, param, minted); r.Room? ==> MatchesRegex(r.name)
    ensures forall t :: MatchesRegex(t) ==> Route("/v1", Some("websocket"), Some(t), minted) == Room(t)
  {
    forall t | MatchesRegex(t) ensures Upper(t) == t {
      RegexTextIsCanonical(t);
      assert forall c: char :: Canonical(c) == c ==> ToUpper(c) == c;
    }
  }
}

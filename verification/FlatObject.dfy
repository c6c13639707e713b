/** The flat JSON objects both sides exchange, printed without whitespace, and what the scanner
    finds in them. Strings are carried in their escaped form, as RFC 8259 section 7 writes them. */
module FlatObject {
  import opened Common
  import opened Scanner

  datatype Value = Str(raw: string) | Bare(text: string)

  datatype Field = Field(key: string, value: Value)

  predicate IdentChar(c: char) {
    'a' <= c <= 'z' || 'A' <= c <= 'Z' || '0' <= c <= '9' || c == '_'
  }

  predicate Identifier(s: string) {
    s != "" && forall i :: 0 <= i < |s| ==> IdentChar(s[i])
  }

  /** Every quote is escaped and no backslash stands alone at the end. */
  predicate WellEscaped(s: string) {
    if s == "" then true
    else if s[0] == '\\' then |s| >= 2 && WellEscaped(s[2..])
    else s[0] != '"' && WellEscaped(s[1..])
  }

  /** A number, `true`, `false` or `null`. */
  predicate BareText(s: string) {
    s != "" && forall i :: 0 <= i < |s| ==> IdentChar(s[i]) || s[i] in "+-."
  }

  predicate ValidField(f: Field) {
    Identifier(f.key) && match f.value case Str(raw) => WellEscaped(raw) case Bare(text) => BareText(text)
  }

  predicate ValidFields(fs: seq<Field>) {
    forall i :: 0 <= i < |fs| ==> ValidField(fs[i])
  }

  function ValueText(v: Value): string {
    match v case Str(raw) => "\"" + raw + "\"" case Bare(text) => text
  }

  function FieldText(f: Field): string {
    "\"" + f.key + "\":" + ValueText(f.value)
  }

  /** The fields from some point on, led by the character `c` that opens or separates them. */
  function Chain(c: char, fs: seq<Field>): string
    decreases |fs|
  {
    if fs == [] then "}" else [c] + FieldText(fs[0]) + Chain(',', fs[1..])
  }

  /** A printed object. */
  function Print(fs: seq<Field>): string {
    if fs == [] then "{}" else Chain('{', fs)
  }

  predicate Matches(f: Field, key: string) {
    f.key == key && f.value.Str?
  }

  /** The escaped text of the first string-valued field of that name: with distinct names, the text
      of the field if it is a string and nothing if it is absent, a number or a boolean. */
  function Lookup(fs: seq<Field>, key: string): Option<string> {
    if fs == [] then None
    else if Matches(fs[0], key) then Some(fs[0].value.raw)
    else Lookup(fs[1..], key)
  }

  // ----- where the scanner's matches can be -----

  /** The end of the run of identifier characters at `q`. */
  function RunEnd(text: string, q: nat): (e: nat)
    requires q <= |text|
    ensures q <= e <= |text| && forall i :: q <= i < e ==> IdentChar(text[i])
    ensures e < |text| ==> !IdentChar(text[e])
    decreases |text| - q
  {
    if q < |text| && IdentChar(text[q]) then RunEnd(text, q + 1) else q
  }

  lemma {:induction false} RunEndIs(text: string, q: nat, e: nat)
    requires q <= e < |text| && !IdentChar(text[e])
    requires forall i :: q <= i < e ==> IdentChar(text[i])
    ensures RunEnd(text, q) == e
    decreases e - q
  {
    if q < e {
      RunEndIs(text, q + 1, e);
    }
  }

  /** `q` starts an identifier between quotes that is followed by a string: the scanner would take
      it for the key spelled there. */
  predicate Candidate(text: string, q: nat) {
    && 1 <= q <= |text| && text[q - 1] == '"'
    && (var e := RunEnd(text, q);
        && q < e < |text| && text[e] == '"'
        && (var a := SkipSeparators(text, e + 1); a < |text| && text[a] == '"'))
  }

  lemma AcceptsIsCandidate(text: string, key: string, q: nat)
    requires Identifier(key)
    ensures Accepts(text, key, q) ==> Candidate(text, q)
    ensures Accepts(text, key, q) ==> RunEnd(text, q) == q + |key| && text[q..RunEnd(text, q)] == key
  {
    if Accepts(text, key, q) {
      assert forall j :: q <= j < q + |key| ==> text[j] == text[q..q + |key|][j - q] == key[j - q];
      RunEndIs(text, q, q + |key|);
    }
  }

  lemma {:induction false} QuoteIsEscaped(raw: string, j: nat)
    requires WellEscaped(raw) && j < |raw| && raw[j] == '"'
    ensures j > 0 && !IdentChar(raw[j - 1])
    decreases |raw|
  {
    if raw[0] == '\\' {
      if j > 1 {
        QuoteIsEscaped(raw[2..], j - 2);
      }
    } else {
      QuoteIsEscaped(raw[1..], j - 1);
    }
  }

  /** A field's text stands at `o`, followed by a separator. */
  ghost predicate FieldAt(text: string, o: nat, f: Field) {
    && o + |FieldText(f)| < |text|
    && text[o..o + |FieldText(f)|] == FieldText(f)
    && (text[o + |FieldText(f)|] == ',' || text[o + |FieldText(f)|] == '}')
  }

  lemma FieldLayout(text: string, o: nat, f: Field)
    requires FieldAt(text, o, f)
    ensures text[o] == '"' && text[o + |f.key| + 1] == '"' && text[o + |f.key| + 2] == ':'
    ensures text[o + 1..o + 1 + |f.key|] == f.key
    ensures forall j :: o + 1 <= j < o + 1 + |f.key| ==> text[j] == f.key[j - o - 1]
    ensures text[o + |f.key| + 3..o + |FieldText(f)|] == ValueText(f.value)
  {
    var t := FieldText(f);
    var k := |f.key|;
    assert t == ['"'] + f.key + ['"', ':'] + ValueText(f.value);
    assert forall j :: o <= j < o + |t| ==> text[j] == text[o..o + |t|][j - o] == t[j - o];
    assert text[o + k + 3..o + |t|] == t[k + 3..] == ValueText(f.value);
  }

  /** Inside a field the scanner can only stop at the field's own name, before a string value. */
  lemma FieldCandidates(text: string, o: nat, f: Field, q: nat)
    requires FieldAt(text, o, f) && ValidField(f)
    requires o <= q <= o + |FieldText(f)|
    ensures Candidate(text, q) ==> q == o + 1 && f.value.Str?
  {
    hide IdentChar, WellEscaped;
    SeparatorsEndIdentifiers();
    FieldLayout(text, o, f);
    var v := o + |f.key| + 3;
    if q == o + 1 {
      RunEndIs(text, q, v - 2);
      if f.value.Bare? {
        assert text[v] == text[v..o + |FieldText(f)|][0];
        SkipOne(text, v - 1);
      }
    } else if v <= q < o + |FieldText(f)| {
      ValueCandidates(text, v, o + |FieldText(f)|, f.value, q);
    }
  }

  /** Nothing inside a value stops the scanner, not even text that looks like a quoted key. */
  lemma ValueCandidates(text: string, v: nat, end: nat, value: Value, q: nat)
    requires 0 < v <= q < end < |text| && text[v..end] == ValueText(value)
    requires text[v - 1] == ':' && (text[end] == ',' || text[end] == '}')
    requires match value case Str(raw) => WellEscaped(raw) case Bare(t) => BareText(t)
    ensures !Candidate(text, q)
  {
    hide IdentChar, WellEscaped;
    SeparatorsEndIdentifiers();
    var vt := ValueText(value);
    assert forall j :: v <= j < end ==> text[j] == text[v..end][j - v] == vt[j - v];
    match value
    case Bare(t) =>
      assert text[q - 1] != '"';
    case Str(raw) =>
      assert vt == ['"'] + raw + ['"'] && end == v + |raw| + 2;
      assert forall j :: v < j < end - 1 ==> text[j] == raw[j - v - 1];
      assert text[v] == '"' && text[end - 1] == '"';
      var e := RunEnd(text, q);
      assert e <= end - 1;
      if e == end - 1 {
        assert SkipSeparators(text, end) == end;
      } else if v < e && text[e] == '"' {
        QuoteIsEscaped(raw, e - v - 1);
        assert text[e - 1] == raw[e - v - 2];
      }
  }

  lemma SeparatorsEndIdentifiers()
    ensures forall c: char :: c in "\":,} " ==> !IdentChar(c)
  {}

  lemma SkipOne(text: string, i: nat)
    requires i + 1 < |text| && text[i] == ':' && text[i + 1] != ':' && text[i + 1] != ' '
    ensures SkipSeparators(text, i) == i + 1
  {
    assert SkipSeparators(text, i + 1) == i + 1;
  }

  lemma {:induction false} StringEndsAfter(text: string, p: nat, raw: string)
    requires p + |raw| < |text| && text[p..p + |raw|] == raw && text[p + |raw|] == '"'
    requires WellEscaped(raw)
    ensures StringEnd(text, p) == p + |raw|
    decreases |raw|
  {
    if raw != "" {
      assert text[p] == text[p..p + |raw|][0] == raw[0];
      var n := if raw[0] == '\\' then 2 else 1;
      assert text[p + n..p + |raw|] == text[p..p + |raw|][n..] == raw[n..];
      StringEndsAfter(text, p + n, raw[n..]);
    }
  }

  /** The field's own name, once reached, is taken, and the value found is the field's. */
  lemma FieldAccepts(text: string, o: nat, f: Field)
    requires FieldAt(text, o, f) && ValidField(f) && f.value.Str?
    ensures Accepts(text, f.key, o + 1)
    ensures var s := ValueSpan(text, f.key, o + 1); s.start == o + |f.key| + 4 && s.end < |text| && text[s.start..s.end] == f.value.raw
    ensures OccursAt(text, Pattern(f.key), o)
  {
    FieldLayout(text, o, f);
    var v := o + |f.key| + 3;
    StringLayout(text, v, o + |FieldText(f)|, f.value.raw);
    SkipOne(text, v - 1);
    StringEndsAfter(text, v + 1, f.value.raw);
    PatternLayout(text, o, f.key);
  }

  lemma StringLayout(text: string, v: nat, end: nat, raw: string)
    requires v <= end < |text| && text[v..end] == ValueText(Str(raw))
    ensures end == v + |raw| + 2 && text[v] == '"' && text[v + 1..end - 1] == raw && text[end - 1] == '"'
  {
    assert ValueText(Str(raw)) == ['"'] + raw + ['"'];
    var vt := text[v..end];
    assert |vt| == |raw| + 2;
    assert text[v] == vt[0] && text[end - 1] == vt[end - 1 - v];
    assert forall i :: 0 <= i < |raw| ==> text[v + 1 + i] == vt[i + 1] == raw[i];
    assert text[v + 1..end - 1] == raw;
  }

  lemma PatternLayout(text: string, o: nat, key: string)
    requires o + |key| + 4 <= |text| && text[o] == '"' && text[o + 1..o + 1 + |key|] == key
    requires text[o + |key| + 1] == '"' && text[o + |key| + 2] == ':' && text[o + |key| + 3] == '"'
    ensures OccursAt(text, Pattern(key), o)
  {
    assert Pattern(key) == ['"'] + key + ['"', ':', '"'];
    assert text[o..o + |key| + 4] == [text[o]] + text[o + 1..o + 1 + |key|] + text[o + 1 + |key|..o + |key| + 4];
  }

  /** The text `"key":"`. */
  function Pattern(key: string): string {
    "\"" + key + "\":\""
  }

  /** The chain of `fs` stands at `o` and ends the text. */
  ghost predicate ChainAt(text: string, o: nat, fs: seq<Field>)
    decreases |fs|
  {
    && o < |text| && !IdentChar(text[o])
    && if fs == [] then |text| == o + 1
       else FieldAt(text, o + 1, fs[0]) && ChainAt(text, o + 1 + |FieldText(fs[0])|, fs[1..])
  }

  lemma {:induction false} ChainStands(text: string, o: nat, c: char, fs: seq<Field>)
    requires o <= |text| && text[o..] == Chain(c, fs) && !IdentChar(c)
    ensures ChainAt(text, o, fs)
    decreases |fs|
  {
    hide IdentChar, FieldAt, FieldText, Chain;
    SeparatorsEndIdentifiers();
    ChainHead(text, o, c, fs);
    if fs != [] {
      ChainStands(text, o + 1 + |FieldText(fs[0])|, ',', fs[1..]);
    }
  }

  lemma ChainHead(text: string, o: nat, c: char, fs: seq<Field>)
    requires o <= |text| && text[o..] == Chain(c, fs)
    ensures o < |text|
    ensures fs == [] ==> |text| == o + 1 && text[o] == '}'
    ensures fs != [] ==> text[o] == c && FieldAt(text, o + 1, fs[0])
    ensures fs != [] ==> var next := o + 1 + |FieldText(fs[0])|; next <= |text| && text[next..] == Chain(',', fs[1..])
  {
    hide FieldText, IdentChar;
    assert |text[o..]| > 0 && text[o] == text[o..][0];
    if fs != [] {
      var rest := Chain(',', fs[1..]);
      Splits(text, o, [c] + FieldText(fs[0]), rest);
      assert [c] + FieldText(fs[0]) + rest == [c] + (FieldText(fs[0]) + rest);
      Splits(text, o, [c], FieldText(fs[0]) + rest);
      Splits(text, o + 1, FieldText(fs[0]), rest);
      ChainStarts(rest, fs[1..]);
    }
  }

  lemma ChainStarts(rest: string, fs: seq<Field>)
    requires rest == Chain(',', fs)
    ensures rest != "" && !IdentChar(rest[0])
  {}

  lemma Splits(text: string, o: nat, a: string, b: string)
    requires o <= |text| && text[o..] == a + b
    ensures o + |a| <= |text| && text[o..o + |a|] == a && text[o + |a|..] == b
  {
    assert text[o..o + |a|] == text[o..][..|a|];
    assert text[o + |a|..] == text[o..][|a|..];
  }

  /** How far into a chain the scanner stops, when the chain has a string of that name. */
  function Offset(fs: seq<Field>, key: string): nat
    decreases |fs|
  {
    if fs == [] || Matches(fs[0], key) then 2 else 1 + |FieldText(fs[0])| + Offset(fs[1..], key)
  }

  /** Whatever the scanner takes in a chain, the target is at or before it. */
  lemma {:induction false} TakenAfterTarget(text: string, o: nat, fs: seq<Field>, key: string, q: nat)
    requires ChainAt(text, o, fs) && ValidFields(fs) && Identifier(key)
    requires o <= q && Accepts(text, key, q)
    ensures Lookup(fs, key).Some? && o + Offset(fs, key) <= q
    decreases |fs|
  {
    hide Accepts, FieldAt, FieldText, ValidField, Identifier, IdentChar;
    NotTakenAtSeparator(text, o, fs, key, q);
    if fs != [] {
      var next := o + 1 + |FieldText(fs[0])|;
      if q <= next {
        HeadField(text, o + 1, fs[0], key, q);
      } else if !Matches(fs[0], key) {
        TakenAfterTarget(text, next, fs[1..], key, q);
      }
    }
  }

  lemma NotTakenAtSeparator(text: string, o: nat, fs: seq<Field>, key: string, q: nat)
    requires ChainAt(text, o, fs) && Identifier(key) && o <= q && Accepts(text, key, q)
    ensures o < q && fs != []
  {
    AcceptsIsCandidate(text, key, q);
  }

  /** The scanner takes the key at `q`, written as the pattern, and reads `raw` after it. */
  ghost predicate Taken(text: string, key: string, q: nat, raw: string) {
    && q > 0 && Accepts(text, key, q) && OccursAt(text, Pattern(key), q - 1)
    && ValueSpan(text, key, q).end < |text| && Slice(text, Some(ValueSpan(text, key, q))) == Some(raw)
  }

  /** The field a lookup finds stands where `Offset` says. */
  lemma {:induction false} TargetField(text: string, o: nat, fs: seq<Field>, key: string) returns (f: Field)
    requires ChainAt(text, o, fs) && ValidFields(fs) && Lookup(fs, key).Some?
    ensures ValidField(f) && Matches(f, key) && Lookup(fs, key) == Some(f.value.raw)
    ensures FieldAt(text, o + Offset(fs, key) - 1, f)
    decreases |fs|
  {
    hide FieldAt, FieldText, ValidField;
    if Matches(fs[0], key) {
      f := fs[0];
    } else {
      f := TargetField(text, o + 1 + |FieldText(fs[0])|, fs[1..], key);
    }
  }

  lemma TargetTaken(text: string, fs: seq<Field>, key: string)
    requires text == Print(fs) && ValidFields(fs) && Lookup(fs, key).Some?
    ensures Taken(text, key, Offset(fs, key), Lookup(fs, key).value)
  {
    hide Accepts, OccursAt, FieldAt, FieldText, ValidField, ChainAt;
    assert text[0..] == text;
    ChainStands(text, 0, '{', fs);
    var f := TargetField(text, 0, fs, key);
    FieldAccepts(text, Offset(fs, key) - 1, f);
  }

  /** Within a field the scanner takes only the field's own name, and only before a string value. */
  lemma HeadField(text: string, o: nat, f: Field, key: string, q: nat)
    requires FieldAt(text, o, f) && ValidField(f) && Identifier(key)
    requires o <= q <= o + |FieldText(f)| && Accepts(text, key, q)
    ensures q == o + 1 && Matches(f, key)
  {
    FieldCandidates(text, o, f, q);
    AcceptsIsCandidate(text, key, q);
    FieldLayout(text, o, f);
    RunEndIs(text, o + 1, o + 1 + |f.key|);
  }

  lemma LeastAccepted(text: string, key: string, t: Option<nat>)
    requires t.Some? ==> Accepts(text, key, t.value)
    requires forall k: nat :: Accepts(text, key, k) ==> t.Some? && t.value <= k
    ensures FirstAccepted(text, key, 0) == t
  {}

  lemma TargetIsLeast(text: string, fs: seq<Field>, key: string)
    requires text == Print(fs) && ValidFields(fs) && Identifier(key)
    ensures forall k: nat :: Accepts(text, key, k) ==> Lookup(fs, key).Some? && Offset(fs, key) <= k
  {
    hide Accepts, FieldText, ValidField, ChainAt, Identifier;
    if fs == [] {
      NothingInBraces(key);
    } else {
      assert text[0..] == text;
      ChainStands(text, 0, '{', fs);
      forall k: nat | Accepts(text, key, k) ensures Lookup(fs, key).Some? && Offset(fs, key) <= k {
        TakenAfterTarget(text, 0, fs, key, k);
      }
    }
  }

  lemma NothingInBraces(key: string)
    ensures forall k: nat :: !Accepts("{}", key, k)
  {}

  lemma FirstIsTarget(text: string, fs: seq<Field>, key: string)
    requires text == Print(fs) && ValidFields(fs) && Identifier(key)
    ensures FirstAccepted(text, key, 0) == if Lookup(fs, key).Some? then Some(Offset(fs, key)) else None
    ensures Lookup(fs, key).Some? ==> Taken(text, key, Offset(fs, key), Lookup(fs, key).value)
  {
    TargetIsLeast(text, fs, key);
    if Lookup(fs, key).Some? {
      TargetTaken(text, fs, key);
      LeastAccepted(text, key, Some(Offset(fs, key)));
    } else {
      LeastAccepted(text, key, None);
    }
  }

  /** Main result: on every printed object, the scanner returns exactly the escaped value of the
      string-valued field and nothing for an absent or non-string one, whatever the values contain. */
  lemma ScannerFindsField(fs: seq<Field>, key: string)
    requires ValidFields(fs) && Identifier(key)
    ensures DupStr(Print(fs), key) == Lookup(fs, key)
    ensures var span := FindStr(Print(fs), key); span.Some? ==> span.value.end < |Print(fs)|
  {
    FirstIsTarget(Print(fs), fs, key);
  }

  /** The cruder `strstr(json, "\"key\":\"")` of the two session modules lands on the same field. */
  lemma PatternFindsField(fs: seq<Field>, key: string)
    requires ValidFields(fs) && Identifier(key)
    ensures var hit := Strstr(Print(fs), Pattern(key), 0);
            match FindStr(Print(fs), key)
            case None => hit.None?
            case Some(span) => hit.Some? && hit.value + |Pattern(key)| == span.start
  {
    hide Print, ValidFields, Identifier, Accepts, OccursAt, Strstr, FindStr, Lookup;
    FirstIsTarget(Print(fs), fs, key);
    FirstPattern(Print(fs), key);
  }

  /** In any text whose first accepted key is written `"key":"`, that is the pattern's first place. */
  lemma FirstPattern(text: string, key: string)
    requires var q := FirstAccepted(text, key, 0); q.Some? ==> q.value > 0 && OccursAt(text, Pattern(key), q.value - 1)
    ensures var hit := Strstr(text, Pattern(key), 0);
            match FindStr(text, key)
            case None => hit.None?
            case Some(span) => hit.Some? && hit.value + |Pattern(key)| == span.start
  {
    var hit := Strstr(text, Pattern(key), 0);
    if hit.Some? {
      PatternIsAccepted(text, key, hit.value);
    }
  }

  lemma PatternIsAccepted(text: string, key: string, q: nat)
    requires OccursAt(text, Pattern(key), q)
    ensures Accepts(text, key, q + 1) && ValueSpan(text, key, q + 1).start == q + |key| + 4
  {
    var pattern := Pattern(key);
    var n := |key|;
    assert pattern == ['"'] + key + ['"', ':', '"'];
    assert forall j :: q <= j < q + n + 4 ==> text[j] == text[q..q + |pattern|][j - q] == pattern[j - q];
    assert text[q + 1..q + 1 + n] == key;
    SkipOne(text, q + n + 2);
  }
}

/** The string-field scanner of the signaling client (src/signaling.c:75-143).

    A C string is the sequence of its characters before the NUL, so `*p != 0` reads `p < |text|`
    and every access below is proved to stay in front of the terminator. */
module Scanner {
  import opened Common

  /** A half-open range of text, the scanner's pointer and length. */
  datatype Span = Span(start: nat, end: nat)

  predicate OccursAt(text: string, sub: string, q: nat) {
    q + |sub| <= |text| && text[q..q + |sub|] == sub
  }

  /** `strstr(text + from, sub)`: the first occurrence at or after `from`. */
  function Strstr(text: string, sub: string, from: nat): (r: Option<nat>)
    requires from <= |text|
    ensures r.Some? ==> from <= r.value && OccursAt(text, sub, r.value)
    ensures forall q: nat :: from <= q && (r.Some? ==> q < r.value) ==> !OccursAt(text, sub, q)
    decreases |text| - from
  {
    if OccursAt(text, sub, from) then Some(from)
    else if from == |text| then None
    else Strstr(text, sub, from + 1)
  }

  /** `strchr(text + from, c)`. */
  function Strchr(text: string, c: char, from: nat): (r: Option<nat>)
    requires from <= |text|
    ensures r.Some? ==> from <= r.value < |text| && text[r.value] == c && c !in text[from..r.value]
    ensures r.None? ==> c !in text[from..]
    decreases |text| - from
  {
    if from == |text| then None
    else if text[from] == c then Some(from)
    else
      var r := Strchr(text, c, from + 1);
      assert text[from..] == [text[from]] + text[from + 1..];
      assert r.Some? ==> text[from..r.value] == [text[from]] + text[from + 1..r.value];
      r
  }

  /** The first position at or after `i` holding neither a colon nor a space. */
  function SkipSeparators(text: string, i: nat): (r: nat)
    requires i <= |text|
    ensures i <= r <= |text|
    ensures r < |text| ==> text[r] != ':' && text[r] != ' '
    decreases |text| - i
  {
    if i < |text| && (text[i] == ':' || text[i] == ' ') then SkipSeparators(text, i + 1) else i
  }

  /** The position where the string that starts at `p` ends: its first unescaped quote, or the
      terminator. A backslash takes the character after it along. */
  function StringEnd(text: string, p: nat): (e: nat)
    requires p <= |text|
    ensures p <= e <= |text|
    ensures e < |text| ==> text[e] == '"'
    decreases |text| - p
  {
    if p == |text| || text[p] == '"' then p
    else if text[p] == '\\' && p + 1 < |text| then StringEnd(text, p + 2)
    else StringEnd(text, p + 1)
  }

  /** The scanner takes position `q` for the named key: the key stands there between quotes and the
      next thing after separators opens a string. */
  predicate Accepts(text: string, key: string, q: nat) {
    && 1 <= q && OccursAt(text, key, q)
    && text[q - 1] == '"'
    && q + |key| < |text| && text[q + |key|] == '"'
    && (var a := SkipSeparators(text, q + |key| + 1); a < |text| && text[a] == '"')
  }

  /** The first accepted position at or after `q`. */
  function FirstAccepted(text: string, key: string, q: nat): (r: Option<nat>)
    requires q <= |text|
    ensures r.Some? ==> q <= r.value <= |text| && Accepts(text, key, r.value)
    ensures forall k: nat :: q <= k && (r.Some? ==> k < r.value) ==> !Accepts(text, key, k)
    decreases |text| - q
  {
    if Accepts(text, key, q) then Some(q)
    else if q == |text| then None
    else FirstAccepted(text, key, q + 1)
  }

  /** The string value that follows an accepted key. */
  function ValueSpan(text: string, key: string, q: nat): (s: Span)
    requires Accepts(text, key, q)
    ensures s.start <= s.end <= |text|
  {
    var start := SkipSeparators(text, q + |key| + 1) + 1;
    Span(start, StringEnd(text, start))
  }

  /** What a field lookup yields: the value of the first accepted key. */
  function FindStr(text: string, key: string): (r: Option<Span>)
    ensures r.Some? ==> r.value.start <= r.value.end <= |text|
  {
    match FirstAccepted(text, key, 0)
    case None => None
    case Some(q) => Some(ValueSpan(text, key, q))
  }

  /** The scanning loop. It terminates because the cursor strictly advances, and it finds the first
      accepted key although it only looks at the positions `strstr` reports.
      An empty key would let the cursor step over the terminator; every caller passes a literal. */
  method JsonFindStr(json: string, key: string) returns (r: Option<Span>)
    requires key != ""
    ensures r == FindStr(json, key)
  {
    hide Accepts, OccursAt, StringEnd;
    var p := 0;
    var hit := Strstr(json, key, p);
    while hit.Some?
      invariant p <= |json| && hit == Strstr(json, key, p)
      invariant FirstAccepted(json, key, 0) == FirstAccepted(json, key, p)
      decreases |json| - p
    {
      AcceptsOccurs(json, key);
      OccursInside(json, key, hit.value);
      SkipRejected(json, key, p, hit.value);
      p := hit.value;
      var accepted, start := Examine(json, key, p);
      if accepted {
        var end := ScanString(json, start);
        return Some(Span(start, end));
      }
      p := p + 1;
      hit := Strstr(json, key, p);
    }
    AcceptsOccurs(json, key);
    SkipRejected(json, key, p, |json|);
    return None;
  }

  lemma AcceptsOccurs(text: string, key: string)
    ensures forall k: nat :: Accepts(text, key, k) ==> OccursAt(text, key, k) && k < |text|
  {}

  lemma OccursInside(text: string, key: string, k: nat)
    requires key != ""
    ensures OccursAt(text, key, k) ==> k < |text|
  {}

  /** The tests of one occurrence: quotes on both sides, then separators, then an opening quote. */
  method Examine(json: string, key: string, p: nat) returns (accepted: bool, start: nat)
    requires key != "" && OccursAt(json, key, p)
    ensures accepted <==> Accepts(json, key, p)
    ensures accepted ==> start <= |json| && Span(start, StringEnd(json, start)) == ValueSpan(json, key, p)
  {
    if p == 0 || json[p - 1] != '"' {
      return false, 0;
    }
    if p + |key| == |json| || json[p + |key|] != '"' {
      return false, 0;
    }
    var after := p + |key| + 1;
    while after < |json| && (json[after] == ':' || json[after] == ' ')
      invariant p + |key| + 1 <= after <= |json|
      invariant SkipSeparators(json, after) == SkipSeparators(json, p + |key| + 1)
    {
      after := after + 1;
    }
    if after == |json| || json[after] != '"' {
      return false, 0;
    }
    return true, after + 1;
  }

  /** The inner loop, which steps over escape pairs. */
  method ScanString(json: string, start: nat) returns (p: nat)
    requires start <= |json|
    ensures p == StringEnd(json, start)
  {
    p := start;
    while p < |json| && json[p] != '"'
      invariant start <= p <= |json| && StringEnd(json, p) == StringEnd(json, start)
    {
      if json[p] == '\\' && p + 1 < |json| {
        p := p + 2;
      } else {
        p := p + 1;
      }
    }
  }

  /** Positions the scanner rejects can be skipped. */
  lemma {:induction false} SkipRejected(text: string, key: string, p: nat, q: nat)
    requires p <= q <= |text|
    requires forall k :: p <= k < q ==> !Accepts(text, key, k)
    ensures FirstAccepted(text, key, p) == FirstAccepted(text, key, q)
    decreases q - p
  {
    if p < q {
      SkipRejected(text, key, p + 1, q);
    }
  }

  function Slice(text: string, s: Option<Span>): Option<string>
    requires s.Some? ==> s.value.start <= s.value.end <= |text|
  {
    match s
    case None => None
    case Some(v) => Some(text[v.start..v.end])
  }

  /** `json_dup_str`: a copy of the field's text. */
  function DupStr(text: string, key: string): Option<string> {
    Slice(text, FindStr(text, key))
  }

  /** `json_eq_str`. */
  predicate EqStr(text: string, key: string, value: string) {
    DupStr(text, key) == Some(value)
  }

  method JsonDupStr(json: string, key: string) returns (r: Option<string>)
    requires key != ""
    ensures r == DupStr(json, key)
  {
    var s := JsonFindStr(json, key);
    if s.None? {
      return None;
    }
    return Some(json[s.value.start..s.value.end]);
  }

  method JsonEqStr(json: string, key: string, value: string) returns (r: bool)
    requires key != ""
    ensures r <==> EqStr(json, key, value)
  {
    var s := JsonFindStr(json, key);
    return s.Some? && |value| == s.value.end - s.value.start && json[s.value.start..s.value.end] == value;
  }
}

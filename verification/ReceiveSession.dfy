/** One receive session: its state machine, driven by signaling and peer-connection events one at a
    time, and the list of stream ids it has seen (src/receive-session.c:58-72, 108-326, 409-428). */
module ReceiveSession {
  import opened Common
  import opened Signaling
  import opened SdpCodec

  datatype State = Connecting | AwaitingAccept | Accepted | Negotiating | Connected | Failed | Closed

  datatype PeerState = PeerNew | PeerConnecting | PeerConnected | PeerFailed | PeerClosed

  datatype Input = Signal(event: Event) | Peer(state: PeerState)

  /** The machine's state and the descriptions and candidates it has handed to the connection. */
  datatype Rx = Rx(state: State, applied: seq<string>, candidates: seq<(string, string)>)

  function OfPeer(s: PeerState): State {
    match s
    case PeerNew => Negotiating
    case PeerConnecting => Negotiating
    case PeerConnected => Connected
    case PeerFailed => Failed
    case PeerClosed => Closed
  }

  function Step(rx: Rx, input: Input): Rx {
    match input
    case Peer(s) => rx.(state := OfPeer(s))
    case Signal(RequestAccepted) =>
      if rx.state == Negotiating || rx.state == Connected then rx else rx.(state := Accepted)
    case Signal(TokenInvalid) => rx.(state := Failed)
    case Signal(TokenLockedOut(_)) => rx.(state := Failed)
    case Signal(SdpOffer(_, json)) =>
      if rx.state in {Negotiating, Connected, Failed, Closed} then rx
      else
        rx.(state := Negotiating,
            applied := match OfferSdp(json) case None => rx.applied case Some(sdp) => rx.applied + [sdp])
    case Signal(IceCandidate(_, json)) =>
      (match IceParts(json) case None => rx case Some(c) => rx.(candidates := rx.candidates + [c]))
    case Signal(_) => rx
  }

  datatype Mid = Mid(mid: string, isVideo: bool)

  const MID_MAX := 64

  predicate Holds(seen: seq<Mid>, mid: string) {
    exists i :: 0 <= i < |seen| && seen[i].mid == mid
  }

  /** A stream is remembered once, with the kind it was first seen with; its id is cut to fit. */
  function Remember(seen: seq<Mid>, mid: Option<string>, isVideo: bool): (r: seq<Mid>)
    ensures seen <= r
  {
    if mid == None || mid.value == "" then seen
    else if Holds(seen, mid.value) then seen
    else seen + [Mid(Truncate(mid.value, MID_MAX), isVideo)]
  }

  function MidsOf(seen: seq<Mid>, wantVideo: bool): seq<string> {
    if seen == [] then []
    else
      MidsOf(seen[..|seen| - 1], wantVideo)
      + if seen[|seen| - 1].isVideo == wantVideo then [seen[|seen| - 1].mid] else []
  }

  class Session {
    var state: State
    var applied: seq<string>
    var candidates: seq<(string, string)>
    var seenMids: seq<Mid>

    function Machine(): Rx
      reads this
    {
      Rx(state, applied, candidates)
    }

    /** The machine starts where `session_create_locked` leaves it. */
    constructor ()
      ensures Machine() == Rx(AwaitingAccept, [], []) && seenMids == []
    {
      state, applied, candidates, seenMids := AwaitingAccept, [], [], [];
    }

    method PeerStateChanged(s: PeerState)
      modifies this`state
      ensures Machine() == Step(old(Machine()), Peer(s))
    {
      match s {
        case PeerNew => state := Negotiating;
        case PeerConnecting => state := Negotiating;
        case PeerConnected => state := Connected;
        case PeerFailed => state := Failed;
        case PeerClosed => state := Closed;
      }
    }

    method SignalingEvent(event: Event)
      modifies this`state, this`applied, this`candidates
      ensures Machine() == Step(old(Machine()), Signal(event))
    {
      match event {
        case RequestAccepted =>
          if state != Negotiating && state != Connected {
            state := Accepted;
          }
        case TokenInvalid => state := Failed;
        case TokenLockedOut(_) => state := Failed;
        case SdpOffer(_, json) =>
          if state == Negotiating || state == Connected || state == Failed || state == Closed {
            return;
          }
          state := Negotiating;
          var sdp := DecodeOffer(json);
          if sdp.Some? {
            applied := applied + [sdp.value];
          }
        case IceCandidate(_, json) =>
          var parts := IceParts(json);
          if parts.Some? {
            candidates := candidates + [parts.value];
          }
        case _ =>
      }
    }

    method RememberMid(mid: Option<string>, isVideo: bool)
      modifies this`seenMids
      ensures seenMids == Remember(old(seenMids), mid, isVideo)
    {
      if mid.None? || mid.value == "" {
        return;
      }
      for i := 0 to |seenMids|
        invariant forall k :: 0 <= k < i ==> seenMids[k].mid != mid.value
        invariant seenMids == old(seenMids)
      {
        if seenMids[i].mid == mid.value {
          return;
        }
      }
      seenMids := seenMids + [Mid(Truncate(mid.value, MID_MAX), isVideo)];
    }

    /** Two passes: the first sizes the array, the second fills it exactly. */
    method CollectMids(wantVideo: bool) returns (out: array<string>)
      ensures fresh(out) && out[..] == MidsOf(seenMids, wantVideo)
    {
      var n := 0;
      for i := 0 to |seenMids|
        invariant n == |MidsOf(seenMids[..i], wantVideo)| <= i
      {
        assert seenMids[..i + 1][..i] == seenMids[..i];
        if seenMids[i].isVideo == wantVideo {
          n := n + 1;
        }
      }
      assert seenMids[..|seenMids|] == seenMids;
      out := new string[n](_ => "");
      FillMids(wantVideo, out);
    }

    /** The second pass. */
    method FillMids(wantVideo: bool, out: array<string>)
      requires out.Length == |MidsOf(seenMids, wantVideo)|
      modifies out
      ensures out[..] == MidsOf(seenMids, wantVideo)
    {
      var j := 0;
      for i := 0 to |seenMids|
        invariant j <= out.Length && out[..j] == MidsOf(seenMids[..i], wantVideo)
      {
        assert seenMids[..i + 1][..i] == seenMids[..i];
        if seenMids[i].isVideo == wantVideo {
          CountGrows(seenMids, i + 1, wantVideo);
          ghost var before := out[..j];
          out[j] := seenMids[i].mid;
          j := j + 1;
          assert out[..j] == before + [seenMids[i].mid];
        }
      }
      assert seenMids[..|seenMids|] == seenMids;
    }
  }

  lemma {:induction false} CountGrows(seen: seq<Mid>, i: nat, wantVideo: bool)
    requires i <= |seen|
    ensures |MidsOf(seen[..i], wantVideo)| <= |MidsOf(seen, wantVideo)|
    decreases |seen| - i
  {
    if i < |seen| {
      CountGrows(seen, i + 1, wantVideo);
      assert seen[..i + 1][..i] == seen[..i];
    } else {
      assert seen[..i] == seen;
    }
  }

  // ----- runs -----

  function Run(rx: Rx, inputs: seq<Input>): Rx
    decreases |inputs|
  {
    if inputs == [] then rx else Step(Run(rx, inputs[..|inputs| - 1]), inputs[|inputs| - 1])
  }

  lemma RunExtends(rx: Rx, inputs: seq<Input>, i: nat)
    requires i < |inputs|
    ensures Run(rx, inputs[..i + 1]) == Step(Run(rx, inputs[..i]), inputs[i])
  {
    assert inputs[..i + 1][..i] == inputs[..i];
  }

  /** The states in which an offer is taken. */
  predicate Ready(s: State) {
    s == Connecting || s == AwaitingAccept || s == Accepted
  }

  predicate Dead(s: State) {
    s == Failed || s == Closed
  }

  /** Input `i` makes the session apply an offer. */
  ghost predicate AppliesAt(rx: Rx, inputs: seq<Input>, i: nat) {
    i < |inputs| && Run(rx, inputs[..i + 1]).applied != Run(rx, inputs[..i]).applied
  }

  /** Input `i` is an accept that revives a failed or closed session. */
  ghost predicate RevivesAt(rx: Rx, inputs: seq<Input>, i: nat) {
    i < |inputs| && inputs[i] == Signal(RequestAccepted) && Dead(Run(rx, inputs[..i]).state)
  }

  lemma AppliedFromReady(rx: Rx, inputs: seq<Input>, i: nat)
    requires AppliesAt(rx, inputs, i)
    ensures Ready(Run(rx, inputs[..i]).state) && Run(rx, inputs[..i + 1]).state == Negotiating
  {
    RunExtends(rx, inputs, i);
  }

  /** Once a session is past accepting offers, only an accept in a failed or closed state makes it
      accept one again. */
  lemma {:induction false} ReadyAgainByRevival(rx: Rx, inputs: seq<Input>, a: nat, b: nat) returns (k: nat)
    requires a <= b <= |inputs|
    requires !Ready(Run(rx, inputs[..a]).state) && Ready(Run(rx, inputs[..b]).state)
    ensures a <= k < b && RevivesAt(rx, inputs, k)
    decreases b
  {
    RunExtends(rx, inputs, b - 1);
    if Ready(Run(rx, inputs[..b - 1]).state) {
      k := ReadyAgainByRevival(rx, inputs, a, b - 1);
    } else {
      k := b - 1;
    }
  }

  /** A state outside a class at `a` and inside it at `b` is entered in between. */
  lemma {:induction false} EntersDead(rx: Rx, inputs: seq<Input>, a: nat, b: nat) returns (m: nat)
    requires a <= b <= |inputs|
    requires !Dead(Run(rx, inputs[..a]).state) && Dead(Run(rx, inputs[..b]).state)
    ensures a <= m < b && !Dead(Run(rx, inputs[..m]).state) && Dead(Run(rx, inputs[..m + 1]).state)
    decreases b
  {
    if Dead(Run(rx, inputs[..b - 1]).state) {
      m := EntersDead(rx, inputs, a, b - 1);
    } else {
      m := b - 1;
    }
  }

  /** Main result: between any two applied offers the session failed or closed and was then accepted
      afresh. */
  lemma OffersAreSeparated(rx: Rx, inputs: seq<Input>, i: nat, j: nat)
    requires i < j && AppliesAt(rx, inputs, i) && AppliesAt(rx, inputs, j)
    ensures exists m, k :: i < m < k < j && RevivesAt(rx, inputs, k)
              && !Dead(Run(rx, inputs[..m]).state) && Dead(Run(rx, inputs[..m + 1]).state)
  {
    AppliedFromReady(rx, inputs, i);
    AppliedFromReady(rx, inputs, j);
    var k := ReadyAgainByRevival(rx, inputs, i + 1, j);
    var m := EntersDead(rx, inputs, i + 1, k);
    assert i < m < k < j && RevivesAt(rx, inputs, k);
  }

  ghost function Revivals(rx: Rx, inputs: seq<Input>): nat
    decreases |inputs|
  {
    if inputs == [] then 0
    else
      var n := |inputs| - 1;
      Revivals(rx, inputs[..n]) + if RevivesAt(rx, inputs, n) then 1 else 0
  }

  /** Hence at most one offer is applied, plus one for every revival. */
  lemma {:induction false} AppliedOffersBounded(rx: Rx, inputs: seq<Input>)
    ensures |Run(rx, inputs).applied| + (if Ready(Run(rx, inputs).state) then 1 else 0)
         <= |rx.applied| + 1 + Revivals(rx, inputs)
    decreases |inputs|
  {
    if inputs != [] {
      var n := |inputs| - 1;
      AppliedOffersBounded(rx, inputs[..n]);
    }
  }

  /** Only an accept makes the machine accepted, and while it is negotiating or connected an accept
      changes nothing. */
  lemma AcceptNeverRollsBack(rx: Rx, input: Input)
    ensures input == Signal(RequestAccepted) && rx.state in {Negotiating, Connected} ==> Step(rx, input) == rx
    ensures Step(rx, input).state == Accepted && rx.state != Accepted ==> input == Signal(RequestAccepted)
    ensures Step(rx, input).state == AwaitingAccept ==> rx.state == AwaitingAccept && input != Signal(RequestAccepted)
  {}

  /** Refusals of the token, which end a session in any state. */
  predicate Refusal(input: Input) {
    input.Signal? && (input.event.TokenInvalid? || input.event.TokenLockedOut?)
  }

  /** A session that negotiates or is connected stays so, and applies nothing, whatever accepts, offers and
      other messages arrive, until its connection reports a change or its token is refused. */
  lemma {:induction false} BusyStaysBusy(rx: Rx, inputs: seq<Input>)
    requires rx.state in {Negotiating, Connected}
    requires forall i :: 0 <= i < |inputs| ==> inputs[i].Signal? && !Refusal(inputs[i])
    ensures Run(rx, inputs).state == rx.state && Run(rx, inputs).applied == rx.applied
    decreases |inputs|
  {
    if inputs != [] {
      BusyStaysBusy(rx, inputs[..|inputs| - 1]);
    }
  }

  lemma RunAppended(rx: Rx, inputs: seq<Input>, input: Input)
    ensures Run(rx, inputs + [input]) == Step(Run(rx, inputs), input)
  {
    hide Step;
    assert (inputs + [input])[..|inputs|] == inputs;
  }

  /** What the next input makes of the state, after any run. */
  lemma NextState(rx: Rx, inputs: seq<Input>, input: Input)
    ensures var s, s' := Run(rx, inputs).state, Run(rx, inputs + [input]).state;
            && (Refusal(input) || input == Peer(PeerFailed) ==> s' == Failed)
            && (input == Peer(PeerClosed) ==> s' == Closed)
            && (input == Peer(PeerConnected) ==> s' == Connected)
            && (input == Peer(PeerNew) || input == Peer(PeerConnecting) ==> s' == Negotiating)
            && (input == Signal(RequestAccepted) ==> s' == if s in {Negotiating, Connected} then s else Accepted)
            && (input.Signal? && input.event.SdpOffer? ==> s' == if Ready(s) then Negotiating else s)
            && (input.Signal? && !Refusal(input) && !input.event.SdpOffer? && !input.event.RequestAccepted? ==> s' == s)
  {
    hide Run, OfferSdp, IceParts, OfPeer;
    RunAppended(rx, inputs, input);
    PeerStates();
  }

  lemma PeerStates()
    ensures OfPeer(PeerNew) == OfPeer(PeerConnecting) == Negotiating && OfPeer(PeerConnected) == Connected
    ensures OfPeer(PeerFailed) == Failed && OfPeer(PeerClosed) == Closed
  {}

  /** An input that leaves a dead session dead. */
  predicate KeepsDead(input: Input) {
    input != Signal(RequestAccepted) && (input.Peer? ==> input.state in {PeerFailed, PeerClosed})
  }

  lemma DeadStep(rx: Rx, input: Input)
    requires Dead(rx.state) && KeepsDead(input)
    ensures Dead(Step(rx, input).state) && Step(rx, input).applied == rx.applied
  {
    hide OfferSdp, IceParts;
  }

  lemma {:induction false} DeadStays(rx: Rx, inputs: seq<Input>)
    requires Dead(rx.state) && forall i :: 0 <= i < |inputs| ==> KeepsDead(inputs[i])
    ensures Dead(Run(rx, inputs).state) && Run(rx, inputs).applied == rx.applied
    decreases |inputs|
  {
    hide Step, KeepsDead, Dead;
    if inputs != [] {
      DeadStays(rx, inputs[..|inputs| - 1]);
      DeadStep(Run(rx, inputs[..|inputs| - 1]), inputs[|inputs| - 1]);
    }
  }

  lemma {:induction false} RunSplit(rx: Rx, a: seq<Input>, b: seq<Input>)
    ensures Run(rx, a + b) == Run(Run(rx, a), b)
    decreases |b|
  {
    hide Step;
    if b == [] {
      assert a + b == a;
    } else {
      RunSplit(rx, a, b[..|b| - 1]);
      assert (a + b)[..|a + b| - 1] == a + b[..|b| - 1];
    }
  }

  lemma RefusalStep(rx: Rx, refusal: Input)
    requires Refusal(refusal)
    ensures Step(rx, refusal) == rx.(state := Failed)
  {}

  /** The token's refusal ends a session in every state of every run, and whatever comes after it, nothing is
      applied until an accept arrives or the connection reports that it lives. */
  lemma RefusalLasts(rx: Rx, before: seq<Input>, refusal: Input, after: seq<Input>)
    requires Refusal(refusal) && forall i :: 0 <= i < |after| ==> KeepsDead(after[i])
    ensures Run(rx, before + [refusal]).state == Failed
    ensures Dead(Run(rx, before + [refusal] + after).state)
    ensures Run(rx, before + [refusal] + after).applied == Run(rx, before).applied
  {
    hide Run, Step, Refusal, KeepsDead;
    RunAppended(rx, before, refusal);
    RefusalStep(Run(rx, before), refusal);
    RunSplit(rx, before + [refusal], after);
    DeadStays(Run(rx, before + [refusal]), after);
  }

  /** The candidates that the inputs carry in readable form, in order. */
  function CandidatesIn(inputs: seq<Input>): seq<(string, string)> {
    if inputs == [] then []
    else
      var last := inputs[|inputs| - 1];
      CandidatesIn(inputs[..|inputs| - 1])
      + if last.Signal? && last.event.IceCandidate? && IceParts(last.event.json).Some?
        then [IceParts(last.event.json).value] else []
  }

  /** In every run, and in every state, exactly those are handed to the connection. */
  lemma {:induction false} CandidatesExactly(rx: Rx, inputs: seq<Input>)
    ensures Run(rx, inputs).candidates == rx.candidates + CandidatesIn(inputs)
    decreases |inputs|
  {
    hide OfferSdp, IceParts;
    if inputs != [] {
      CandidatesExactly(rx, inputs[..|inputs| - 1]);
    }
  }

  /** Input `i` applies an offer if and only if it is one, has a description and finds the session ready; and
      then that description, as it decodes. */
  lemma AppliesExactly(rx: Rx, inputs: seq<Input>, i: nat)
    requires i < |inputs|
    ensures Run(rx, inputs[..i + 1]).applied == Run(rx, inputs[..i]).applied
         + (if inputs[i].Signal? && inputs[i].event.SdpOffer? && OfferSdp(inputs[i].event.json).Some? && Ready(Run(rx, inputs[..i]).state)
            then [OfferSdp(inputs[i].event.json).value] else [])
  {
    hide OfferSdp, IceParts;
    RunExtends(rx, inputs, i);
  }

  /** Up to its first applied offer, with no peer-connection event before it, a fresh session is
      accepted at that offer exactly if an accept came first. */
  lemma {:induction false} AcceptedWhenApplied(inputs: seq<Input>, i: nat)
    requires i <= |inputs| && forall k :: 0 <= k < i ==> inputs[k].Signal?
    ensures var s := Run(Rx(AwaitingAccept, [], []), inputs[..i]).state;
            && s != Connecting
            && (s == AwaitingAccept ==> Signal(RequestAccepted) !in inputs[..i])
            && (s == Accepted ==> Signal(RequestAccepted) in inputs[..i])
    decreases i
  {
    if i > 0 {
      var rx := Rx(AwaitingAccept, [], []);
      AcceptedWhenApplied(inputs, i - 1);
      RunExtends(rx, inputs, i - 1);
      AcceptNeverRollsBack(Run(rx, inputs[..i - 1]), inputs[i - 1]);
      assert inputs[..i] == inputs[..i - 1] + [inputs[i - 1]];
    }
  }

  lemma FirstOfferFindsAccepted(inputs: seq<Input>, i: nat)
    requires AppliesAt(Rx(AwaitingAccept, [], []), inputs, i) && forall k :: 0 <= k < i ==> inputs[k].Signal?
    ensures Run(Rx(AwaitingAccept, [], []), inputs[..i]).state == Accepted
       <==> Signal(RequestAccepted) in inputs[..i]
  {
    AppliedFromReady(Rx(AwaitingAccept, [], []), inputs, i);
    AcceptedWhenApplied(inputs, i);
  }

  // ----- stream ids -----

  ghost predicate DistinctMids(seen: seq<Mid>) {
    forall i, j :: 0 <= i < j < |seen| ==> seen[i].mid != seen[j].mid
  }

  /** The list stays free of duplicates exactly as long as an id fits its buffer or its cut form is
      new: a longer id is compared whole but stored cut. */
  lemma RememberKeepsDistinct(seen: seq<Mid>, mid: string, isVideo: bool)
    requires DistinctMids(seen) && mid != ""
    ensures DistinctMids(Remember(seen, Some(mid), isVideo))
       <==> |mid| < MID_MAX || Holds(seen, mid) || !Holds(seen, Truncate(mid, MID_MAX))
  {
    var r := Remember(seen, Some(mid), isVideo);
    if r != seen {
      var cut := Truncate(mid, MID_MAX);
      assert r == seen + [Mid(cut, isVideo)];
      if DistinctMids(r) {
        forall i | 0 <= i < |seen| ensures seen[i].mid != cut {
          assert r[i].mid != r[|seen|].mid;
        }
      }
    }
  }

  function Earlier(seen: seq<Mid>, wantVideo: bool, i: nat): set<nat>
    requires i <= |seen|
  {
    set j | 0 <= j < i && seen[j].isVideo == wantVideo
  }

  lemma {:induction false} CountEarlier(seen: seq<Mid>, wantVideo: bool, i: nat)
    requires i <= |seen|
    ensures |MidsOf(seen[..i], wantVideo)| == |Earlier(seen, wantVideo, i)|
  {
    hide Earlier;
    NoneEarlier(seen, wantVideo);
    if i > 0 {
      CountEarlier(seen, wantVideo, i - 1);
      assert seen[..i][..i - 1] == seen[..i - 1];
      EarlierNext(seen, wantVideo, i - 1);
    }
  }

  lemma NoneEarlier(seen: seq<Mid>, wantVideo: bool)
    ensures Earlier(seen, wantVideo, 0) == {}
  {}

  lemma EarlierNext(seen: seq<Mid>, wantVideo: bool, i: nat)
    requires i < |seen|
    ensures |Earlier(seen, wantVideo, i + 1)| == |Earlier(seen, wantVideo, i)| + if seen[i].isVideo == wantVideo then 1 else 0
  {
    var before, after := Earlier(seen, wantVideo, i), Earlier(seen, wantVideo, i + 1);
    assert i !in before;
    if seen[i].isVideo == wantVideo {
      assert after == before + {i};
    } else {
      assert after == before;
    }
  }

  lemma {:induction false} MidsPrefix(seen: seq<Mid>, wantVideo: bool, i: nat)
    requires i <= |seen|
    ensures MidsOf(seen[..i], wantVideo) <= MidsOf(seen, wantVideo)
    decreases |seen| - i
  {
    if i == |seen| {
      assert seen[..i] == seen;
    } else {
      MidsPrefix(seen, wantVideo, i + 1);
      assert seen[..i + 1][..i] == seen[..i];
    }
  }

  /** The ids of one kind are listed in the order they were first seen, and no others: a stream's place is the
      number of streams of its kind before it. */
  lemma MidsInOrder(seen: seq<Mid>, wantVideo: bool, i: nat)
    requires i < |seen| && seen[i].isVideo == wantVideo
    ensures |MidsOf(seen, wantVideo)| == |Earlier(seen, wantVideo, |seen|)|
    ensures var place := |Earlier(seen, wantVideo, i)|;
            place < |MidsOf(seen, wantVideo)| && MidsOf(seen, wantVideo)[place] == seen[i].mid
  {
    hide Earlier;
    CountEarlier(seen, wantVideo, i);
    CountEarlier(seen, wantVideo, |seen|);
    assert seen[..|seen|] == seen;
    assert seen[..i + 1][..i] == seen[..i];
    MidsPrefix(seen, wantVideo, i + 1);
  }

  /** Every stream that was seen, with the kind it came with. */
  function RememberAll(sightings: seq<(string, bool)>): seq<Mid> {
    if sightings == [] then []
    else
      var last := sightings[|sightings| - 1];
      Remember(RememberAll(sightings[..|sightings| - 1]), Some(last.0), last.1)
  }

  /** `m` is the first sighting of its id. */
  ghost predicate SeenFirst(sightings: seq<(string, bool)>, m: Mid) {
    m.mid != "" && exists i :: 0 <= i < |sightings| && sightings[i] == (m.mid, m.isVideo)
                     && forall k :: 0 <= k < i ==> sightings[k].0 != m.mid
  }

  ghost predicate Seen(sightings: seq<(string, bool)>, mid: string) {
    exists i :: 0 <= i < |sightings| && sightings[i].0 == mid
  }

  lemma SeenFirstNext(before: seq<(string, bool)>, last: (string, bool), m: Mid)
    ensures SeenFirst(before + [last], m) <==>
      (SeenFirst(before, m) || (m.mid != "" && last == (m.mid, m.isVideo) && !Seen(before, m.mid)))
  {
    var all := before + [last];
    if SeenFirst(before, m) {
      var i :| 0 <= i < |before| && before[i] == (m.mid, m.isVideo) && forall k :: 0 <= k < i ==> before[k].0 != m.mid;
      assert all[i] == before[i] && forall k :: 0 <= k < i ==> all[k] == before[k];
    }
    if SeenFirst(all, m) {
      var i :| 0 <= i < |all| && all[i] == (m.mid, m.isVideo) && forall k :: 0 <= k < i ==> all[k].0 != m.mid;
      assert forall k :: 0 <= k < |before| ==> before[k] == all[k];
      if i < |before| {
        assert before[i] == (m.mid, m.isVideo);
      }
    }
    if m.mid != "" && last == (m.mid, m.isVideo) && !Seen(before, m.mid) {
      assert all[|before|] == last && forall k :: 0 <= k < |before| ==> all[k] == before[k];
    }
  }

  /** As long as ids fit their buffer, what is remembered is each id with the kind of its first sighting. */
  lemma {:induction false} RememberedExactly(sightings: seq<(string, bool)>, m: Mid)
    requires forall i :: 0 <= i < |sightings| ==> |sightings[i].0| < MID_MAX
    ensures m in RememberAll(sightings) <==> SeenFirst(sightings, m)
    decreases |sightings|
  {
    hide Remember, SeenFirst, Seen, Holds;
    if sightings == [] {
      NothingSeen(m);
    } else {
      var n := |sightings| - 1;
      var before, last := sightings[..n], sightings[n];
      assert sightings == before + [last];
      RememberedExactly(before, m);
      HeldExactly(before, last.0);
      RememberOne(RememberAll(before), last.0, last.1);
      SeenFirstNext(before, last, m);
    }
  }

  lemma NothingSeen(m: Mid)
    ensures !SeenFirst([], m)
  {}

  lemma RememberOne(seen: seq<Mid>, mid: string, isVideo: bool)
    requires |mid| < MID_MAX
    ensures Remember(seen, Some(mid), isVideo) == seen + if mid == "" || Holds(seen, mid) then [] else [Mid(mid, isVideo)]
  {}

  lemma {:induction false} HeldExactly(sightings: seq<(string, bool)>, mid: string)
    requires forall i :: 0 <= i < |sightings| ==> |sightings[i].0| < MID_MAX
    ensures Holds(RememberAll(sightings), mid) <==> mid != "" && Seen(sightings, mid)
    decreases |sightings|
  {
    hide Remember;
    if sightings != [] {
      var n := |sightings| - 1;
      HeldExactly(sightings[..n], mid);
      HeldExactly(sightings[..n], sightings[n].0);
      var before := RememberAll(sightings[..n]);
      RememberOne(before, sightings[n].0, sightings[n].1);
      HoldsAppended(before, Mid(sightings[n].0, sightings[n].1), mid);
    }
  }

  lemma HoldsAppended(seen: seq<Mid>, m: Mid, mid: string)
    ensures Holds(seen + [m], mid) <==> Holds(seen, mid) || m.mid == mid
  {
    if Holds(seen, mid) {
      var i :| 0 <= i < |seen| && seen[i].mid == mid;
      assert (seen + [m])[i].mid == mid;
    }
    assert (seen + [m])[|seen|] == m;
  }

  /** Every seen stream is offered as a video or an audio stream, in the order it was first seen. */
  lemma {:induction false} MidsPartition(seen: seq<Mid>)
    ensures |MidsOf(seen, true)| + |MidsOf(seen, false)| == |seen|
    ensures forall i :: 0 <= i < |seen| ==> seen[i].mid in MidsOf(seen, seen[i].isVideo)
  {
    if seen != [] {
      MidsPartition(seen[..|seen| - 1]);
    }
  }
}

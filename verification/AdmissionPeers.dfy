/** What the sender's admission list guarantees over whole runs: who is accepted and why, who hears of it, and
    the limiter as part of it (src/admission.c, src/sender.c:343-412, 434-470, 798-843). */
module AdmissionPeers {
  import opened Common
  import opened Admission
  import opened AdmissionRuns

  datatype Op =
    | Add(id: string, name: Option<string>, fingerprint: Option<string>, call: Call, seen: nat)
    | Accept(id: string, pin: bool)
    | Reject(id: string)
    | Disconnect(id: string)  // by the user, who also has the peer rejected
    | Gone(id: string)        // told by the server
    | Revoke

  /** The list together with what happened: the ids added, the fingerprints pinned by an explicit
      accept, and the ids for which `accept` and `reject` went to signaling. */
  datatype Log = Log(adm: Adm, added: seq<string>, pins: seq<string>, acceptsSent: seq<string>, rejectsSent: seq<string>)

  const EMPTY_LOG := Log(Adm([], Ledger([], 0)), [], [], [], [])

  /** `on_admission_changed`: what a reported peer makes the sender say. */
  function Report(log: Log, changed: Option<Peer>): Log {
    match changed
    case None => log
    case Some(p) =>
      match p.state
      case Accepted => log.(acceptsSent := log.acceptsSent + [p.id])
      case Rejected => log.(rejectsSent := log.rejectsSent + [p.id])
      case Revoked => log.(rejectsSent := log.rejectsSent + [p.id])
      case _ => log
  }

  function Apply(log: Log, cfg: Config, op: Op): Log
    requires Usable(cfg)
  {
    match op
    case Add(id, name, fp, call, seen) =>
      var (adm, changed) := Admit(log.adm, cfg, id, name, fp, call, seen);
      Report(log.(adm := adm, added := match changed case None => log.added case Some(p) => log.added + [p.id]), changed)
    case Accept(id, pin) =>
      var (peers, changed) := SetState(log.adm.peers, id, Accepted, pin);
      Report(log.(adm := log.adm.(peers := peers),
                  pins := if pin && changed.Some? then log.pins + [changed.value.fingerprint] else log.pins), changed)
    case Reject(id) => Set(log, id, Rejected)
    case Disconnect(id) =>
      var told := Set(log, id, Disconnected);
      told.(rejectsSent := told.rejectsSent + [id])
    case Gone(id) => Set(log, id, Disconnected)
    case Revoke => log.(adm := log.adm.(peers := RevokeAll(log.adm.peers)))
  }

  function Set(log: Log, id: string, s: PeerState): Log {
    var (peers, changed) := SetState(log.adm.peers, id, s, false);
    Report(log.(adm := log.adm.(peers := peers)), changed)
  }

  function ApplyAll(log: Log, cfg: Config, ops: seq<Op>): Log
    requires Usable(cfg)
    decreases |ops|
  {
    if ops == [] then log else Apply(ApplyAll(log, cfg, ops[..|ops| - 1]), cfg, ops[|ops| - 1])
  }

  /** Of a list of peers: each was added, and each pinned one shows a pinned fingerprint; a stored
      fingerprint always fits its buffer. */
  ghost predicate Known(peers: seq<Peer>, added: seq<string>, pins: seq<string>) {
    forall i :: 0 <= i < |peers| ==>
      && peers[i].id in added && |peers[i].fingerprint| < FINGERPRINT_MAX
      && (peers[i].pinned ==> peers[i].fingerprint in pins)
  }

  ghost predicate Provenance(log: Log) {
    Known(log.adm.peers, log.added, log.pins) && forall i :: 0 <= i < |log.acceptsSent| ==> log.acceptsSent[i] in log.added
  }

  lemma AdmitKeepsKnown(adm: Adm, cfg: Config, op: Op, added: seq<string>, pins: seq<string>)
    requires Usable(cfg) && op.Add? && Known(adm.peers, added, pins)
    ensures var (adm', changed) := Admit(adm, cfg, op.id, op.name, op.fingerprint, op.call, op.seen);
            match changed
            case None => adm'.peers == adm.peers
            case Some(p) => Known(adm'.peers, added + [p.id], pins)
  {
    hide Attempt, FindPeer, CountState;
  }

  lemma SetStateKeepsKnown(peers: seq<Peer>, id: string, s: PeerState, pin: bool, added: seq<string>, pins: seq<string>)
    requires Known(peers, added, pins)
    ensures var (peers', changed) := SetState(peers, id, s, pin);
            match changed
            case None => peers' == peers
            case Some(p) => p.id in added && Known(peers', added, if pin then pins + [p.fingerprint] else pins)
  {}

  lemma ApplyKeepsProvenance(log: Log, cfg: Config, op: Op)
    requires Usable(cfg) && Provenance(log)
    ensures Provenance(Apply(log, cfg, op))
    ensures log.added <= Apply(log, cfg, op).added && log.pins <= Apply(log, cfg, op).pins
  {
    hide Admit, SetState, Known;
    match op
    case Add(_, _, _, _, _) => AdmitKeepsKnown(log.adm, cfg, op, log.added, log.pins);
    case Accept(id, pin) =>
      SetStateKeepsKnown(log.adm.peers, id, Accepted, pin, log.added, log.pins);
      var (peers, changed) := SetState(log.adm.peers, id, Accepted, pin);
      if changed.Some? {
        var pins := if pin then log.pins + [changed.value.fingerprint] else log.pins;
        assert Known(peers, log.added, pins);
        assert Apply(log, cfg, op).pins == pins;
      }
    case Reject(id) => SetStateKeepsKnown(log.adm.peers, id, Rejected, false, log.added, log.pins);
    case Disconnect(id) => SetStateKeepsKnown(log.adm.peers, id, Disconnected, false, log.added, log.pins);
    case Gone(id) => SetStateKeepsKnown(log.adm.peers, id, Disconnected, false, log.added, log.pins);
    case Revoke => RevokeKeepsKnown(log.adm.peers, log.added, log.pins);
  }

  lemma RevokeKeepsKnown(peers: seq<Peer>, added: seq<string>, pins: seq<string>)
    requires Known(peers, added, pins)
    ensures Known(RevokeAll(peers), added, pins)
  {}

  /** Every `accept` sent names a peer that was added before, and every pinned peer, so also every
      peer accepted without asking, shows a fingerprint the user pinned by an accept. */
  lemma {:induction false} ProvenanceHolds(cfg: Config, ops: seq<Op>)
    requires Usable(cfg)
    ensures Provenance(ApplyAll(EMPTY_LOG, cfg, ops))
    decreases |ops|
  {
    if ops != [] {
      ProvenanceHolds(cfg, ops[..|ops| - 1]);
      ApplyKeepsProvenance(ApplyAll(EMPTY_LOG, cfg, ops[..|ops| - 1]), cfg, ops[|ops| - 1]);
    }
  }

  /** A new peer is accepted at once exactly if pins are honoured and a pinned peer has the very
      fingerprint it shows; it is then pinned itself. */
  lemma AutoAcceptExactly(adm: Adm, cfg: Config, id: string, name: Option<string>, fp: Option<string>, c: Call, seen: nat)
    requires Usable(cfg) && Admit(adm, cfg, id, name, fp, c, seen).1.Some?
    requires forall i :: 0 <= i < |adm.peers| ==> |adm.peers[i].fingerprint| < FINGERPRINT_MAX
    ensures var p := Admit(adm, cfg, id, name, fp, c, seen).1.value;
            && (p.state == Accepted <==> cfg.autoAcceptPinned && fp.Some? && KnownPin(adm.peers, fp.value))
            && (p.state == Accepted <==> p.pinned)
            && (p.pinned ==> Some(p.fingerprint) == fp && KnownPin(adm.peers, p.fingerprint))
  {
    hide Attempt, FindPeer, CountState;
  }

  /** In every state of the limiter that its history explains, a peer is added if and only if no lockout is
      running, fewer than the allowed number of all attempts ever recorded are in the window, nobody has
      its id and the accepted peers are below the cap. */
  lemma AddedExactly(h: History, cfg: Config, now: nat, peers: seq<Peer>, id: string, name: Option<string>, fp: Option<string>,
                     c: Call, seen: nat)
    requires Usable(cfg) && Agrees(h, cfg, now) && Ticks(cfg, now, c)
    ensures var (adm', changed) := Admit(Adm(peers, h.ledger), cfg, id, name, fp, c, seen);
            && adm'.ledger == Step(h, cfg, c).ledger
            && (changed.Some? <==>
                 (h.ledger.lockoutUntil <= c.lockoutCheck
                  && |Within(h.recorded, c.windowCheck - Window(cfg), c.windowCheck)| < cfg.maxAttempts
                  && (forall i :: 0 <= i < |peers| ==> peers[i].id != id)
                  && CountState(peers, Accepted) < cfg.maxReceivers))
  {
    hide Agrees, Ticks, Attempt, Within, CountState, NewPeer;
    RecordedExactly(h, cfg, now, c);
    BlockedMeansNotRecorded(h, cfg, c);
  }

  lemma BlockedMeansNotRecorded(h: History, cfg: Config, c: Call)
    requires Usable(cfg)
    ensures Attempt(h.ledger, cfg, c).1 <==> Step(h, cfg, c).recorded == h.recorded
  {}

  /** No operation ever clears a pin: after a rejection, a disconnect or a revocation the
      next peer that is added with the fingerprint is still accepted without asking. */
  lemma PinsArePermanent(log: Log, cfg: Config, op: Op, fp: string)
    requires Usable(cfg) && KnownPin(log.adm.peers, fp)
    ensures KnownPin(Apply(log, cfg, op).adm.peers, fp)
  {
    var i :| 0 <= i < |log.adm.peers| && log.adm.peers[i].pinned && log.adm.peers[i].fingerprint == fp;
    var peers' := Apply(log, cfg, op).adm.peers;
    assert peers'[i].pinned && peers'[i].fingerprint == fp;
  }

  /** In every run the fingerprints the list holds as pinned are exactly those pinned by explicit accepts. */
  lemma {:induction false} PinsMatchHistory(cfg: Config, ops: seq<Op>, fp: string)
    requires Usable(cfg)
    ensures KnownPin(ApplyAll(EMPTY_LOG, cfg, ops).adm.peers, fp) <==> fp in ApplyAll(EMPTY_LOG, cfg, ops).pins
    decreases |ops|
  {
    hide Apply, KnownPin, Provenance;
    if ops == [] {
      NoPins(fp);
    } else {
      var before := ApplyAll(EMPTY_LOG, cfg, ops[..|ops| - 1]);
      var op := ops[|ops| - 1];
      PinsMatchHistory(cfg, ops[..|ops| - 1], fp);
      ProvenanceHolds(cfg, ops);
      KnownPinIsRecorded(Apply(before, cfg, op), fp);
      if KnownPin(before.adm.peers, fp) {
        PinsArePermanent(before, cfg, op, fp);
      }
      NewPinIsHeld(before, cfg, op, fp);
    }
  }

  lemma NoPins(fp: string)
    ensures !KnownPin(EMPTY_LOG.adm.peers, fp)
  {}

  lemma KnownPinIsRecorded(log: Log, fp: string)
    requires Provenance(log)
    ensures KnownPin(log.adm.peers, fp) ==> fp in log.pins
  {}

  lemma NewPinIsHeld(log: Log, cfg: Config, op: Op, fp: string)
    requires Usable(cfg)
    ensures fp in Apply(log, cfg, op).pins && fp !in log.pins ==> KnownPin(Apply(log, cfg, op).adm.peers, fp)
  {
    hide Admit, FindPeer;
    if op.Accept? && FindPeer(log.adm.peers, op.id).Some? {
      var i := FindPeer(log.adm.peers, op.id).value;
      var peers' := Apply(log, cfg, op).adm.peers;
      assert i < |log.adm.peers| ==> peers'[i].fingerprint == log.adm.peers[i].fingerprint;
    }
  }

  /** Main result: in every run a peer that is added is accepted without asking if and only if pins are honoured
      and the very fingerprint it shows was pinned by an explicit accept earlier in the run. */
  lemma AutoAcceptedExactly(cfg: Config, ops: seq<Op>, op: Op)
    requires Usable(cfg) && op.Add?
    requires var adm := ApplyAll(EMPTY_LOG, cfg, ops).adm;
             Admit(adm, cfg, op.id, op.name, op.fingerprint, op.call, op.seen).1.Some?
    ensures var log := ApplyAll(EMPTY_LOG, cfg, ops);
            var p := Admit(log.adm, cfg, op.id, op.name, op.fingerprint, op.call, op.seen).1.value;
            p.state == Accepted <==> (cfg.autoAcceptPinned && op.fingerprint.Some? && op.fingerprint.value in log.pins)
  {
    hide ApplyAll, Admit, KnownPin;
    var log := ApplyAll(EMPTY_LOG, cfg, ops);
    ProvenanceHolds(cfg, ops);
    AutoAcceptExactly(log.adm, cfg, op.id, op.name, op.fingerprint, op.call, op.seen);
    if op.fingerprint.Some? {
      PinsMatchHistory(cfg, ops, op.fingerprint.value);
    }
  }

  // ----- the limiter within these runs -----

  function CallsOf(ops: seq<Op>): seq<Call> {
    if ops == [] then []
    else
      var op := ops[|ops| - 1];
      CallsOf(ops[..|ops| - 1]) + if op.Add? then [op.call] else []
  }

  /** The limiter's history in a run: that of the calls its requests make. */
  function HistoryOf(cfg: Config, ops: seq<Op>): History
    requires Usable(cfg)
  {
    Run(START, cfg, CallsOf(ops))
  }

  lemma RunAppended(cfg: Config, calls: seq<Call>, c: Call)
    requires Usable(cfg)
    ensures Run(START, cfg, calls + [c]) == Step(Run(START, cfg, calls), cfg, c)
  {
    hide Step;
    assert (calls + [c])[..|calls|] == calls;
  }

  /** The ledger of a run is the limiter's after those calls, so all that is proved of the limiter holds of it. */
  lemma {:induction false} LedgerIsLimiters(cfg: Config, ops: seq<Op>)
    requires Usable(cfg)
    ensures ApplyAll(EMPTY_LOG, cfg, ops).adm.ledger == HistoryOf(cfg, ops).ledger
    decreases |ops|
  {
    hide Apply, Step;
    if ops != [] {
      var before, op := ops[..|ops| - 1], ops[|ops| - 1];
      LedgerIsLimiters(cfg, before);
      ApplyMovesLedger(ApplyAll(EMPTY_LOG, cfg, before), cfg, op, HistoryOf(cfg, before));
      if op.Add? {
        RunAppended(cfg, CallsOf(before), op.call);
      } else {
        assert CallsOf(ops) == CallsOf(before);
      }
    }
  }

  lemma ApplyMovesLedger(log: Log, cfg: Config, op: Op, h: History)
    requires Usable(cfg) && log.adm.ledger == h.ledger
    ensures Apply(log, cfg, op).adm.ledger == if op.Add? then Step(h, cfg, op.call).ledger else h.ledger
  {
    hide Attempt, FindPeer, CountState, NewPeer, RevokeAll;
  }

  /** The clock of a run never goes back, and has passed the window's length. */
  predicate Timed(cfg: Config, from: nat, ops: seq<Op>, op: Op)
    requires Usable(cfg)
  {
    op.Add? && Clocked(cfg, from, CallsOf(ops)) && Ticks(cfg, Last(from, CallsOf(ops)), op.call)
  }

  /** In every run a request is recorded if and only if no lockout is running and fewer than the allowed number
      of all attempts recorded in the run are in the window. */
  lemma RequestRecordedExactly(cfg: Config, from: nat, ops: seq<Op>, op: Op)
    requires Usable(cfg) && Timed(cfg, from, ops, op)
    ensures HistoryOf(cfg, ops + [op]).recorded != HistoryOf(cfg, ops).recorded <==>
      (ApplyAll(EMPTY_LOG, cfg, ops).adm.ledger.lockoutUntil <= op.call.lockoutCheck
       && |Within(HistoryOf(cfg, ops).recorded, op.call.windowCheck - Window(cfg), op.call.windowCheck)| < cfg.maxAttempts)
  {
    hide Run, Step, Within, ApplyAll, Ticks, Clocked, Agrees;
    LedgerIsLimiters(cfg, ops);
    RunAgrees(cfg, from, CallsOf(ops));
    RecordedExactly(HistoryOf(cfg, ops), cfg, Last(from, CallsOf(ops)), op.call);
    RunAppended(cfg, CallsOf(ops), op.call);
    assert (ops + [op])[..|ops|] == ops;
  }

  /** Main result: in every run a request adds a peer if and only if no lockout is running, fewer than the
      allowed number of all attempts recorded in the run are in the window, nobody with that id was added
      before and the accepted peers are below the cap. */
  lemma PeerAddedExactly(cfg: Config, from: nat, ops: seq<Op>, op: Op)
    requires Usable(cfg) && Timed(cfg, from, ops, op)
    ensures var log := ApplyAll(EMPTY_LOG, cfg, ops);
            Apply(log, cfg, op).added != log.added <==>
              (log.adm.ledger.lockoutUntil <= op.call.lockoutCheck
               && |Within(HistoryOf(cfg, ops).recorded, op.call.windowCheck - Window(cfg), op.call.windowCheck)| < cfg.maxAttempts
               && op.id !in log.added && |InState(log.adm.peers, Accepted)| < cfg.maxReceivers)
  {
    hide Run, Step, Within, ApplyAll, Ticks, Clocked, Agrees, Admit, CountState, InState;
    var log := ApplyAll(EMPTY_LOG, cfg, ops);
    LedgerIsLimiters(cfg, ops);
    IdsAreAddedInRuns(cfg, ops);
    RunAgrees(cfg, from, CallsOf(ops));
    AddedExactly(HistoryOf(cfg, ops), cfg, Last(from, CallsOf(ops)), log.adm.peers, op.id, op.name, op.fingerprint, op.call, op.seen);
    assert log.adm == Adm(log.adm.peers, HistoryOf(cfg, ops).ledger);
    IdsInAdded(log, op.id);
    AddedGrows(log, cfg, op);
    CountIsSize(log.adm.peers, Accepted);
  }

  lemma AddedGrows(log: Log, cfg: Config, op: Op)
    requires Usable(cfg) && op.Add?
    ensures Apply(log, cfg, op).added != log.added
       <==> Admit(log.adm, cfg, op.id, op.name, op.fingerprint, op.call, op.seen).1.Some?
  {
    hide Admit;
    var changed := Admit(log.adm, cfg, op.id, op.name, op.fingerprint, op.call, op.seen).1;
    if changed.Some? {
      assert |log.added + [changed.value.id]| > |log.added|;
    }
  }

  lemma IdsInAdded(log: Log, id: string)
    requires IdsAreAdded(log)
    ensures (forall i :: 0 <= i < |log.adm.peers| ==> log.adm.peers[i].id != id) <==> id !in log.added
  {
    if id in log.added {
      var i :| 0 <= i < |log.added| && log.added[i] == id;
      assert log.adm.peers[i].id == id;
    }
  }

  // ----- what an addition leaves behind -----

  /** The fingerprint was pinned by an explicit accept earlier, and that counts. */
  predicate PinnedEarlier(log: Log, cfg: Config, fp: Option<string>) {
    cfg.autoAcceptPinned && fp.Some? && fp.value in log.pins
  }

  function CutTo(text: Option<string>, room: nat): string
    requires room > 0
  {
    match text case None => "" case Some(s) => if |s| < room then s else s[..room - 1]
  }

  /** Main result: in every run a request that adds a peer adds one entry, with the id, name and fingerprint it
      gave, cut to their buffers, and the time it was seen. The peer is pending and nothing is sent for it, unless
      its fingerprint was pinned earlier: then it is accepted and pinned, and an accept is sent. A request that
      adds nobody changes nothing but the limiter. */
  lemma AdditionExactly(cfg: Config, ops: seq<Op>, op: Op)
    requires Usable(cfg) && op.Add?
    ensures var log, log' := ApplyAll(EMPTY_LOG, cfg, ops), Apply(ApplyAll(EMPTY_LOG, cfg, ops), cfg, op);
            && log'.rejectsSent == log.rejectsSent && log'.pins == log.pins
            && if log'.added == log.added then log'.adm.peers == log.adm.peers && log'.acceptsSent == log.acceptsSent
               else
                 var pinned := PinnedEarlier(log, cfg, op.fingerprint);
                 var p := Peer(CutTo(Some(op.id), 64), CutTo(op.name, 128), CutTo(op.fingerprint, 128),
                               if pinned then Accepted else Pending, pinned, op.seen);
                 && log'.added == log.added + [p.id] && log'.adm.peers == log.adm.peers + [p]
                 && log'.acceptsSent == log.acceptsSent + if pinned then [p.id] else []
  {
    hide ApplyAll, KnownPin, Attempt, FindPeer, CountState, PinnedEarlier;
    var log := ApplyAll(EMPTY_LOG, cfg, ops);
    PinnedIsKnown(cfg, ops, op.fingerprint);
    AddedGrows(log, cfg, op);
    if Admit(log.adm, cfg, op.id, op.name, op.fingerprint, op.call, op.seen).1.Some? {
      NewEntry(log.adm.peers, cfg, op, PinnedEarlier(log, cfg, op.fingerprint));
    }
  }

  lemma PinnedIsKnown(cfg: Config, ops: seq<Op>, fp: Option<string>)
    requires Usable(cfg)
    ensures var log := ApplyAll(EMPTY_LOG, cfg, ops);
            PinnedEarlier(log, cfg, fp) <==> cfg.autoAcceptPinned && fp.Some? && KnownPin(log.adm.peers, fp.value)
  {
    hide ApplyAll, KnownPin;
    if fp.Some? {
      PinsMatchHistory(cfg, ops, fp.value);
    }
  }

  lemma NewEntry(peers: seq<Peer>, cfg: Config, op: Op, pinned: bool)
    requires op.Add? && (pinned <==> cfg.autoAcceptPinned && op.fingerprint.Some? && KnownPin(peers, op.fingerprint.value))
    ensures NewPeer(peers, cfg, op.id, op.name, op.fingerprint, op.seen)
         == Peer(CutTo(Some(op.id), 64), CutTo(op.name, 128), CutTo(op.fingerprint, 128),
                 if pinned then Accepted else Pending, pinned, op.seen)
  {
    hide KnownPin;
  }

  /** The state a command other than a request leaves the entry of `id` in. */
  function StateAfter(op: Op, id: string, state: PeerState): PeerState {
    match op
    case Accept(who, _) => if who == id then Accepted else state
    case Reject(who) => if who == id then Rejected else state
    case Disconnect(who) => if who == id then Disconnected else state
    case Gone(who) => if who == id then Disconnected else state
    case Revoke => Revoked
    case Add(_, _, _, _, _) => state
  }

  /** In every run of ids that fit their buffers, each other command leaves every entry as that says, pins it if
      it is an accept with a pin, and changes nothing else of it. */
  lemma EntriesExactly(cfg: Config, ops: seq<Op>, op: Op, i: nat)
    requires Usable(cfg) && !op.Add? && forall k :: 0 <= k < |ops| && ops[k].Add? ==> |ops[k].id| < PEER_ID_MAX
    requires i < |ApplyAll(EMPTY_LOG, cfg, ops).adm.peers|
    ensures var peers, peers' := ApplyAll(EMPTY_LOG, cfg, ops).adm.peers, Apply(ApplyAll(EMPTY_LOG, cfg, ops), cfg, op).adm.peers;
            && |peers'| == |peers|
            && peers'[i] == peers[i].(state := StateAfter(op, peers[i].id, peers[i].state),
                                      pinned := peers[i].pinned || (op.Accept? && op.id == peers[i].id && op.pin))
  {
    hide ApplyAll;
    IdsStayDistinct(cfg, ops);
    OneEntryChanges(ApplyAll(EMPTY_LOG, cfg, ops), cfg, op, i);
  }

  lemma OneEntryChanges(log: Log, cfg: Config, op: Op, i: nat)
    requires Usable(cfg) && !op.Add? && DistinctIds(log.adm.peers) && i < |log.adm.peers|
    ensures var peers, peers' := log.adm.peers, Apply(log, cfg, op).adm.peers;
            && |peers'| == |peers|
            && peers'[i] == peers[i].(state := StateAfter(op, peers[i].id, peers[i].state),
                                      pinned := peers[i].pinned || (op.Accept? && op.id == peers[i].id && op.pin))
  {
    if !op.Revoke? {
      FoundById(log.adm.peers, op.id, i);
    }
  }

  lemma FoundById(peers: seq<Peer>, id: string, i: nat)
    requires DistinctIds(peers) && i < |peers|
    ensures FindPeer(peers, id) == Some(i) <==> peers[i].id == id
  {
    if peers[i].id == id {
      var r := FindPeer(peers, id);
      assert r.Some?;
    }
  }

  /** What each other command sends: an accept or a reject for a peer that was added, a reject for anybody the
      user disconnects, and nothing else. */
  lemma SentExactly(cfg: Config, ops: seq<Op>, op: Op)
    requires Usable(cfg) && !op.Add?
    ensures var log, log' := ApplyAll(EMPTY_LOG, cfg, ops), Apply(ApplyAll(EMPTY_LOG, cfg, ops), cfg, op);
            && log'.added == log.added
            && log'.acceptsSent == log.acceptsSent + (if op.Accept? && op.id in log.added then [op.id] else [])
            && log'.rejectsSent == log.rejectsSent
                 + (if op.Disconnect? || (op.Reject? && op.id in log.added) then [op.id] else [])
  {
    hide ApplyAll;
    IdsAreAddedInRuns(cfg, ops);
    if !op.Revoke? {
      FoundIfAdded(ApplyAll(EMPTY_LOG, cfg, ops), op.id);
    }
  }

  lemma FoundIfAdded(log: Log, id: string)
    requires IdsAreAdded(log)
    ensures FindPeer(log.adm.peers, id).Some? <==> id in log.added
  {
    match FindPeer(log.adm.peers, id)
    case None => assert id !in log.added;
    case Some(i) => assert log.added[i] == id;
  }

  // ----- which commands reach somebody -----

  /** The ids of the list are those added, in order: nobody is ever removed or renamed. */
  ghost predicate IdsAreAdded(log: Log) {
    |log.adm.peers| == |log.added| && forall i :: 0 <= i < |log.added| ==> log.adm.peers[i].id == log.added[i]
  }

  lemma {:induction false} IdsAreAddedInRuns(cfg: Config, ops: seq<Op>)
    requires Usable(cfg)
    ensures IdsAreAdded(ApplyAll(EMPTY_LOG, cfg, ops))
    decreases |ops|
  {
    hide Apply;
    if ops != [] {
      IdsAreAddedInRuns(cfg, ops[..|ops| - 1]);
      ApplyKeepsIdsAdded(ApplyAll(EMPTY_LOG, cfg, ops[..|ops| - 1]), cfg, ops[|ops| - 1]);
    }
  }

  lemma ApplyKeepsIdsAdded(log: Log, cfg: Config, op: Op)
    requires Usable(cfg) && IdsAreAdded(log)
    ensures IdsAreAdded(Apply(log, cfg, op))
  {
    hide Attempt, CountState, FindPeer, NewPeer;
  }

  /** In every run an explicit accept is sent on, and a reject likewise, if and only if a peer of that id was
      added earlier; a disconnect by the user sends a reject for any id. */
  lemma CommandsReachTheAdded(cfg: Config, ops: seq<Op>, id: string, pin: bool)
    requires Usable(cfg)
    ensures var log := ApplyAll(EMPTY_LOG, cfg, ops);
            && Apply(log, cfg, Accept(id, pin)).acceptsSent == log.acceptsSent + (if id in log.added then [id] else [])
            && Apply(log, cfg, Reject(id)).rejectsSent == log.rejectsSent + (if id in log.added then [id] else [])
            && Apply(log, cfg, Disconnect(id)).rejectsSent == log.rejectsSent + [id]
  {
    hide ApplyAll;
    IdsAreAddedInRuns(cfg, ops);
    var log := ApplyAll(EMPTY_LOG, cfg, ops);
    match FindPeer(log.adm.peers, id)
    case None => assert id !in log.added;
    case Some(i) => assert log.added[i] == id;
  }

  ghost predicate DistinctIds(peers: seq<Peer>) {
    forall i, j :: 0 <= i < j < |peers| ==> peers[i].id != peers[j].id
  }

  /** Adding keeps ids distinct exactly if the id fits its buffer or its cut form is new. */
  lemma AddKeepsDistinctIds(adm: Adm, cfg: Config, id: string, name: Option<string>, fp: Option<string>, c: Call, seen: nat)
    requires Usable(cfg) && DistinctIds(adm.peers) && Admit(adm, cfg, id, name, fp, c, seen).1.Some?
    ensures DistinctIds(Admit(adm, cfg, id, name, fp, c, seen).0.peers)
       <==> |id| < PEER_ID_MAX || FindPeer(adm.peers, Truncate(id, PEER_ID_MAX)).None?
  {
    var peers' := Admit(adm, cfg, id, name, fp, c, seen).0.peers;
    match FindPeer(adm.peers, Truncate(id, PEER_ID_MAX))
    case None =>
    case Some(k) => assert peers'[k].id == peers'[|adm.peers|].id;
  }

  lemma SetStateKeepsIds(peers: seq<Peer>, id: string, s: PeerState, pin: bool)
    requires DistinctIds(peers)
    ensures DistinctIds(SetState(peers, id, s, pin).0)
  {}

  lemma ApplyKeepsIds(log: Log, cfg: Config, op: Op)
    requires Usable(cfg) && DistinctIds(log.adm.peers) && (op.Add? ==> |op.id| < PEER_ID_MAX)
    ensures DistinctIds(Apply(log, cfg, op).adm.peers)
  {
    hide Admit, SetState, DistinctIds, RevokeAll;
    match op
    case Add(id, name, fp, call, seen) => AdmitKeepsIds(log.adm, cfg, op);
    case Accept(id, pin) => SetStateKeepsIds(log.adm.peers, id, Accepted, pin);
    case Reject(id) => SetStateKeepsIds(log.adm.peers, id, Rejected, false);
    case Disconnect(id) => SetStateKeepsIds(log.adm.peers, id, Disconnected, false);
    case Gone(id) => SetStateKeepsIds(log.adm.peers, id, Disconnected, false);
    case Revoke => RevokeKeepsIds(log.adm.peers);
  }

  lemma AdmitKeepsIds(adm: Adm, cfg: Config, op: Op)
    requires Usable(cfg) && op.Add? && DistinctIds(adm.peers) && |op.id| < PEER_ID_MAX
    ensures DistinctIds(Admit(adm, cfg, op.id, op.name, op.fingerprint, op.call, op.seen).0.peers)
  {
    hide Attempt, CountState;
    if Admit(adm, cfg, op.id, op.name, op.fingerprint, op.call, op.seen).1.Some? {
      AddKeepsDistinctIds(adm, cfg, op.id, op.name, op.fingerprint, op.call, op.seen);
    }
  }

  lemma RevokeKeepsIds(peers: seq<Peer>)
    requires DistinctIds(peers)
    ensures DistinctIds(RevokeAll(peers))
  {}

  /** As long as ids fit their buffer, no two peers of the list ever share one, so each operation
      finds the peer it means. */
  lemma {:induction false} IdsStayDistinct(cfg: Config, ops: seq<Op>)
    requires Usable(cfg) && forall i :: 0 <= i < |ops| && ops[i].Add? ==> |ops[i].id| < PEER_ID_MAX
    ensures DistinctIds(ApplyAll(EMPTY_LOG, cfg, ops).adm.peers)
    decreases |ops|
  {
    hide Apply;
    if ops != [] {
      IdsStayDistinct(cfg, ops[..|ops| - 1]);
      ApplyKeepsIds(ApplyAll(EMPTY_LOG, cfg, ops[..|ops| - 1]), cfg, ops[|ops| - 1]);
    }
  }

  /** With distinct ids, a command reaches the peer it names: an accept is sent for it, or a reject, and its
      entry alone changes; a command for nobody does nothing. */
  lemma CommandsTakeEffect(log: Log, cfg: Config, id: string, pin: bool)
    requires Usable(cfg) && DistinctIds(log.adm.peers)
    ensures var peers := log.adm.peers; var accepted, rejected := Apply(log, cfg, Accept(id, pin)), Apply(log, cfg, Reject(id));
            if exists i :: 0 <= i < |peers| && peers[i].id == id then
              exists i :: 0 <= i < |peers| && peers[i].id == id
                && accepted.adm.peers == peers[i := peers[i].(state := Accepted, pinned := peers[i].pinned || pin)]
                && accepted.acceptsSent == log.acceptsSent + [id] && accepted.rejectsSent == log.rejectsSent
                && rejected.adm.peers == peers[i := peers[i].(state := Rejected)]
                && rejected.rejectsSent == log.rejectsSent + [id] && rejected.acceptsSent == log.acceptsSent
            else accepted == log && rejected == log
  {
    var peers := log.adm.peers;
    match FindPeer(peers, id)
    case None =>
    case Some(i) => assert peers[i].id == id && peers[i].(pinned := peers[i].pinned || false) == peers[i];
  }

  /** In every run of ids that fit their buffers an accept or reject changes the entry of the peer it names and
      no other, and for nobody it does nothing. */
  lemma CommandsChangeTheirPeer(cfg: Config, ops: seq<Op>, id: string, pin: bool)
    requires Usable(cfg) && forall i :: 0 <= i < |ops| && ops[i].Add? ==> |ops[i].id| < PEER_ID_MAX
    ensures var log := ApplyAll(EMPTY_LOG, cfg, ops);
            var accepted, rejected := Apply(log, cfg, Accept(id, pin)), Apply(log, cfg, Reject(id));
            if id in log.added then
              exists i :: 0 <= i < |log.added| && log.added[i] == id && |log.adm.peers| == |log.added|
                && accepted.adm.peers == log.adm.peers[i := log.adm.peers[i].(state := Accepted, pinned := log.adm.peers[i].pinned || pin)]
                && rejected.adm.peers == log.adm.peers[i := log.adm.peers[i].(state := Rejected)]
            else accepted == log && rejected == log
  {
    hide ApplyAll, Apply;
    IdsStayDistinct(cfg, ops);
    IdsAreAddedInRuns(cfg, ops);
    var log := ApplyAll(EMPTY_LOG, cfg, ops);
    CommandsTakeEffect(log, cfg, id, pin);
    if id in log.added {
      var k :| 0 <= k < |log.added| && log.added[k] == id;
      assert log.adm.peers[k].id == id;
    }
  }

  lemma {:induction false} CountAppended(peers: seq<Peer>, p: Peer, s: PeerState)
    ensures CountState(peers + [p], s) == CountState(peers, s) + if p.state == s then 1 else 0
  {
    if peers == [] {
      assert peers + [p] == [p];
    } else {
      assert (peers + [p])[1..] == peers[1..] + [p];
      CountAppended(peers[1..], p, s);
    }
  }

  lemma {:induction false} CountReplaced(peers: seq<Peer>, i: nat, p: Peer, s: PeerState)
    requires i < |peers|
    ensures CountState(peers[i := p], s)
         == CountState(peers, s) - (if peers[i].state == s then 1 else 0) + (if p.state == s then 1 else 0)
  {
    if i == 0 {
      assert peers[i := p][1..] == peers[1..];
    } else {
      assert peers[i := p][1..] == peers[1..][i - 1 := p];
      CountReplaced(peers[1..], i - 1, p, s);
    }
  }

  /** The entries in that state. */
  function InState(peers: seq<Peer>, s: PeerState): set<nat> {
    set i | 0 <= i < |peers| && peers[i].state == s
  }

  lemma {:induction false} CountIsSize(peers: seq<Peer>, s: PeerState)
    ensures CountState(peers, s) == |InState(peers, s)|
  {
    hide InState, CountState;
    if peers == [] {
      NobodyInState(s);
    } else {
      var init, p := peers[..|peers| - 1], peers[|peers| - 1];
      CountIsSize(init, s);
      assert peers == init + [p];
      CountAppended(init, p, s);
      InStateAppended(init, p, s);
    }
  }

  lemma NobodyInState(s: PeerState)
    ensures CountState([], s) == 0 && InState([], s) == {}
  {}

  lemma InStateAppended(peers: seq<Peer>, p: Peer, s: PeerState)
    ensures |InState(peers + [p], s)| == |InState(peers, s)| + if p.state == s then 1 else 0
  {
    var before, after := InState(peers, s), InState(peers + [p], s);
    if p.state == s {
      assert after == before + {|peers|} && |peers| !in before;
    } else {
      assert after == before;
    }
  }

  /** Adding never takes the accepted peers over the cap. */
  lemma AddKeepsCap(adm: Adm, cfg: Config, id: string, name: Option<string>, fp: Option<string>, c: Call, seen: nat)
    requires Usable(cfg) && |InState(adm.peers, Accepted)| <= cfg.maxReceivers
    ensures |InState(Admit(adm, cfg, id, name, fp, c, seen).0.peers, Accepted)| <= cfg.maxReceivers
  {
    hide InState, Attempt, FindPeer, CountState;
    var p := NewPeer(adm.peers, cfg, id, name, fp, seen);
    CountAppended(adm.peers, p, Accepted);
    CountIsSize(adm.peers, Accepted);
    CountIsSize(Admit(adm, cfg, id, name, fp, c, seen).0.peers, Accepted);
  }

  /** An explicit accept does not look at the cap: it exceeds it exactly if the list is full and the
      peer was not accepted yet. */
  lemma AcceptExceedsCapExactly(peers: seq<Peer>, cfg: Config, id: string, pin: bool)
    requires Usable(cfg) && |InState(peers, Accepted)| <= cfg.maxReceivers
    ensures |InState(SetState(peers, id, Accepted, pin).0, Accepted)| > cfg.maxReceivers <==>
      (|InState(peers, Accepted)| == cfg.maxReceivers
       && match FindPeer(peers, id) case None => false case Some(i) => peers[i].state != Accepted)
  {
    hide InState, CountState;
    CountIsSize(peers, Accepted);
    CountIsSize(SetState(peers, id, Accepted, pin).0, Accepted);
    match FindPeer(peers, id)
    case None =>
    case Some(i) => CountReplaced(peers, i, peers[i].(state := Accepted, pinned := peers[i].pinned || pin), Accepted);
  }

  /** The settings in force: a positive one is kept, any other is 4 receivers, 10 attempts in 60 seconds, or a
      lockout of 300. */
  lemma SettingsExactly(given: Config)
    ensures var cfg := WithDefaults(given);
            && (if given.maxReceivers > 0 then cfg.maxReceivers == given.maxReceivers else cfg.maxReceivers == 4)
            && (if given.windowSeconds > 0 then cfg.windowSeconds == given.windowSeconds else cfg.windowSeconds == 60)
            && (if given.maxAttempts > 0 then cfg.maxAttempts == given.maxAttempts else cfg.maxAttempts == 10)
            && (if given.lockoutSeconds > 0 then cfg.lockoutSeconds == given.lockoutSeconds else cfg.lockoutSeconds == 300)
            && cfg.autoAcceptPinned == given.autoAcceptPinned
  {}
}

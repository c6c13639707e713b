/** The hand-off of captured frames from the graphics thread to the encoder worker (src/sender.c:74-89,
    508-527, 572-626, 750-757) as a state machine: every critical section under `frame_lock` is one
    step. The worker's private encoding, done without the lock, belongs to the step after it. */
module FrameHandoff {
  import opened Common

  datatype Frame = Frame(w: nat, h: nat, linesize: nat, bytes: seq<byte>)

  /** A capture's buffer, which is never shrunk and may be longer than the frame in it. */
  datatype Capture = Capture(buffer: seq<byte>, w: nat, h: nat, linesize: nat, ready: bool)

  predicate Whole(f: Frame) { |f.bytes| == f.linesize * f.h }

  /** A buffer, replaced if it is too small, after copying `bytes` to its start. */
  function Overwrite(buffer: seq<byte>, bytes: seq<byte>): (r: seq<byte>)
    ensures |bytes| <= |r| && r[..|bytes|] == bytes
  {
    if |buffer| < |bytes| then bytes else bytes + buffer[|bytes|..]
  }

  function Cut(buffer: seq<byte>, n: nat): seq<byte> {
    if n <= |buffer| then buffer[..n] else buffer
  }

  function Publish(c: Capture, f: Frame): Capture {
    Capture(Overwrite(c.buffer, f.bytes), f.w, f.h, f.linesize, true)
  }

  function Content(c: Capture): Frame {
    Frame(c.w, c.h, c.linesize, Cut(c.buffer, c.linesize * c.h))
  }

  /** One capture with its history: the frames produced, the positions among them the worker took,
      and the frames it encoded. */
  datatype Lane = Lane(cap: Capture, produced: seq<Frame>, taken: seq<nat>, encoded: seq<Frame>)

  function Last(lane: Lane): nat {
    if lane.produced == [] then 0 else |lane.produced| - 1
  }

  /** Where the worker is: before its critical section, waiting (perhaps already woken), encoding what it
      took from capture `i` without the lock, or gone. */
  datatype Pc = Top | Asleep(woken: bool) | Encoding(i: nat, w: nat, h: nat, linesize: nat) | Exited

  datatype Sys = Sys(lanes: seq<Lane>, running: bool, pc: Pc, local: seq<byte>)

  predicate AnyReady(lanes: seq<Lane>) {
    exists i :: 0 <= i < |lanes| && lanes[i].cap.ready
  }

  function Wake(pc: Pc): Pc {
    if pc.Asleep? then Asleep(true) else pc
  }

  function TakeFrom(s: Sys, i: nat): Sys
    requires i < |s.lanes|
  {
    var lane := s.lanes[i];
    var f := Content(lane.cap);
    s.(lanes := s.lanes[i := lane.(cap := lane.cap.(ready := false), taken := lane.taken + [Last(lane)])],
       local := Overwrite(s.local, f.bytes), pc := Encoding(i, f.w, f.h, f.linesize))
  }

  /** The rest of a pass over the captures, up to the next ready one. */
  function Scan(s: Sys, i: nat): Sys
    requires i <= |s.lanes|
    decreases |s.lanes| - i
  {
    if i == |s.lanes| then s.(pc := Top)
    else if s.lanes[i].cap.ready then TakeFrom(s, i)
    else Scan(s, i + 1)
  }

  /** What the worker does each time it gets the lock. */
  function Work(s: Sys): Sys {
    match s.pc
    case Top => Enter(s)
    case Asleep(woken) => if woken then Enter(s) else s
    case Encoding(i, w, h, linesize) =>
      if i < |s.lanes| then
        var lane := s.lanes[i];
        var done := lane.(encoded := lane.encoded + [Frame(w, h, linesize, Cut(s.local, linesize * h))]);
        Scan(s.(lanes := s.lanes[i := done]), i + 1)
      else s
    case Exited => s
  }

  function Enter(s: Sys): Sys {
    if !s.running then s.(pc := Exited)
    else if !AnyReady(s.lanes) then s.(pc := Asleep(false))
    else Scan(s, 0)
  }

  datatype Event =
    | Produce(capture: nat, frame: Frame)  // the graphics thread publishes a frame and signals
    | Worker                               // the worker gets the lock
    | Spurious                             // the wait returns without a signal
    | Stop                                 // the flag is cleared and the condition broadcast

  function PublishTo(s: Sys, i: nat, f: Frame): Sys
    requires i < |s.lanes|
  {
    var lane := s.lanes[i];
    s.(lanes := s.lanes[i := lane.(cap := Publish(lane.cap, f), produced := lane.produced + [f])])
  }

  function Next(s: Sys, e: Event): Sys {
    match e
    case Produce(i, f) =>
      if i < |s.lanes| && Whole(f) then PublishTo(s, i, f).(pc := Wake(s.pc)) else s
    case Worker => Work(s)
    case Spurious => s.(pc := Wake(s.pc))
    case Stop => s.(running := false, pc := Wake(s.pc))
  }

  function Run(s: Sys, events: seq<Event>): Sys
    decreases |events|
  {
    if events == [] then s else Next(Run(s, events[..|events| - 1]), events[|events| - 1])
  }

  function Initial(n: nat): Sys {
    Sys(seq(n, _ => Lane(Capture([], 0, 0, 0, false), [], [], [])), true, Top, [])
  }

  // ----- the invariant -----

  /** The frame in the worker's hands that it has taken from capture `i` and not yet encoded. */
  function InHand(s: Sys, i: nat): Option<Frame> {
    if s.pc.Encoding? && s.pc.i == i
    then Some(Frame(s.pc.w, s.pc.h, s.pc.linesize, Cut(s.local, s.pc.linesize * s.pc.h)))
    else None
  }

  ghost predicate Rising(taken: seq<nat>, bound: nat) {
    && (forall j, k :: 0 <= j < k < |taken| ==> taken[j] < taken[k])
    && (forall j :: 0 <= j < |taken| ==> taken[j] < bound)
  }

  /** The frames encoded, then the one in hand, are those at the taken positions. */
  ghost predicate Matches(lane: Lane, inHand: Option<Frame>) {
    && |lane.taken| == |lane.encoded| + (if inHand.Some? then 1 else 0)
    && (forall j :: 0 <= j < |lane.encoded| ==> lane.taken[j] < |lane.produced| && lane.encoded[j] == lane.produced[lane.taken[j]])
    && (inHand.Some? ==> Whole(inHand.value) && lane.taken[|lane.encoded|] < |lane.produced| && inHand.value == lane.produced[lane.taken[|lane.encoded|]])
  }

  /** The flag says whether the last frame produced is still to be taken; if so it is in the buffer. */
  ghost predicate Fresh(lane: Lane) {
    var last := |lane.produced| - 1;
    if lane.cap.ready then
      last >= 0 && Content(lane.cap) == lane.produced[last] && Whole(lane.produced[last])
      && (lane.taken != [] ==> lane.taken[|lane.taken| - 1] < last)
    else (if last < 0 then lane.taken == [] else lane.taken != [] && lane.taken[|lane.taken| - 1] == last)
  }

  ghost predicate LaneInv(lane: Lane, inHand: Option<Frame>) {
    Rising(lane.taken, |lane.produced|) && Matches(lane, inHand) && Fresh(lane)
  }

  /** Nobody sleeps over work: an unwoken worker sleeps only while nothing is ready and it is to run; and it
      leaves only when told to. */
  ghost predicate NoLostWakeup(s: Sys) {
    (s.pc == Asleep(false) ==> s.running && !AnyReady(s.lanes)) && (s.pc == Exited ==> !s.running)
  }

  ghost predicate Inv(s: Sys) {
    && (forall i :: 0 <= i < |s.lanes| ==> LaneInv(s.lanes[i], InHand(s, i)))
    && (s.pc.Encoding? ==> s.pc.i < |s.lanes|)
    && NoLostWakeup(s)
  }

  lemma PublishKeeps(lane: Lane, inHand: Option<Frame>, f: Frame)
    requires LaneInv(lane, inHand) && Whole(f)
    ensures LaneInv(lane.(cap := Publish(lane.cap, f), produced := lane.produced + [f]), inHand)
  {}

  lemma TakeKeeps(lane: Lane)
    requires LaneInv(lane, None) && lane.cap.ready
    ensures LaneInv(lane.(cap := lane.cap.(ready := false), taken := lane.taken + [Last(lane)]), Some(Content(lane.cap)))
  {}

  lemma EncodeKeeps(lane: Lane, f: Frame)
    requires LaneInv(lane, Some(f))
    ensures LaneInv(lane.(encoded := lane.encoded + [f]), None)
  {}

  /** What the worker copies out is the published frame, whatever its own buffer held before. */
  lemma CopyIsExact(c: Capture, local: seq<byte>, f: Frame)
    requires Content(c) == f && Whole(f)
    ensures Frame(f.w, f.h, f.linesize, Cut(Overwrite(local, f.bytes), f.linesize * f.h)) == f
  {
    hide Content;
  }

  lemma TakeFromKeeps(s: Sys, i: nat)
    requires i < |s.lanes| && s.lanes[i].cap.ready
    requires forall k :: 0 <= k < |s.lanes| ==> LaneInv(s.lanes[k], None)
    ensures Inv(TakeFrom(s, i))
  {
    hide Rising, Matches, Overwrite, Cut, Content;
    var lane := s.lanes[i];
    TakeKeeps(lane);
    CopyIsExact(lane.cap, s.local, Content(lane.cap));
    var s' := TakeFrom(s, i);
    assert InHand(s', i) == Some(Content(lane.cap));
  }

  lemma {:induction false} ScanKeeps(s: Sys, i: nat)
    requires i <= |s.lanes| && forall k :: 0 <= k < |s.lanes| ==> LaneInv(s.lanes[k], None)
    ensures Inv(Scan(s, i))
    decreases |s.lanes| - i
  {
    hide LaneInv, TakeFrom;
    if i < |s.lanes| {
      if s.lanes[i].cap.ready {
        TakeFromKeeps(s, i);
      } else {
        ScanKeeps(s, i + 1);
      }
    }
  }

  lemma WorkKeeps(s: Sys)
    requires Inv(s)
    ensures Inv(Work(s))
  {
    hide LaneInv, Scan;
    match s.pc
    case Encoding(i, _, _, _) =>
      var f := InHand(s, i).value;
      var lane := s.lanes[i];
      EncodeKeeps(lane, f);
      var s' := s.(lanes := s.lanes[i := lane.(encoded := lane.encoded + [f])]);
      assert forall k :: 0 <= k < |s.lanes| && k != i ==> InHand(s, k) == None;
      ScanKeeps(s', i + 1);
    case _ =>
      assert forall k :: 0 <= k < |s.lanes| ==> InHand(s, k) == None;
      ScanKeeps(s, 0);
  }

  lemma NextKeeps(s: Sys, e: Event)
    requires Inv(s)
    ensures Inv(Next(s, e))
  {
    hide LaneInv, Publish, Work;
    match e
    case Produce(i, f) =>
      if i < |s.lanes| && Whole(f) {
        PublishKeeps(s.lanes[i], InHand(s, i), f);
        assert forall k :: InHand(Next(s, e), k) == InHand(s, k);
      }
    case Worker => WorkKeeps(s);
    case _ => assert forall k :: InHand(Next(s, e), k) == InHand(s, k);
  }

  lemma {:induction false} ReachableInv(n: nat, events: seq<Event>)
    ensures Inv(Run(Initial(n), events))
    decreases |events|
  {
    hide Inv, Next;
    if events == [] {
      InitialInv(n);
    } else {
      ReachableInv(n, events[..|events| - 1]);
      NextKeeps(Run(Initial(n), events[..|events| - 1]), events[|events| - 1]);
    }
  }

  lemma InitialInv(n: nat)
    ensures Inv(Initial(n))
  {}

  /** In every run, what the worker copies and what it encodes lies within its buffer. */
  lemma ReadsStayInBuffers(n: nat, events: seq<Event>, i: nat)
    requires i < |Run(Initial(n), events).lanes|
    ensures var s := Run(Initial(n), events);
            && (s.lanes[i].cap.ready ==> s.lanes[i].cap.linesize * s.lanes[i].cap.h <= |s.lanes[i].cap.buffer|)
            && (s.pc.Encoding? ==> s.pc.linesize * s.pc.h <= |s.local|)
  {
    hide Run, Inv;
    ReachableInv(n, events);
    InBuffers(Run(Initial(n), events), i);
  }

  lemma InBuffers(s: Sys, i: nat)
    requires Inv(s)
    ensures i < |s.lanes| && s.lanes[i].cap.ready ==> s.lanes[i].cap.linesize * s.lanes[i].cap.h <= |s.lanes[i].cap.buffer|
    ensures s.pc.Encoding? ==> s.pc.linesize * s.pc.h <= |s.local|
  {
    if s.pc.Encoding? {
      assert LaneInv(s.lanes[s.pc.i], InHand(s, s.pc.i));
    }
  }

  // ----- what the encoder sees -----

  /** The frames published for capture `i`, by the events alone. */
  function Published(events: seq<Event>, i: nat): seq<Frame> {
    if events == [] then []
    else
      var e := events[|events| - 1];
      Published(events[..|events| - 1], i) + if e.Produce? && e.capture == i && Whole(e.frame) then [e.frame] else []
  }

  /** After any publication of a whole frame, in any state, the buffer holds it and the flag is up, a sleeping
      worker is woken, and nothing else changes. */
  lemma PublicationShows(s: Sys, i: nat, f: Frame)
    requires i < |s.lanes| && Whole(f)
    ensures var s' := Next(s, Produce(i, f));
            && |s'.lanes| == |s.lanes| && Content(s'.lanes[i].cap) == f && s'.lanes[i].cap.ready
            && s'.lanes[i].taken == s.lanes[i].taken && s'.lanes[i].encoded == s.lanes[i].encoded
            && (forall k :: 0 <= k < |s.lanes| && k != i ==> s'.lanes[k] == s.lanes[k])
            && (s'.pc == if s.pc.Asleep? then Asleep(true) else s.pc) && s'.running == s.running && s'.local == s.local
  {}

  lemma {:induction false} ScanKeepsProduced(s: Sys, i: nat)
    requires i <= |s.lanes|
    ensures |Scan(s, i).lanes| == |s.lanes| && forall k :: 0 <= k < |s.lanes| ==> Scan(s, i).lanes[k].produced == s.lanes[k].produced
    decreases |s.lanes| - i
  {
    hide Overwrite, Content;
    if i < |s.lanes| && !s.lanes[i].cap.ready {
      ScanKeepsProduced(s, i + 1);
    }
  }

  lemma WorkKeepsProduced(s: Sys)
    ensures |Work(s).lanes| == |s.lanes| && forall k :: 0 <= k < |s.lanes| ==> Work(s).lanes[k].produced == s.lanes[k].produced
  {
    hide Scan, Cut;
    ScanKeepsProduced(s, 0);
    if s.pc.Encoding? && s.pc.i < |s.lanes| {
      var i := s.pc.i;
      var lane := s.lanes[i];
      var done := lane.(encoded := lane.encoded + [Frame(s.pc.w, s.pc.h, s.pc.linesize, Cut(s.local, s.pc.linesize * s.pc.h))]);
      ScanKeepsProduced(s.(lanes := s.lanes[i := done]), i + 1);
    }
  }

  /** The history of every capture is that of the events. */
  lemma {:induction false} ProducedIsPublished(n: nat, events: seq<Event>)
    ensures var lanes := Run(Initial(n), events).lanes;
            |lanes| == n && forall i :: 0 <= i < n ==> lanes[i].produced == Published(events, i)
    decreases |events|
  {
    hide Work, Publish;
    if events != [] {
      ProducedIsPublished(n, events[..|events| - 1]);
      WorkKeepsProduced(Run(Initial(n), events[..|events| - 1]));
    }
  }

  /** Main result: in every run the frames encoded for a capture are, whole and with their own sizes, a
      strictly increasing selection of all those published for it; and whenever its flag is down after
      something was published, the last frame taken is the last published. */
  lemma EncodedFramesAreASelection(n: nat, events: seq<Event>, i: nat)
    requires i < n
    ensures i < |Run(Initial(n), events).lanes|
    ensures var lane, published := Run(Initial(n), events).lanes[i], Published(events, i);
            && Rising(lane.taken, |published|) && |lane.encoded| <= |lane.taken| <= |lane.encoded| + 1
            && (forall j :: 0 <= j < |lane.encoded| ==> lane.encoded[j] == published[lane.taken[j]])
            && (published != [] && !lane.cap.ready ==> lane.taken != [] && lane.taken[|lane.taken| - 1] == |published| - 1)
            && (lane.cap.ready ==> published != [] && Content(lane.cap) == published[|published| - 1])
  {
    hide Run, Content, Published;
    ReachableInv(n, events);
    ProducedIsPublished(n, events);
  }

  /** In every run, a sleeping worker with a ready frame or a cleared flag has been woken. */
  lemma SleeperIsWoken(n: nat, events: seq<Event>)
    ensures var s := Run(Initial(n), events);
            s.pc.Asleep? && (AnyReady(s.lanes) || !s.running) ==> s.pc.woken
  {
    hide Run, LaneInv;
    ReachableInv(n, events);
  }

  // ----- progress -----

  /** How many more times the worker takes the lock once it is told to stop: for the captures left in its
      pass, and to see the flag. */
  function StepsToExit(s: Sys): nat {
    match s.pc
    case Exited => 0
    case Encoding(i, _, _, _) => if i < |s.lanes| then |s.lanes| - i + 1 else 1
    case _ => 1
  }

  function WorkerSteps(events: seq<Event>): nat
    decreases |events|
  {
    if events == [] then 0
    else WorkerSteps(events[..|events| - 1]) + if events[|events| - 1].Worker? then 1 else 0
  }

  lemma {:induction false} ScanMovesOn(s: Sys, i: nat)
    requires i <= |s.lanes|
    ensures var s' := Scan(s, i);
            && s'.running == s.running && |s'.lanes| == |s.lanes|
            && (s'.pc == Top || (s'.pc.Encoding? && i <= s'.pc.i < |s.lanes|))
    decreases |s.lanes| - i
  {
    if i < |s.lanes| && !s.lanes[i].cap.ready {
      ScanMovesOn(s, i + 1);
    }
  }

  lemma StopMovesOn(s: Sys, e: Event)
    requires Inv(s) && !s.running
    ensures var s' := Next(s, e);
            && !s'.running
            && (if e.Worker? && StepsToExit(s) > 0 then StepsToExit(s') < StepsToExit(s) else StepsToExit(s') <= StepsToExit(s))
  {
    hide LaneInv, Scan, Publish;
    if e.Worker? && s.pc.Encoding? {
      var lane := s.lanes[s.pc.i];
      var f := InHand(s, s.pc.i).value;
      ScanMovesOn(s.(lanes := s.lanes[s.pc.i := lane.(encoded := lane.encoded + [f])]), s.pc.i + 1);
    }
  }

  /** Main result: once the flag is cleared, the worker is gone after it has had the lock for the rest of
      its current pass and once more, whatever else happens. */
  lemma {:induction false} StopIsBounded(s: Sys, events: seq<Event>)
    requires Inv(s) && !s.running
    ensures var s' := Run(s, events);
            !s'.running && Inv(s') && (s'.pc == Exited || StepsToExit(s') + WorkerSteps(events) <= StepsToExit(s))
    ensures WorkerSteps(events) >= StepsToExit(s) ==> Run(s, events).pc == Exited
    decreases |events|
  {
    hide Inv, Next;
    if events != [] {
      var before, e := events[..|events| - 1], events[|events| - 1];
      StopIsBounded(s, before);
      StopMovesOn(Run(s, before), e);
      NextKeeps(Run(s, before), e);
      GoneStaysGone(Run(s, before), e);
    }
  }

  /** A stop clears the flag, and nothing else does; the worker is there until then. */
  lemma {:induction false} RunsUntilStopped(n: nat, events: seq<Event>)
    ensures Run(Initial(n), events).running <==> forall i :: 0 <= i < |events| ==> !events[i].Stop?
    ensures Run(Initial(n), events).running ==> Run(Initial(n), events).pc != Exited
    decreases |events|
  {
    hide Inv, Work, Publish;
    ReachableInv(n, events);
    InvKeepsWorker(Run(Initial(n), events));
    if events != [] {
      var before, e := events[..|events| - 1], events[|events| - 1];
      RunsUntilStopped(n, before);
      WorkKeepsRunning(Run(Initial(n), before));
    }
  }

  lemma InvKeepsWorker(s: Sys)
    requires Inv(s)
    ensures s.pc == Exited ==> !s.running
  {}

  lemma WorkKeepsRunning(s: Sys)
    ensures Work(s).running == s.running
  {
    hide Scan, Cut;
    ScanMovesOn(s, 0);
    if s.pc.Encoding? && s.pc.i < |s.lanes| {
      var i := s.pc.i;
      var lane := s.lanes[i];
      var done := lane.(encoded := lane.encoded + [Frame(s.pc.w, s.pc.h, s.pc.linesize, Cut(s.local, s.pc.linesize * s.pc.h))]);
      ScanMovesOn(s.(lanes := s.lanes[i := done]), i + 1);
    }
  }

  lemma {:induction false} RunSplit(s: Sys, a: seq<Event>, b: seq<Event>)
    ensures Run(s, a + b) == Run(Run(s, a), b)
    decreases |b|
  {
    hide Next;
    if b == [] {
      assert a + b == a;
    } else {
      RunSplit(s, a, b[..|b| - 1]);
      assert (a + b)[..|a + b| - 1] == a + b[..|b| - 1];
    }
  }

  /** So in every run with a stop in it, the worker is gone after it has had the lock once for each capture and
      once more, whatever happens meanwhile. */
  lemma GoneAfterStop(n: nat, before: seq<Event>, after: seq<Event>)
    requires WorkerSteps(after) > n
    ensures Run(Initial(n), before + [Stop] + after).pc == Exited
  {
    hide Run, Inv, StepsToExit;
    ReachableInv(n, before + [Stop]);
    RunsUntilStopped(n, before + [Stop]);
    assert (before + [Stop])[|before|] == Stop;
    ProducedIsPublished(n, before + [Stop]);
    RunSplit(Initial(n), before + [Stop], after);
    var s := Run(Initial(n), before + [Stop]);
    StepsAreFew(s);
    StopIsBounded(s, after);
  }

  lemma StepsAreFew(s: Sys)
    ensures StepsToExit(s) <= |s.lanes| + 1
  {}

  lemma GoneStaysGone(s: Sys, e: Event)
    ensures s.pc == Exited ==> Next(s, e).pc == Exited
  {}

  /** How many more times the worker takes the lock until it comes to a ready capture `k`. */
  function Turns(s: Sys, k: nat): int {
    match s.pc
    case Encoding(i, _, _, _) => if i < k then k - i else |s.lanes| - i + k + 1
    case _ => k + 1
  }

  lemma {:induction false} ScanReaches(s: Sys, i: nat, k: nat)
    requires i <= |s.lanes| && k < |s.lanes| && s.lanes[k].cap.ready
    ensures var s' := Scan(s, i);
            && |s'.lanes| == |s.lanes|
            && (if s'.pc.Encoding? && s'.pc.i == k
                then s'.lanes[k].taken == s.lanes[k].taken + [Last(s.lanes[k])]
                else s'.lanes[k] == s.lanes[k])
            && (i <= k ==> s'.pc.Encoding? && i <= s'.pc.i <= k)
    decreases |s.lanes| - i
  {
    hide Overwrite, Content;
    if i < |s.lanes| && !s.lanes[i].cap.ready {
      ScanReaches(s, i + 1, k);
    }
  }

  /** The frame that was ready, or a newer one, has been taken from the capture. */
  predicate Served(before: Lane, after: Lane) {
    |after.taken| > |before.taken| && after.taken[|before.taken|] >= Last(before)
  }

  predicate Waits(before: Lane, after: Lane) {
    after.taken == before.taken && after.cap.ready && Last(after) >= Last(before)
  }

  lemma WorkServes(s: Sys, k: nat)
    requires Inv(s) && s.running && k < |s.lanes| && s.lanes[k].cap.ready
    ensures var s' := Work(s);
            && s'.running && |s'.lanes| == |s.lanes|
            && (Served(s.lanes[k], s'.lanes[k])
                || (Waits(s.lanes[k], s'.lanes[k]) && Turns(s', k) < Turns(s, k)))
  {
    hide LaneInv, Scan;
    if s.pc.Encoding? {
      var lane := s.lanes[s.pc.i];
      var s1 := s.(lanes := s.lanes[s.pc.i := lane.(encoded := lane.encoded + [InHand(s, s.pc.i).value])]);
      ScanMovesOn(s1, s.pc.i + 1);
      ScanReaches(s1, s.pc.i + 1, k);
    } else {
      ScanMovesOn(s, 0);
      ScanReaches(s, 0, k);
    }
  }

  lemma NextServes(s: Sys, e: Event, k: nat)
    requires Inv(s) && s.running && k < |s.lanes| && s.lanes[k].cap.ready && !e.Stop?
    ensures var s' := Next(s, e);
            && s'.running && |s'.lanes| == |s.lanes|
            && (Served(s.lanes[k], s'.lanes[k])
                || (Waits(s.lanes[k], s'.lanes[k]) && Turns(s', k) + (if e.Worker? then 1 else 0) <= Turns(s, k)))
  {
    hide Inv, Work, Publish;
    if e.Worker? {
      WorkServes(s, k);
    } else if e.Produce? {
      PublishReadies(s.lanes[k].cap, e.frame);
    }
  }

  lemma PublishReadies(c: Capture, f: Frame)
    ensures Publish(c, f).ready
  {}

  lemma TakenGrows(s: Sys, e: Event, k: nat)
    requires Inv(s) && k < |s.lanes|
    ensures var s' := Next(s, e); |s'.lanes| == |s.lanes| && s.lanes[k].taken <= s'.lanes[k].taken
  {
    hide Publish, LaneInv, Scan;
    if e.Worker? && s.pc.Encoding? {
      var lane := s.lanes[s.pc.i];
      ScanTakes(s.(lanes := s.lanes[s.pc.i := lane.(encoded := lane.encoded + [InHand(s, s.pc.i).value])]), s.pc.i + 1, k);
    } else if e.Worker? {
      ScanTakes(s, 0, k);
    }
  }

  lemma {:induction false} ScanTakes(s: Sys, i: nat, k: nat)
    requires i <= |s.lanes| && k < |s.lanes|
    ensures var s' := Scan(s, i); |s'.lanes| == |s.lanes| && s.lanes[k].taken <= s'.lanes[k].taken
    decreases |s.lanes| - i
  {
    hide Overwrite, Content;
    if i < |s.lanes| && !s.lanes[i].cap.ready {
      ScanTakes(s, i + 1, k);
    }
  }

  /** Main result: while it runs, the worker takes a ready frame, or a newer one of the same capture, by the
      time it has had the lock as often as there are captures, and once more. */
  lemma {:induction false} ReadyFramesAreTaken(s: Sys, events: seq<Event>, k: nat)
    requires Inv(s) && s.running && k < |s.lanes| && s.lanes[k].cap.ready
    requires forall i :: 0 <= i < |events| ==> !events[i].Stop?
    ensures var s' := Run(s, events);
            && Inv(s') && s'.running && |s'.lanes| == |s.lanes|
            && (Served(s.lanes[k], s'.lanes[k])
                || (Waits(s.lanes[k], s'.lanes[k]) && Turns(s', k) + WorkerSteps(events) <= Turns(s, k)))
    ensures WorkerSteps(events) > |s.lanes| ==> Served(s.lanes[k], Run(s, events).lanes[k])
    decreases |events|
  {
    hide Inv, Next, Served;
    TurnsBounds(s, k);
    if events == [] {
      WaitsAtOnce(s.lanes[k]);
    } else {
      var before, e := events[..|events| - 1], events[|events| - 1];
      ReadyFramesAreTaken(s, before, k);
      var s1 := Run(s, before);
      NextKeeps(s1, e);
      StillRuns(s1, e);
      TakenGrows(s1, e, k);
      TurnsBounds(Next(s1, e), k);
      if Served(s.lanes[k], s1.lanes[k]) {
        ServedStays(s.lanes[k], s1.lanes[k], Next(s1, e).lanes[k]);
      } else {
        NextServes(s1, e, k);
        ServedLater(s.lanes[k], s1.lanes[k], Next(s1, e).lanes[k]);
      }
    }
  }

  lemma TurnsBounds(s: Sys, k: nat)
    requires Inv(s) && k < |s.lanes|
    ensures 1 <= Turns(s, k) <= |s.lanes| + 1
  {
    hide LaneInv;
  }

  lemma StillRuns(s: Sys, e: Event)
    requires Inv(s) && s.running && !e.Stop?
    ensures Next(s, e).running
  {
    hide LaneInv, Scan, Publish;
    if s.pc.Encoding? {
      var lane := s.lanes[s.pc.i];
      ScanMovesOn(s.(lanes := s.lanes[s.pc.i := lane.(encoded := lane.encoded + [InHand(s, s.pc.i).value])]), s.pc.i + 1);
    } else {
      ScanMovesOn(s, 0);
    }
  }

  lemma WaitsAtOnce(lane: Lane)
    ensures lane.cap.ready ==> Waits(lane, lane)
  {}

  lemma ServedStays(a: Lane, b: Lane, c: Lane)
    ensures Served(a, b) && b.taken <= c.taken ==> Served(a, c)
  {}

  lemma ServedLater(a: Lane, b: Lane, c: Lane)
    ensures Waits(a, b) && Served(b, c) ==> Served(a, c)
    ensures Waits(a, b) && Waits(b, c) ==> Waits(a, c)
  {}
}

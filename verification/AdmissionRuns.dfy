/** What the sender's limiter guarantees over whole runs of calls. */
module AdmissionRuns {
  import opened Common
  import opened Admission

  // ----- the limiter against the full history -----

  /** The ledger, every attempt ever recorded and the clock reading of every lockout, in order. */
  datatype History = History(ledger: Ledger, recorded: seq<nat>, lockouts: seq<nat>)

  const START := History(Ledger([], 0), [], [])

  function Step(h: History, cfg: Config, c: Call): History
    requires Usable(cfg)
  {
    var (l, blocked) := Attempt(h.ledger, cfg, c);
    History(l,
            if blocked then h.recorded else h.recorded + [c.stamp],
            if blocked && h.ledger.lockoutUntil <= c.lockoutCheck then h.lockouts + [c.lockoutCheck] else h.lockouts)
  }

  function Run(h: History, cfg: Config, calls: seq<Call>): History
    requires Usable(cfg)
    decreases |calls|
  {
    if calls == [] then h else Step(Run(h, cfg, calls[..|calls| - 1]), cfg, calls[|calls| - 1])
  }

  /** The readings of one call on a clock that never goes back, has passed the window's length and is
      a lockout away from wrapping around. */
  predicate Ticks(cfg: Config, from: nat, c: Call)
    requires Usable(cfg)
  {
    from <= c.lockoutCheck <= c.windowCheck <= c.stamp && Window(cfg) <= c.windowCheck && c.stamp + Lockout(cfg) < U64
  }

  /** All the readings of a run, in order. */
  predicate Clocked(cfg: Config, from: nat, calls: seq<Call>)
    requires Usable(cfg)
    decreases |calls|
  {
    calls == [] || (Ticks(cfg, Last(from, calls[..|calls| - 1]), calls[|calls| - 1]) && Clocked(cfg, from, calls[..|calls| - 1]))
  }

  function Last(from: nat, calls: seq<Call>): nat {
    if calls == [] then from else calls[|calls| - 1].stamp
  }

  /** No `max + 1` attempts lie within one window. */
  ghost predicate Spaced(recorded: seq<nat>, window: nat, max: int) {
    0 < max && forall i, j :: 0 <= i && i + max <= j < |recorded| ==> recorded[i] + window < recorded[j]
  }

  /** The list is a tail of the history, and everything before it has left the window at `now`. */
  ghost predicate Tail(attempts: seq<nat>, recorded: seq<nat>, window: nat, now: nat) {
    && |attempts| <= |recorded| && attempts == recorded[|recorded| - |attempts|..]
    && forall i :: 0 <= i < |recorded| - |attempts| ==> recorded[i] + window < now
  }

  ghost predicate Agrees(h: History, cfg: Config, now: nat)
    requires Usable(cfg)
  {
    && Sorted(h.recorded) && (forall i :: 0 <= i < |h.recorded| ==> h.recorded[i] <= now)
    && |h.ledger.attempts| <= cfg.maxAttempts
    && Tail(h.ledger.attempts, h.recorded, Window(cfg), now)
    && Spaced(h.recorded, Window(cfg), cfg.maxAttempts)
  }

  lemma CutoffOnClock(cfg: Config, now: nat)
    requires Usable(cfg) && Window(cfg) <= now < U64
    ensures Cutoff(cfg, now) == now - Window(cfg)
  {}

  /** The attempts of the history that are in the window are those that pruning keeps. */
  lemma PruneAgrees(attempts: seq<nat>, recorded: seq<nat>, window: nat, now: nat, check: nat)
    requires Tail(attempts, recorded, window, now) && Sorted(recorded) && now <= check && window <= check
    ensures var kept := Prune(attempts, check - window);
            && Tail(kept, recorded, window, check) && |kept| <= |attempts|
            && forall i :: |recorded| - |kept| <= i < |recorded| ==> recorded[i] + window >= check
  {
    var k := KeepFrom(attempts, check - window);
    var d := |recorded| - |attempts|;
    assert recorded[d..][k..] == recorded[d + k..];
    forall i | 0 <= i < d + k ensures recorded[i] + window < check {
      if d <= i {
        assert attempts[i - d] < check - window;
      }
    }
    if k < |attempts| {
      assert recorded[d + k] == attempts[k];
    }
  }

  lemma RecordKeepsTail(kept: seq<nat>, recorded: seq<nat>, window: nat, check: nat, stamp: nat)
    requires Tail(kept, recorded, window, check) && check <= stamp
    ensures Tail(kept + [stamp], recorded + [stamp], window, stamp)
  {}

  lemma RecordKeepsSpaced(kept: seq<nat>, recorded: seq<nat>, window: nat, max: int, check: nat, stamp: nat)
    requires Tail(kept, recorded, window, check) && check <= stamp && Spaced(recorded, window, max) && |kept| < max
    ensures Spaced(recorded + [stamp], window, max)
  {}

  /** One call keeps the agreement. */
  lemma StepAgrees(h: History, cfg: Config, now: nat, c: Call)
    requires Usable(cfg) && Agrees(h, cfg, now) && Ticks(cfg, now, c)
    ensures Agrees(Step(h, cfg, c), cfg, c.stamp)
  {
    hide Cutoff, Prune, Tail, Spaced;
    LaterTail(h.ledger.attempts, h.recorded, Window(cfg), now, c.stamp);
    if h.ledger.lockoutUntil <= c.lockoutCheck {
      CutoffOnClock(cfg, c.windowCheck);
      PruneAgrees(h.ledger.attempts, h.recorded, Window(cfg), now, c.windowCheck);
      var kept := Prune(h.ledger.attempts, c.windowCheck - Window(cfg));
      LaterTail(kept, h.recorded, Window(cfg), c.windowCheck, c.stamp);
      if |kept| < cfg.maxAttempts {
        RecordKeepsTail(kept, h.recorded, Window(cfg), c.windowCheck, c.stamp);
        RecordKeepsSpaced(kept, h.recorded, Window(cfg), cfg.maxAttempts, c.windowCheck, c.stamp);
      }
    }
  }

  lemma LaterTail(attempts: seq<nat>, recorded: seq<nat>, window: nat, now: nat, later: nat)
    requires Tail(attempts, recorded, window, now) && now <= later
    ensures Tail(attempts, recorded, window, later)
  {}

  lemma {:induction false} RunAgrees(cfg: Config, from: nat, calls: seq<Call>)
    requires Usable(cfg) && Clocked(cfg, from, calls)
    ensures Agrees(Run(START, cfg, calls), cfg, Last(from, calls))
    decreases |calls|
  {
    if calls != [] {
      RunAgrees(cfg, from, calls[..|calls| - 1]);
      StepAgrees(Run(START, cfg, calls[..|calls| - 1]), cfg, Last(from, calls[..|calls| - 1]), calls[|calls| - 1]);
    }
  }

  function Within(recorded: seq<nat>, a: nat, b: nat): set<nat> {
    set i | 0 <= i < |recorded| && a <= recorded[i] <= b
  }

  /** Main result: in every run, any closed interval of the window's length holds at most the allowed
      number of recorded attempts. */
  lemma SlidingWindow(cfg: Config, from: nat, calls: seq<Call>, a: nat)
    requires Usable(cfg) && Clocked(cfg, from, calls)
    ensures |Within(Run(START, cfg, calls).recorded, a, a + Window(cfg))| <= cfg.maxAttempts
  {
    hide Run, Tail, Clocked;
    RunAgrees(cfg, from, calls);
    SpacedMeansFew(Run(START, cfg, calls).recorded, Window(cfg), cfg.maxAttempts, a);
  }

  lemma SpacedMeansFew(recorded: seq<nat>, window: nat, max: int, a: nat)
    requires Spaced(recorded, window, max)
    ensures |Within(recorded, a, a + window)| <= max
  {
    var inside := Within(recorded, a, a + window);
    if inside != {} {
      var lo := Least(inside);
      assert inside <= Range(lo, max);
      RangeSize(lo, max);
      SubsetSize(inside, Range(lo, max));
    }
  }

  lemma {:induction false} Least(s: set<nat>) returns (m: nat)
    requires s != {}
    ensures m in s && forall i :: i in s ==> m <= i
    decreases |s|
  {
    var x :| x in s;
    m := x;
    var rest := s - {x};
    assert forall i :: i in s ==> i == x || i in rest;
    if rest != {} {
      var least := Least(rest);
      m := if least < x then least else x;
    }
  }

  /** The small list decides as the full history would: a call is recorded exactly if no lockout is
      running and fewer than the allowed number of all attempts ever made are in the window. */
  lemma RecordedExactly(h: History, cfg: Config, now: nat, c: Call)
    requires Usable(cfg) && Agrees(h, cfg, now) && Ticks(cfg, now, c)
    ensures Step(h, cfg, c).recorded != h.recorded <==>
      (h.ledger.lockoutUntil <= c.lockoutCheck
       && |Within(h.recorded, c.windowCheck - Window(cfg), c.windowCheck)| < cfg.maxAttempts)
  {
    hide Cutoff, Prune, Tail, Spaced, Within;
    CutoffOnClock(cfg, c.windowCheck);
    InWindow(h.ledger.attempts, h.recorded, Window(cfg), now, c.windowCheck);
  }

  lemma InWindow(attempts: seq<nat>, recorded: seq<nat>, window: nat, now: nat, check: nat)
    requires Tail(attempts, recorded, window, now) && Sorted(recorded) && now <= check && window <= check
    requires forall i :: 0 <= i < |recorded| ==> recorded[i] <= now
    ensures |Within(recorded, check - window, check)| == |Prune(attempts, check - window)|
  {
    hide Prune;
    PruneAgrees(attempts, recorded, window, now, check);
    var kept := Prune(attempts, check - window);
    var d := |recorded| - |kept|;
    assert Within(recorded, check - window, check) == Range(d, |kept|);
    RangeSize(d, |kept|);
  }

  /** Prefix pruning is filtering by the cutoff: on a clock past the window's length it keeps exactly
      the attempts of the window; before that the subtraction wraps around and everything is
      dropped, so it is right only on an empty list. */
  lemma PruneExactly(attempts: seq<nat>, cfg: Config, now: nat)
    requires Usable(cfg) && Sorted(attempts) && now < U64 && forall i :: 0 <= i < |attempts| ==> attempts[i] <= now
    ensures Prune(attempts, Cutoff(cfg, now)) == Filter(attempts, now - Window(cfg)) <==> Window(cfg) <= now || attempts == []
  {
    hide Prune, Filter, Cutoff;
    if Window(cfg) <= now {
      CutoffOnClock(cfg, now);
      PrefixIsFilter(attempts, now - Window(cfg));
    } else {
      CutoffWraps(cfg, now);
      PruneDropsAll(attempts, Cutoff(cfg, now));
      FilterKeepsAll(attempts, now - Window(cfg));
    }
  }

  lemma CutoffWraps(cfg: Config, now: nat)
    requires Usable(cfg) && now < Window(cfg)
    ensures Cutoff(cfg, now) == now - Window(cfg) + U64 > now
  {}

  lemma PruneDropsAll(attempts: seq<nat>, cutoff: nat)
    requires forall i :: 0 <= i < |attempts| ==> attempts[i] < cutoff
    ensures Prune(attempts, cutoff) == []
  {}

  function Filter(attempts: seq<nat>, cutoff: int): seq<nat> {
    if attempts == [] then [] else (if attempts[0] >= cutoff then [attempts[0]] else []) + Filter(attempts[1..], cutoff)
  }

  lemma {:induction false} FilterKeepsAll(attempts: seq<nat>, cutoff: int)
    requires forall i :: 0 <= i < |attempts| ==> attempts[i] >= cutoff
    ensures Filter(attempts, cutoff) == attempts
  {
    if attempts != [] {
      FilterKeepsAll(attempts[1..], cutoff);
    }
  }

  lemma {:induction false} PrefixIsFilter(attempts: seq<nat>, cutoff: nat)
    requires Sorted(attempts)
    ensures Prune(attempts, cutoff) == Filter(attempts, cutoff)
  {
    if attempts != [] {
      if attempts[0] >= cutoff {
        FilterKeepsAll(attempts, cutoff);
      } else {
        PrefixIsFilter(attempts[1..], cutoff);
      }
    }
  }

  // ----- lockouts -----

  /** Nothing is recorded before a lockout has run out, however many calls are made. */
  lemma {:induction false} LockoutHolds(h: History, cfg: Config, from: nat, calls: seq<Call>)
    requires Usable(cfg) && Clocked(cfg, from, calls)
    ensures var end := Run(h, cfg, calls);
            && h.ledger.lockoutUntil <= end.ledger.lockoutUntil && h.recorded <= end.recorded
            && forall i :: |h.recorded| <= i < |end.recorded| ==> end.recorded[i] >= h.ledger.lockoutUntil
    decreases |calls|
  {
    hide Step, Ticks;
    if calls != [] {
      LockoutHolds(h, cfg, from, calls[..|calls| - 1]);
      StepHoldsLockout(Run(h, cfg, calls[..|calls| - 1]), cfg, Last(from, calls[..|calls| - 1]), calls[|calls| - 1]);
    }
  }

  lemma StepHoldsLockout(h: History, cfg: Config, now: nat, c: Call)
    requires Usable(cfg) && Ticks(cfg, now, c)
    ensures var h' := Step(h, cfg, c);
            && h.ledger.lockoutUntil <= h'.ledger.lockoutUntil && h.recorded <= h'.recorded
            && forall i :: |h.recorded| <= i < |h'.recorded| ==> h'.recorded[i] >= h.ledger.lockoutUntil
  {
    hide Cutoff, Prune;
  }

  /** A lockout taken at `n` runs until `n + L`. */
  lemma LockoutLength(h: History, cfg: Config, now: nat, c: Call)
    requires Usable(cfg) && Ticks(cfg, now, c) && Step(h, cfg, c).lockouts != h.lockouts
    ensures Step(h, cfg, c).ledger.lockoutUntil == c.lockoutCheck + Lockout(cfg)
  {}

  /** So after a lockout at `n`, whatever calls are made, nothing is recorded before `n + L`. */
  lemma NothingDuringLockout(h: History, cfg: Config, now: nat, c: Call, calls: seq<Call>, i: nat)
    requires Usable(cfg) && Ticks(cfg, now, c) && Step(h, cfg, c).lockouts != h.lockouts && Clocked(cfg, c.stamp, calls)
    requires |h.recorded| <= i < |Run(Step(h, cfg, c), cfg, calls).recorded|
    ensures Run(Step(h, cfg, c), cfg, calls).recorded[i] >= c.lockoutCheck + Lockout(cfg)
  {
    hide Run, Clocked, Ticks;
    LockoutLength(h, cfg, now, c);
    LockoutHolds(Step(h, cfg, c), cfg, c.stamp, calls);
  }

  /** Calls during a lockout change nothing. */
  lemma {:induction false} LockedOutCallsAreInert(h: History, cfg: Config, calls: seq<Call>)
    requires Usable(cfg) && forall i :: 0 <= i < |calls| ==> calls[i].lockoutCheck < h.ledger.lockoutUntil
    ensures Run(h, cfg, calls) == h
    decreases |calls|
  {
    if calls != [] {
      LockedOutCallsAreInert(h, cfg, calls[..|calls| - 1]);
    }
  }

  /** Progress: when the lockout is longer than the window, the first call after it is recorded. */
  lemma FirstCallAfterLockout(h: History, cfg: Config, now: nat, c: Call, calls: seq<Call>, d: Call)
    requires Usable(cfg) && Lockout(cfg) > Window(cfg)
    requires Agrees(h, cfg, now) && Ticks(cfg, now, c) && Step(h, cfg, c).lockouts != h.lockouts
    requires forall i :: 0 <= i < |calls| ==> calls[i].lockoutCheck < c.lockoutCheck + Lockout(cfg)
    requires c.lockoutCheck + Lockout(cfg) <= d.lockoutCheck && Ticks(cfg, c.stamp, d)
    ensures var locked := Run(Step(h, cfg, c), cfg, calls); Step(locked, cfg, d).recorded == locked.recorded + [d.stamp]
  {
    var locked := Step(h, cfg, c);
    LockoutLength(h, cfg, now, c);
    LockedOutCallsAreInert(locked, cfg, calls);
    StepAgrees(h, cfg, now, c);
    RecordedExactly(locked, cfg, c.stamp, d);
    assert locked.recorded == h.recorded;
    assert Within(locked.recorded, d.windowCheck - Window(cfg), d.windowCheck) == {};
  }
}

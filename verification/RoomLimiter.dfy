/** The room's rate limiter (backend/src/room.ts:322-331): a list of recent failures that is filtered
    at each failure and emptied at each lockout, against the history of all failures. */
module RoomLimiter {
  import opened Common

  /** Window, number of failures that locks out, and length of a lockout; times in milliseconds. */
  datatype Limits = Limits(window: int, max: int, lockout: nat)

  datatype Limiter = Limiter(attempts: seq<int>, lockedOutUntil: int)

  function Recent(attempts: seq<int>, now: int, window: int): seq<int> {
    if attempts == [] then []
    else
      var last := attempts[|attempts| - 1];
      Recent(attempts[..|attempts| - 1], now, window) + if now - last < window then [last] else []
  }

  /** One failure. */
  function Record(l: Limiter, lim: Limits, now: int): Limiter {
    var attempts := Recent(l.attempts, now, lim.window) + [now];
    if |attempts| >= lim.max then Limiter([], now + lim.lockout) else Limiter(attempts, l.lockedOutUntil)
  }

  method RecordAttempt(l: Limiter, lim: Limits, now: int) returns (r: Limiter)
    ensures r == Record(l, lim, now)
  {
    var kept := [];
    for i := 0 to |l.attempts|
      invariant kept == Recent(l.attempts[..i], now, lim.window)
    {
      assert l.attempts[..i + 1][..i] == l.attempts[..i];
      if now - l.attempts[i] < lim.window {
        kept := kept + [l.attempts[i]];
      }
    }
    assert l.attempts[..|l.attempts|] == l.attempts;
    kept := kept + [now];
    r := l.(attempts := kept);
    if |kept| >= lim.max {
      r := Limiter([], now + lim.lockout);
    }
  }

  const START := Limiter([], 0)

  /** The limiter after all the failures of a history. */
  function After(failures: seq<int>, lim: Limits): Limiter {
    if failures == [] then START
    else Record(After(failures[..|failures| - 1], lim), lim, failures[|failures| - 1])
  }

  lemma AfterAppended(failures: seq<int>, now: int, lim: Limits)
    ensures After(failures + [now], lim) == Record(After(failures, lim), lim, now)
  {
    hide Record;
    assert (failures + [now])[..|failures|] == failures;
  }

  // ----- the reference, over the whole history -----

  /** The failures from index `base` up to, not including, `end` that are in the window at `now`. */
  function InWindow(failures: seq<int>, base: nat, end: nat, now: int, window: int): set<nat> {
    set i | base <= i < |failures| && i < end && now - failures[i] < window
  }

  /** The last failure locks out: with the earlier ones since the previous lockout that are still in
      the window it reaches the maximum. */
  predicate Fires(failures: seq<int>, lim: Limits)
    decreases |failures|, 1
  {
    failures != []
    && var n := |failures| - 1;
       |InWindow(failures, Base(failures[..n], lim), n, failures[n], lim.window)| + 1 >= lim.max
  }

  /** The index of the first failure after the last lockout. */
  function Base(failures: seq<int>, lim: Limits): (r: nat)
    ensures r <= |failures|
    decreases |failures|, 2
  {
    if failures == [] then 0
    else if Fires(failures, lim) then |failures|
    else Base(failures[..|failures| - 1], lim)
  }

  /** The end of the last lockout, 0 before the first. */
  function Until(failures: seq<int>, lim: Limits): int
    decreases |failures|, 2
  {
    if failures == [] then 0
    else if Fires(failures, lim) then failures[|failures| - 1] + lim.lockout
    else Until(failures[..|failures| - 1], lim)
  }

  lemma {:induction false} RecentSize(failures: seq<int>, base: nat, end: nat, now: int, window: int)
    requires base <= end <= |failures|
    ensures |Recent(failures[base..end], now, window)| == |InWindow(failures, base, end, now, window)|
    decreases end
  {
    if base < end {
      var s := failures[base..end];
      assert s[..|s| - 1] == failures[base..end - 1];
      RecentSize(failures, base, end - 1, now, window);
      var before := InWindow(failures, base, end - 1, now, window);
      if now - failures[end - 1] < window {
        assert InWindow(failures, base, end, now, window) == before + {end - 1};
      } else {
        assert InWindow(failures, base, end, now, window) == before;
      }
    }
  }

  /** What an earlier filtering dropped, a later one would drop too. */
  lemma {:induction false} RecentOfRecent(s: seq<int>, now: int, later: int, window: int)
    requires now <= later
    ensures Recent(Recent(s, now, window), later, window) == Recent(s, later, window)
  {
    if s != [] {
      var init := s[..|s| - 1];
      RecentOfRecent(init, now, later, window);
      var kept := Recent(init, now, window);
      if now - s[|s| - 1] < window {
        assert (kept + [s[|s| - 1]])[..|kept|] == kept;
      } else {
        assert kept + [] == kept;
      }
    }
  }

  /** What the list holds: the failures since the last lockout that were in the window at the last
      failure, which is itself among them. */
  function Expected(failures: seq<int>, lim: Limits): seq<int> {
    var n := |failures| - 1;
    if Base(failures, lim) == |failures| then []
    else Recent(failures[Base(failures, lim)..n], failures[n], lim.window) + [failures[n]]
  }

  lemma RecentAppended(s: seq<int>, t: int, now: int, window: int)
    ensures Recent(s + [t], now, window) == Recent(s, now, window) + if now - t < window then [t] else []
  {
    assert (s + [t])[..|s|] == s;
  }

  /** Filtering the list at a new failure gives what filtering the whole history would. */
  lemma RecentOfExpected(failures: seq<int>, lim: Limits, now: int)
    requires failures != [] ==> failures[|failures| - 1] <= now
    ensures Recent(Expected(failures, lim), now, lim.window) == Recent(failures[Base(failures, lim)..], now, lim.window)
  {
    hide Base, Recent;
    var b := Base(failures, lim);
    if b < |failures| {
      var n := |failures| - 1;
      assert failures[b..] == failures[b..n] + [failures[n]];
      RecentAppended(failures[b..n], failures[n], now, lim.window);
      RecentAppended(Recent(failures[b..n], failures[n], lim.window), failures[n], now, lim.window);
      RecentOfRecent(failures[b..n], failures[n], now, lim.window);
    } else {
      assert failures[b..] == [];
    }
  }

  /** Main result: on a clock that never goes back, the short list and the time it keeps are those of
      the whole history. In particular a lockout fires exactly when the failures since the previous
      one that are in the window, counted over the whole history, reach the maximum. */
  lemma {:induction false} LimiterRefinesHistory(failures: seq<int>, lim: Limits)
    requires Sorted(failures)
    ensures After(failures, lim) == Limiter(Expected(failures, lim), Until(failures, lim))
    decreases |failures|
  {
    hide Recent, Expected, InWindow;
    if failures == [] {
      NothingExpected(lim);
    } else {
      var n := |failures| - 1;
      var before, now := failures[..n], failures[n];
      LimiterRefinesHistory(before, lim);
      RecentOfExpected(before, lim, now);
      var b := Base(before, lim);
      assert before[b..] == failures[b..n];
      RecentSize(failures, b, n, now, lim.window);
      ExpectedNext(failures, lim);
    }
  }

  lemma NothingExpected(lim: Limits)
    ensures Expected([], lim) == []
  {}

  lemma ExpectedNext(failures: seq<int>, lim: Limits)
    requires failures != []
    ensures var n := |failures| - 1;
            Expected(failures, lim)
            == if Fires(failures, lim) then []
               else Recent(failures[Base(failures[..n], lim)..n], failures[n], lim.window) + [failures[n]]
  {
    hide Recent, Fires;
  }

  /** A lockout is never shortened or withdrawn. */
  lemma {:induction false} UntilNeverDecreases(failures: seq<int>, lim: Limits)
    requires Sorted(failures) && failures != [] && failures[0] >= 0
    ensures Until(failures[..|failures| - 1], lim) <= Until(failures, lim) <= failures[|failures| - 1] + lim.lockout
    decreases |failures|
  {
    hide Fires;
    var before := failures[..|failures| - 1];
    if before != [] {
      UntilNeverDecreases(before, lim);
    }
  }

  /** No burst passes unnoticed: since the last lockout, any `max` consecutive failures are spread
      over at least a window. */
  lemma {:induction false} NoBurstSurvives(failures: seq<int>, lim: Limits, i: nat)
    requires Sorted(failures) && lim.max > 0
    requires Base(failures, lim) <= i && i + lim.max <= |failures|
    ensures failures[i + lim.max - 1] - failures[i] >= lim.window
    decreases |failures|
  {
    hide InWindow;
    var n := |failures| - 1;
    var before := failures[..n];
    if i + lim.max <= n {
      NoBurstSurvives(before, lim, i);
    } else if failures[n] - failures[i] < lim.window {
      BurstCounts(failures, Base(before, lim), i, n, lim.window);
    }
  }

  lemma BurstCounts(failures: seq<int>, base: nat, i: nat, n: nat, window: int)
    requires Sorted(failures) && base <= i <= n < |failures| && failures[n] - failures[i] < window
    ensures |InWindow(failures, base, n, failures[n], window)| >= n - i
  {
    var burst, all := Range(i, n - i), InWindow(failures, base, n, failures[n], window);
    forall k | k in burst ensures k in all {
      assert failures[i] <= failures[k];
    }
    RangeSize(i, n - i);
    SubsetSize(burst, all);
  }
}

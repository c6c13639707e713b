/** How long a room admits receivers (backend/src/room.ts:170-179, 195-207): the first sender hello is to fix
    an expiry, which the room recognises as set by its being neither 0 nor no number. */
module RoomExpiry {
  import opened Common
  import opened Room
  import opened RoomRuns
  import opened RoomSafety
  import RoomLimiter
  import Token

  /** A sender hello that, where no expiry is set, sets one. */
  predicate Opens(cfg: Config, ev: Event)
    requires IsHello(ev, true)
  {
    !Unset(ExpiryAt(ev.now, Ttl(cfg, ev.what.msg.hello)))
  }

  /** It does so exactly if its lifetime is a number and does not put the expiry at time 0, which the room
      takes for `not set`. Where the longest lifetime is not negative that is a matter of the field alone. */
  lemma OpensExactly(cfg: Config, ev: Event)
    requires IsHello(ev, true)
    ensures Opens(cfg, ev) <==>
      (Ttl(cfg, ev.what.msg.hello) != NaN && Ttl(cfg, ev.what.msg.hello) != Finite(-(ev.now as real) / 60_000.0))
    ensures ev.now > 0 && cfg.maxTtlMinutes >= 0.0 ==>
      (Opens(cfg, ev) <==> ev.what.msg.hello.ttlMinutes !in {Some(NaN), Some(Finite(-(ev.now as real) / 60_000.0))})
  {}

  /** Any two sender hellos in a room without an expiry: the second sets it anew exactly if the first did not
      open the room, and then from its own time. */
  lemma ExpirySetTwice(sys: Sys, cfg: Config, first: Event, second: Event)
    requires IsHello(first, true) && IsHello(second, true) && Unset(sys.room.expiresAt)
    ensures Step(Step(sys, cfg, first), cfg, second).room.expiresAt
         == (if Opens(cfg, first) then ExpiryAt(first.now, Ttl(cfg, first.what.msg.hello))
             else ExpiryAt(second.now, Ttl(cfg, second.what.msg.hello)))
  {}

  function Bound(cfg: Config, opening: int): real {
    opening as real + cfg.maxTtlMinutes * 60_000.0
  }

  /** An expiry that is set, and not later than the longest lifetime after `opening`. */
  predicate Bounded(cfg: Config, opening: int, expiresAt: Number) {
    !Unset(expiresAt) && match expiresAt case Finite(x) => x <= Bound(cfg, opening) case Infinite(positive) => !positive
  }

  lemma OpeningIsBounded(cfg: Config, ev: Event)
    requires IsHello(ev, true) && Opens(cfg, ev)
    ensures Bounded(cfg, ev.now, ExpiryAt(ev.now, Ttl(cfg, ev.what.msg.hello)))
  {}

  lemma SenderHelloSets(sys: Sys, cfg: Config, ev: Event)
    requires IsHello(ev, true)
    ensures Step(sys, cfg, ev).room.expiresAt
         == if Unset(sys.room.expiresAt) then ExpiryAt(ev.now, Ttl(cfg, ev.what.msg.hello)) else sys.room.expiresAt
  {}

  /** `events[i]` is the sender hello that begins the time `events` ends in: nobody said hello as a sender
      between the start or the last revocation and it, and no revocation came since. */
  predicate Opening(cfg: Config, events: seq<Event>, i: nat) {
    i < |events| && IsHello(events[i], true) && Run(START, cfg, events[..i]).openedAt.None?
    && Run(START, cfg, events).openedAt == Some(events[i].now)
  }

  lemma {:induction false} OpeningOf(cfg: Config, events: seq<Event>) returns (i: nat)
    requires LegalRun(START, cfg, events) && Run(START, cfg, events).openedAt.Some?
    ensures Opening(cfg, events, i)
    ensures Opens(cfg, events[i]) ==> Bounded(cfg, events[i].now, Run(START, cfg, events).room.expiresAt)
    decreases |events|
  {
    hide Inv, React, Bounded, Opens, ExpiryAt, Ttl, Legal;
    var n := |events| - 1;
    var before, ev := events[..n], events[n];
    StartInv(cfg);
    RunKeeps(START, cfg, before);
    var sys := Run(START, cfg, before);
    StepKeepsOpening(sys, cfg, ev);
    if sys.openedAt.None? {
      i := n;
    } else {
      i := OpeningOf(cfg, before);
      assert before[..i] == events[..i];
    }
  }

  lemma StepKeepsOpening(sys: Sys, cfg: Config, ev: Event)
    requires Inv(sys, cfg) && Legal(sys, ev) && Step(sys, cfg, ev).openedAt.Some?
    ensures var opening := Step(sys, cfg, ev).openedAt.value; var expiresAt := Step(sys, cfg, ev).room.expiresAt;
            if sys.openedAt.None? then IsHello(ev, true) && opening == ev.now && (Opens(cfg, ev) ==> Bounded(cfg, opening, expiresAt))
            else opening == sys.openedAt.value && !Revokes(sys.room, ev)
                 && (Bounded(cfg, opening, sys.room.expiresAt) ==> expiresAt == sys.room.expiresAt)
  {
    hide Roster, LimiterAgrees, React, ExpiryAt, Ttl;
    StepFrame(sys, cfg, ev);
    if IsHello(ev, true) {
      SenderHelloSets(sys, cfg, ev);
      if Opens(cfg, ev) {
        OpeningIsBounded(cfg, ev);
      }
    }
  }

  predicate Joins(sys: Sys, cfg: Config, ev: Event) {
    IsHello(ev, false) && Step(sys, cfg, ev).room.peers != sys.room.peers
  }

  /** No receiver joins before the first sender hello since the start or the last revocation; and if that
      hello opened the room, none joins later than the longest lifetime after it. */
  lemma JoinsInTime(cfg: Config, events: seq<Event>, ev: Event) returns (i: nat)
    requires LegalRun(START, cfg, events) && Legal(Run(START, cfg, events), ev) && Joins(Run(START, cfg, events), cfg, ev)
    ensures Opening(cfg, events, i)
    ensures Opens(cfg, events[i]) ==> ev.now as real <= Bound(cfg, events[i].now)
  {
    hide Run, LegalRun, Roster, LimiterAgrees, React, TokenMatches, Opens, Opening;
    StartInv(cfg);
    RunKeeps(START, cfg, events);
    JoinsExactly(cfg, events, ev);
    ClosedIsPast(Run(START, cfg, events).room, ev.now);
    i := OpeningOf(cfg, events);
  }

  lemma ClosedIsPast(room: State, now: int)
    ensures Closed(room) && now > 0 ==> Past(now, room.expiresAt)
  {}

  predicate NoRevocation(sys: Sys, cfg: Config, events: seq<Event>)
    decreases |events|
  {
    events == []
    || (NoRevocation(sys, cfg, events[..|events| - 1])
        && !Revokes(Run(sys, cfg, events[..|events| - 1]).room, events[|events| - 1]))
  }

  lemma NoRevocationAppended(sys: Sys, cfg: Config, events: seq<Event>, ev: Event)
    ensures NoRevocation(sys, cfg, events + [ev])
         == (NoRevocation(sys, cfg, events) && !Revokes(Run(sys, cfg, events).room, ev))
  {
    hide Run, Revokes;
    assert (events + [ev])[..|events|] == events;
  }

  /** A continuation of a run, without a revocation, in which a receiver joins after the bound. */
  predicate Late(sys: Sys, cfg: Config, opening: int, after: seq<Event>, join: Event) {
    && LegalRun(sys, cfg, after) && NoRevocation(sys, cfg, after)
    && Legal(Run(sys, cfg, after), join) && Joins(Run(sys, cfg, after), cfg, join)
    && join.now as real > Bound(cfg, opening)
  }

  lemma {:induction false} ExpiryStays(sys: Sys, cfg: Config, after: seq<Event>)
    requires Inv(sys, cfg) && LegalRun(sys, cfg, after) && NoRevocation(sys, cfg, after) && !Unset(sys.room.expiresAt)
    ensures Run(sys, cfg, after).room.expiresAt == sys.room.expiresAt && Inv(Run(sys, cfg, after), cfg)
    decreases |after|
  {
    hide Inv, React, Unset, Legal;
    if after != [] {
      var before, ev := after[..|after| - 1], after[|after| - 1];
      ExpiryStays(sys, cfg, before);
      StepKeeps(Run(sys, cfg, before), cfg, ev);
      StepFrame(Run(sys, cfg, before), cfg, ev);
    }
  }

  lemma JoinsBeforeExpiry(sys: Sys, cfg: Config, ev: Event)
    requires Inv(sys, cfg) && Legal(sys, ev) && Joins(sys, cfg, ev)
    ensures !Past(ev.now, sys.room.expiresAt)
  {
    hide Roster, LimiterAgrees, TokenMatches, ReceiverHello, Past;
    ReceiverHelloFrame(sys.room, cfg, ev.what.ws, ev.what.msg.hello, ev.what.tokenParam, ev.what.id, ev.now, sys.used);
  }

  /** Main result: of the first sender hello after the start or a revocation, in any run. Every receiver that
      joins before the next revocation does so in time, whatever happens, if and only if that hello opens the
      room: has a lifetime that is a number and does not put the expiry at time 0. */
  lemma JoinsInTimeExactly(cfg: Config, before: seq<Event>, hello: Event)
    requires LegalRun(START, cfg, before) && Legal(Run(START, cfg, before), hello)
    requires IsHello(hello, true) && Run(START, cfg, before).openedAt.None?
    ensures Opens(cfg, hello) <==>
      !exists after, join :: Late(Step(Run(START, cfg, before), cfg, hello), cfg, hello.now, after, join)
  {
    hide Run, LegalRun, Step, Late, Opens;
    StartInv(cfg);
    RunKeeps(START, cfg, before);
    ExactlyInTime(Run(START, cfg, before), cfg, hello);
  }

  lemma ExactlyInTime(sys: Sys, cfg: Config, hello: Event)
    requires Inv(sys, cfg) && Legal(sys, hello) && IsHello(hello, true) && sys.openedAt.None?
    ensures Opens(cfg, hello) <==> !exists after, join :: Late(Step(sys, cfg, hello), cfg, hello.now, after, join)
  {
    hide Roster, LimiterAgrees, React, Late, ExpiryAt, Ttl, Legal;
    var sys' := Step(sys, cfg, hello);
    StepKeeps(sys, cfg, hello);
    SenderHelloSets(sys, cfg, hello);
    if Opens(cfg, hello) {
      OpeningIsBounded(cfg, hello);
      forall after, join ensures !Late(sys', cfg, hello.now, after, join) {
        NeverLate(sys', cfg, hello.now, after, join);
      }
    } else {
      var after, join := LateJoin(sys', cfg, hello.now);
    }
  }

  lemma NeverLate(sys: Sys, cfg: Config, opening: int, after: seq<Event>, join: Event)
    requires Inv(sys, cfg) && Bounded(cfg, opening, sys.room.expiresAt)
    ensures !Late(sys, cfg, opening, after, join)
  {
    hide Inv, Run, LegalRun, NoRevocation, Legal, Joins;
    if Late(sys, cfg, opening, after, join) {
      ExpiryStays(sys, cfg, after);
      JoinsBeforeExpiry(Run(sys, cfg, after), cfg, join);
    }
  }

  // A late join: a connection brings the token, another sender hello sets an expiry anew, a receiver joins.

  lemma {:induction false} LongerThanAll(used: set<string>) returns (n: nat)
    ensures forall s :: s in used ==> |s| < n
    decreases |used|
  {
    if used == {} {
      n := 0;
    } else {
      var x :| x in used;
      var m := LongerThanAll(used - {x});
      n := if m > |x| then m else |x| + 1;
    }
  }

  lemma FreshId(used: set<string>) returns (id: string)
    ensures id !in used
  {
    var n := LongerThanAll(used);
    id := seq(n, _ => 'x');
  }

  function LateLifetime(cfg: Config): Option<Number> {
    if cfg.maxTtlMinutes >= 0.0 then None else Some(NaN)
  }

  const LATE_CONNECT := Connect(Some("T"))

  function LateHello(cfg: Config, id: string): What {
    Receive(0, HelloMsg(Hello(true, None, None, LateLifetime(cfg), false, None)), None, id)
  }

  function LateReceiver(id: string): What {
    Receive(1, HelloMsg(Hello(false, None, Some("T"), None, false, None)), None, id)
  }

  lemma LateJoin(sys: Sys, cfg: Config, opening: int) returns (after: seq<Event>, join: Event)
    requires Inv(sys, cfg) && Unset(sys.room.expiresAt)
    ensures Late(sys, cfg, opening, after, join)
  {
    hide Inv, Step, LateHello, LateReceiver, Joins;
    var t := LateTime(sys, cfg, opening);
    var id := FreshId(sys.used);
    var id' := FreshId(sys.used + {id});
    var a, b := Event(t, LATE_CONNECT), Event(t, LateHello(cfg, id));
    join := Event(t, LateReceiver(id'));
    after := [a, b];
    RunAppended(sys, cfg, [], a);
    RunAppended(sys, cfg, [a], b);
    assert [] + [a] == [a] && [a] + [b] == [a, b];
    NoRevocationAppended(sys, cfg, [], a);
    NoRevocationAppended(sys, cfg, [a], b);
    LateSteps(sys, cfg, t, id, id');
  }

  lemma LateTime(sys: Sys, cfg: Config, opening: int) returns (t: int)
    ensures t > 0 && t >= sys.clock && t >= sys.room.limiter.lockedOutUntil && t as real > Bound(cfg, opening)
  {
    var late := Bound(cfg, opening).Floor + 1;
    t := if sys.clock > late then sys.clock else late;
    t := if sys.room.limiter.lockedOutUntil > t then sys.room.limiter.lockedOutUntil else t;
    t := if t > 0 then t else 1;
  }

  lemma LateSteps(sys: Sys, cfg: Config, t: int, id: string, id': string)
    requires Inv(sys, cfg) && Unset(sys.room.expiresAt)
    requires t > 0 && t >= sys.clock && t >= sys.room.limiter.lockedOutUntil
    requires id !in sys.used && id' !in sys.used + {id}
    ensures var a, b, join := Event(t, LATE_CONNECT), Event(t, LateHello(cfg, id)), Event(t, LateReceiver(id'));
            var s1 := Step(sys, cfg, a); var s2 := Step(s1, cfg, b);
            && Legal(sys, a) && Legal(s1, b) && Legal(s2, join)
            && !Revokes(sys.room, a) && !Revokes(s1.room, b) && Joins(s2, cfg, join)
  {
    hide Roster, LimiterAgrees, ReceiverHello, RoomLimiter.Record, TokenMatches, Token.Upper;
    var a, b, join := Event(t, LATE_CONNECT), Event(t, LateHello(cfg, id)), Event(t, LateReceiver(id'));
    var s1 := Step(sys, cfg, a);
    var s2 := Step(s1, cfg, b);
    StepKeeps(sys, cfg, a);
    StepKeeps(s1, cfg, b);
    LateExpiry(cfg, t);
    UpperT();
    HintMatches(s2.room, join);
    ReceiverHelloFrame(s2.room, cfg, 1, join.what.msg.hello, None, id', t, s2.used);
  }

  lemma LateExpiry(cfg: Config, t: int)
    requires t > 0
    ensures !Past(t, ExpiryAt(t, Ttl(cfg, Hello(true, None, None, LateLifetime(cfg), false, None))))
  {}

  lemma UpperT()
    ensures Token.Upper("T") == "T"
  {}
}

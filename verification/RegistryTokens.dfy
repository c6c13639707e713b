/** When the registry has one session per token (src/receive-session.c:74). It compares texts as given
    (479-488) and normalises only what the server is told (338-345), so it depends on the spellings. */
module RegistryTokens {
  import opened Token
  import opened Registry
  import opened RegistryRuns

  /** The token a text stands for. */
  function Canon(text: string): string {
    Normal(text, TOKEN_BUF)
  }

  /** No two sessions of the table serve one token. */
  ghost predicate OnePerToken(sys: Sys) {
    forall s, t :: s in sys.table && t in sys.table && s in sys.heap && t in sys.heap && s != t ==>
      Canon(sys.heap[s].token) != Canon(sys.heap[t].token)
  }

  /** No live session serves the token of this text. */
  ghost predicate Unserved(sys: Sys, text: string) {
    forall s :: s in sys.table && s in sys.heap ==> Canon(sys.heap[s].token) != Canon(text)
  }

  /** A `get` that makes no session, or one for a token that has none. */
  ghost predicate Respects(sys: Sys, e: Event)
    requires Enabled(sys, e) && Defined(sys, e)
  {
    Allocates(sys, e) ==> Unserved(sys, e.token)
  }

  lemma CreateOnePerToken(sys: Sys, text: string)
    requires Inv(sys) && OnePerToken(sys)
    ensures OnePerToken(Create(sys, text)) <==> Unserved(sys, text)
  {
    hide Accounted, Canon;
    var next := Create(sys, text);
    var id := sys.nextSession;
    assert id !in sys.heap;
    assert next.table[|sys.table|] == id && id in next.table && next.heap[id].token == text;
    if OnePerToken(next) {
      forall s | s in sys.table && s in sys.heap ensures Canon(sys.heap[s].token) != Canon(text) {
        assert s in next.table && next.heap[s] == sys.heap[s] && s != id;
      }
    }
  }

  /** Every session of the table was there before, and serves the text it did. */
  ghost predicate NothingNew(sys: Sys, next: Sys) {
    forall s :: s in next.table && s in next.heap ==> s in sys.table && s in sys.heap && next.heap[s].token == sys.heap[s].token
  }

  lemma {:induction false} SnapshotMakesNothing(sys: Sys, ids: seq<nat>)
    requires forall s :: s in ids ==> s in sys.heap
    ensures NothingNew(sys, SnapshotAll(sys, ids))
    decreases |ids|
  {
    if ids != [] {
      SnapshotMakesNothing(sys, ids[..|ids| - 1]);
    }
  }

  lemma HeldMakesNothing(sys: Sys, r: Ref)
    requires r.session in sys.heap
    ensures NothingNew(sys, AddRef(sys, r))
  {}

  lemma DropMakesNothing(sys: Sys, p: nat)
    requires p in sys.refs && sys.refs[p].session in sys.heap
    ensures NothingNew(sys, DropRef(sys, p))
  {}

  lemma OthersMakeNothing(sys: Sys, e: Event)
    requires Enabled(sys, e) && Defined(sys, e) && (e.SubscribePush? || e.SubscribeBump? || e.UnsubscribeErase? || e.Destroy?)
    ensures NothingNew(sys, Act(sys, e))
  {}

  /** A `get` that allocates a session. */
  predicate Allocates(sys: Sys, e: Event)
    requires Enabled(sys, e) && Defined(sys, e)
  {
    e.Get? && e.token != "" && Find(sys.table, sys.heap, e.token).None? && Creatable(e.token, e.ok)
  }

  lemma OnlyGetMakesSessions(sys: Sys, e: Event)
    requires Enabled(sys, e) && Defined(sys, e) && !Allocates(sys, e)
    ensures NothingNew(sys, Act(sys, e))
  {
    hide NothingNew, AddRef, DropRef, Push, Bump, Erase, Free, Creatable;
    SameIsNothingNew(sys);
    match e
    case Get(token, _) =>
      var found := Find(sys.table, sys.heap, token);
      if found.Some? {
        HeldMakesNothing(sys, Held(found.value));
      }
    case Release(h) => DropMakesNothing(sys, h);
    case UnsubscribeRelease(sub) => DropMakesNothing(sys, sub);
    case EnumerateRelease(h) => DropMakesNothing(sys, h);
    case EnumerateSnapshot => SnapshotMakesNothing(sys, sys.table);
    case _ => OthersMakeNothing(sys, e);
  }

  lemma SameIsNothingNew(sys: Sys)
    ensures NothingNew(sys, sys)
  {}

  lemma NothingNewKeeps(sys: Sys, next: Sys)
    requires NothingNew(sys, next) && OnePerToken(sys)
    ensures OnePerToken(next)
  {
    hide Canon;
  }

  /** A step keeps one session per token if and only if it is no `get` that makes a session for a token that
      already has one. */
  lemma StepKeepsExactly(sys: Sys, e: Event)
    requires Inv(sys) && Enabled(sys, e) && OnePerToken(sys)
    ensures Defined(sys, e) && (OnePerToken(Next(sys, e)) <==> Respects(sys, e))
  {
    hide Inv, OnePerToken, NothingNew, Unserved, Creatable, Create;
    InvDefined(sys, e);
    if Allocates(sys, e) {
      CreateOnePerToken(sys, e.token);
    } else {
      OnlyGetMakesSessions(sys, e);
      NothingNewKeeps(sys, Next(sys, e));
    }
  }

  /** In particular a `get` keeps it if and only if its text is in the table, or no session can be made for it,
      or no live session serves its token. */
  lemma GetKeepsExactly(sys: Sys, text: string, ok: bool)
    requires Inv(sys) && OnePerToken(sys)
    ensures OnePerToken(Next(sys, Get(text, ok))) <==>
      ((exists s :: s in sys.table && s in sys.heap && sys.heap[s].token == text)
       || !ok || !MatchesRegex(Canon(text)) || Unserved(sys, text))
  {
    hide Shape, Accounted, Unserved, OnePerToken, Act;
    StepKeepsExactly(sys, Get(text, ok));
    if text == "" {
      assert !MatchesRegex(Canon(text));
    }
  }

  ghost predicate AlwaysOnePerToken(sys: Sys, trace: seq<Event>)
    decreases |trace|
  {
    OnePerToken(sys)
    && (trace != [] ==> Enabled(sys, trace[0]) && Defined(sys, trace[0]) && AlwaysOnePerToken(Act(sys, trace[0]), trace[1..]))
  }

  ghost predicate AllRespect(sys: Sys, trace: seq<Event>)
    decreases |trace|
  {
    trace == []
    || (Enabled(sys, trace[0]) && Defined(sys, trace[0]) && Respects(sys, trace[0]) && AllRespect(Act(sys, trace[0]), trace[1..]))
  }

  /** Main result: a run has one session per token throughout if and only if every `get` in it that makes a
      session is for a token without one. */
  lemma {:induction false} OneSessionPerTokenExactly(sys: Sys, trace: seq<Event>, end: Sys)
    requires Inv(sys) && OnePerToken(sys) && Runs(sys, trace, end)
    ensures AlwaysOnePerToken(sys, trace) <==> AllRespect(sys, trace)
    decreases |trace|
  {
    hide Inv, OnePerToken, Respects, Act, Enabled, Defined;
    if trace != [] {
      StepKeepsExactly(sys, trace[0]);
      NextKeeps(sys, trace[0]);
      if OnePerToken(Act(sys, trace[0])) {
        OneSessionPerTokenExactly(Act(sys, trace[0]), trace[1..], end);
      } else {
        NotAlways(Act(sys, trace[0]), trace[1..]);
      }
    }
  }

  lemma NotAlways(sys: Sys, trace: seq<Event>)
    requires !OnePerToken(sys)
    ensures !AlwaysOnePerToken(sys, trace)
  {}

  // ----- callers that pass normalised texts -----

  ghost predicate Canonical(sys: Sys) {
    forall s :: s in sys.table && s in sys.heap ==> Canon(sys.heap[s].token) == sys.heap[s].token
  }

  lemma CanonicalIsEnough(sys: Sys)
    requires Inv(sys) && Canonical(sys)
    ensures OnePerToken(sys)
  {
    hide Accounted, Canon;
  }

  lemma StepKeepsCanonical(sys: Sys, e: Event)
    requires Inv(sys) && Enabled(sys, e) && Canonical(sys) && (e.Get? ==> Canon(e.token) == e.token)
    ensures Canonical(Next(sys, e))
  {
    hide Shape, Accounted, Canon, Creatable;
    InvDefined(sys, e);
    if !Allocates(sys, e) {
      OnlyGetMakesSessions(sys, e);
    }
  }

  /** So if every text passed is its own normalisation, no reachable state has two sessions for one token. */
  lemma {:induction false} NormalisedTextsAreEnough(sys: Sys, trace: seq<Event>, end: Sys)
    requires Inv(sys) && Canonical(sys) && Runs(sys, trace, end)
    requires forall i :: 0 <= i < |trace| && trace[i].Get? ==> Canon(trace[i].token) == trace[i].token
    ensures OnePerToken(end)
    decreases |trace|
  {
    hide Inv, OnePerToken, Canonical, Act, Enabled, Defined, Canon;
    if trace == [] {
      CanonicalIsEnough(sys);
    } else {
      NextKeeps(sys, trace[0]);
      StepKeepsCanonical(sys, trace[0]);
      NormalisedTextsAreEnough(Act(sys, trace[0]), trace[1..], end);
    }
  }

  /** Any two spellings of a token, taken one after the other from an empty table, get two sessions. */
  lemma TwoSpellingsTwoSessions(a: string, b: string)
    requires a != b && Canon(a) == Canon(b) && MatchesRegex(Canon(a))
    ensures exists end :: Runs(EMPTY, [Get(a, true), Get(b, true)], end) && end.table == [0, 1]
              && end.heap == map[0 := Session(a, 1, []), 1 := Session(b, 1, [])] && !OnePerToken(end)
  {
    hide Canon, MatchesRegex, Creatable, Normal;
    NotEmpty(a);
    NotEmpty(b);
    var one := Create(EMPTY, a);
    assert Act(EMPTY, Get(a, true)) == one;
    assert Find(one.table, one.heap, b).None?;
    var two := Create(one, b);
    assert Act(one, Get(b, true)) == two;
    var trace := [Get(a, true), Get(b, true)];
    assert trace[1..] == [Get(b, true)] && trace[1..][1..] == [];
    assert Runs(two, [], two);
    assert Runs(one, trace[1..], two);
    assert Runs(EMPTY, trace, two);
    assert two.table == [0, 1];
    assert two.table[0] in two.table && two.table[1] in two.table;
  }

  lemma NotEmpty(text: string)
    requires MatchesRegex(Canon(text))
    ensures text != "" && Creatable(text, true)
  {}
}

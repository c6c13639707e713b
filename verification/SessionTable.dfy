/** The registry as the program updates it, one method per critical section
    (src/receive-session.c:469-603). */
module SessionTable {
  import opened Common
  import opened Registry
  import opened RegistryRuns

  /** The search loop of `get`. */
  method FindSession(table: seq<nat>, heap: map<nat, Session>, token: string) returns (s: Option<nat>)
    requires forall t :: t in table ==> t in heap
    ensures s == Find(table, heap, token)
  {
    for i := 0 to |table|
      invariant Find(table[i..], heap, token) == Find(table, heap, token)
    {
      assert table[i..][1..] == table[i + 1..];
      if heap[table[i]].token == token {
        return Some(table[i]);
      }
    }
    return None;
  }

  /** The search-and-erase loops of `release` and `unsubscribe`. */
  method EraseFirst(list: seq<nat>, x: nat) returns (rest: seq<nat>)
    ensures rest == Remove(list, x)
    ensures if x in list then exists i :: 0 <= i < |list| && list[i] == x && x !in list[..i] && rest == list[..i] + list[i + 1..]
            else rest == list
  {
    for i := 0 to |list|
      invariant list[..i] + Remove(list[i..], x) == Remove(list, x)
      invariant x !in list[..i]
    {
      assert list[i..][1..] == list[i + 1..];
      if list[i] == x {
        return list[..i] + list[i + 1..];
      }
      assert list[..i] + ([list[i]] + Remove(list[i + 1..], x)) == list[..i + 1] + Remove(list[i + 1..], x);
    }
    assert list[..|list|] + [] == list;
    return list;
  }

  lemma DroppedIsGone(sys: Sys, p: nat)
    requires Sound(sys) && p in sys.refs && !sys.refs[p].Lending?
    ensures Gone(DropRef(sys, p), p)
  {}

  lemma AddRefSafe(sys: Sys, r: Ref)
    requires Inv(sys) && r.session in sys.table && (r.Held? || r.Snapshot?)
    ensures Inv(AddRef(sys, r)) && Framed(sys, AddRef(sys, r), {})
    ensures r.session in sys.heap
  {
    InvFacts(sys);
    AddRefKeeps(sys, r);
    AddRefFramed(sys, r);
  }

  lemma DropRefSafe(sys: Sys, p: nat)
    requires Inv(sys) && p in sys.refs && !sys.refs[p].Subscribed? && !sys.refs[p].Lending?
    ensures Inv(DropRef(sys, p)) && Framed(sys, DropRef(sys, p), {p})
    ensures Gone(DropRef(sys, p), p) && sys.refs[p].session in sys.heap && sys.refs[p].session !in sys.doomed
  {
    InvFacts(sys);
    DropRefKeeps(sys, p);
    DropRefFramed(sys, p);
    DroppedIsGone(sys, p);
  }

  lemma CreateSafe(sys: Sys, token: string)
    requires Inv(sys) && Find(sys.table, sys.heap, token).None?
    ensures Inv(Create(sys, token)) && Framed(sys, Create(sys, token), {})
  {
    InvFacts(sys);
    CreateKeeps(sys, token);
    CreateFramed(sys, token);
  }

  lemma PushSafe(sys: Sys, h: nat)
    requires Inv(sys) && h in sys.refs && sys.refs[h].Held?
    ensures Inv(Push(sys, h)) && Framed(sys, Push(sys, h), {h})
    ensures sys.refs[h].session in sys.heap && h != sys.nextRef
  {
    InvFacts(sys);
    PushKeeps(sys, h);
    PushFramed(sys, h);
  }

  lemma BumpSafe(sys: Sys, h: nat)
    requires Inv(sys) && h in sys.refs && sys.refs[h].Lending?
    ensures Inv(Bump(sys, h)) && Framed(sys, Bump(sys, h), {h})
    ensures sys.refs[h].session in sys.heap
  {
    InvFacts(sys);
    BumpKeeps(sys, h);
    BumpFramed(sys, h);
  }

  lemma EraseSafe(sys: Sys, sub: nat)
    requires Inv(sys) && sub in sys.refs && sys.refs[sub].Subscribed?
    ensures Inv(Erase(sys, sub)) && Framed(sys, Erase(sys, sub), {sub})
    ensures sys.refs[sub].session in sys.heap
  {
    InvFacts(sys);
    EraseKeeps(sys, sub);
    EraseFramed(sys, sub);
  }

  lemma RefsAreKept(sys: Sys)
    requires Inv(sys)
    ensures forall p :: p in sys.refs ==> KeepsRef(sys, sys, p)
  {
    InvFacts(sys);
  }

  lemma SnapshotTable(sys: Sys, s: nat)
    requires s in sys.heap
    ensures AddRef(sys, Snapshot(s)).table == sys.table
  {}

  /** Reference `p` is a handle on the session of that token. */
  ghost predicate HoldsToken(sys: Sys, p: nat, token: string) {
    && p in sys.refs && sys.refs[p].Held?
    && sys.refs[p].session in sys.heap && sys.heap[sys.refs[p].session].token == token
  }

  /** The texts a handle can be had for: those of live sessions, and those a session can be made for. */
  predicate Obtainable(sys: Sys, text: string, ok: bool)
    requires forall s :: s in sys.table ==> s in sys.heap
  {
    text != "" && (Find(sys.table, sys.heap, text).Some? || Creatable(text, ok))
  }

  class Table {
    var sessions: seq<nat>
    var heap: map<nat, Session>
    var nextSession: nat
    var refs: map<nat, Ref>
    var nextRef: nat
    var doomed: set<nat>
    var freed: seq<nat>

    function Model(): Sys
      reads this
    {
      Sys(sessions, heap, nextSession, refs, nextRef, doomed, freed)
    }

    ghost predicate Valid()
      reads this
    {
      Inv(Model()) && forall s :: s in sessions ==> s in heap
    }

    constructor ()
      ensures Valid() && Model() == EMPTY
    {
      sessions, heap, nextSession, refs, nextRef, doomed, freed := [], map[], 0, map[], 0, {}, [];
      new;
      EmptyIsSafe();
    }

    /** `++refcount` on a session in the table, on behalf of a thread. */
    method Count(r: Ref)
      requires Valid() && r.session in sessions && (r.Held? || r.Snapshot?)
      modifies this
      ensures Valid() && Model() == AddRef(old(Model()), r)
      ensures Framed(old(Model()), Model(), {})
    {
      hide Inv, Framed;
      ghost var before := Model();
      AddRefSafe(before, r);
      heap := heap[r.session := heap[r.session].(refcount := heap[r.session].refcount + 1)];
      refs, nextRef := refs[nextRef := r], nextRef + 1;
      assert Model() == AddRef(before, r);
    }

    /** A new session is allocated with count one and pushed. */
    method Allocate(token: string)
      requires Valid() && Find(sessions, heap, token).None?
      modifies this
      ensures Valid() && Model() == Create(old(Model()), token)
      ensures Framed(old(Model()), Model(), {})
    {
      hide Inv, Framed, Find;
      CreateSafe(Model(), token);
      heap := heap[nextSession := Session(token, 1, [])];
      sessions := sessions + [nextSession];
      refs, nextRef := refs[nextRef := Held(nextSession)], nextRef + 1;
      nextSession := nextSession + 1;
    }

    /** `tether_receive_session_get`: one critical section. */
    method Get(token: string, ok: bool) returns (h: Option<nat>)
      requires Valid()
      modifies this
      ensures Valid() && Model() == Next(old(Model()), Event.Get(token, ok))
      ensures h == if old(Obtainable(Model(), token, ok)) then Some(old(nextRef)) else None
      ensures h.Some? ==> HoldsToken(Model(), h.value, token)
      ensures Framed(old(Model()), Model(), {})
    {
      hide Inv, Creatable, Find, Framed;
      InvAllocates(Model());
      NextFramed(Model(), Event.Get(token, ok));
      if token == "" {
        return None;
      }
      var s := FindSession(sessions, heap, token);
      if s.Some? {
        h := Some(nextRef);
        Count(Held(s.value));
        return;
      }
      if !Creatable(token, ok) {
        return None;
      }
      h := Some(nextRef);
      Allocate(token);
    }

    /** The critical section of `tether_receive_session_release`, for a handle, a half-done
        unsubscribe or a snapshot entry. */
    method ReleaseRef(p: nat) returns (destroy: bool)
      requires Valid() && p in refs && !refs[p].Subscribed? && !refs[p].Lending?
      modifies this
      ensures Valid() && Model() == DropRef(old(Model()), p)
      ensures Framed(old(Model()), Model(), {p}) && Gone(Model(), p)
      ensures destroy <==> old(refs[p].session) in doomed
    {
      hide Inv, Remove, Framed, Gone;
      ghost var before := Model();
      DropRefSafe(before, p);
      var s := refs[p].session;
      heap := heap[s := heap[s].(refcount := heap[s].refcount - 1)];
      refs := refs - {p};
      if heap[s].refcount > 0 {
        assert Model() == DropRef(before, p);
        return false;
      }
      sessions := EraseFirst(sessions, s);
      doomed := doomed + {s};
      assert Model() == DropRef(before, p);
      return true;
    }

    /** `session_destroy`, outside the lock. */
    method Destroy(s: nat)
      requires Valid() && s in doomed
      modifies this
      ensures Valid() && Model() == Free(old(Model()), s)
      ensures old(heap[s].subs) == []
    {
      FreeKeeps(Model(), s);
      heap := heap - {s};
      doomed, freed := doomed - {s}, freed + [s];
    }

    /** The two critical sections of `tether_receive_session_subscribe`. */
    method SubscribePush(h: nat) returns (sub: nat)
      requires Valid() && h in refs && refs[h].Held?
      modifies this
      ensures Valid() && Model() == Push(old(Model()), h) && sub == old(nextRef) != h
      ensures Framed(old(Model()), Model(), {h})
    {
      hide Inv, Framed;
      ghost var before := Model();
      PushSafe(before, h);
      sub := nextRef;
      var s := refs[h].session;
      heap := heap[s := heap[s].(subs := heap[s].subs + [sub])];
      refs, nextRef := refs[h := Lending(s, sub)], nextRef + 1;
      assert Model() == Push(before, h);
    }

    method SubscribeBump(h: nat)
      requires Valid() && h in refs && refs[h].Lending?
      modifies this
      ensures Valid() && Model() == Bump(old(Model()), h)
      ensures Framed(old(Model()), Model(), {h})
    {
      hide Inv, Framed;
      BumpSafe(Model(), h);
      var s := refs[h].session;
      heap := heap[s := heap[s].(refcount := heap[s].refcount + 1)];
      refs := refs[h := Held(s)][refs[h].sub := Subscribed(s)];
    }

    /** The first critical section of `tether_receive_session_unsubscribe`. */
    method UnsubscribeErase(sub: nat)
      requires Valid() && sub in refs && refs[sub].Subscribed?
      modifies this
      ensures Valid() && Model() == Erase(old(Model()), sub)
      ensures Framed(old(Model()), Model(), {sub})
    {
      hide Inv, Remove, Framed;
      EraseSafe(Model(), sub);
      var s := refs[sub].session;
      var subs := EraseFirst(heap[s].subs, sub);
      heap := heap[s := heap[s].(subs := subs)];
      refs := refs[sub := Leaving(s)];
    }

    /** The critical section of `tether_receive_session_enumerate`. */
    method EnumerateSnapshot() returns (copy: seq<nat>)
      requires Valid()
      modifies this
      ensures Valid() && Model() == SnapshotAll(old(Model()), old(sessions)) && copy == old(sessions) == sessions
      ensures OneEach(old(refs), old(nextRef), copy, refs)
      ensures heap.Keys == old(heap).Keys
      ensures forall s :: s in old(heap) ==>
        heap[s] == old(heap)[s].(refcount := old(heap)[s].refcount + if s in copy then 1 else 0)
    {
      hide Inv, OneEach, SnapshotAll;
      EnumerationHoldsEach(Model());
      assert Next(Model(), Event.EnumerateSnapshot) == SnapshotAll(Model(), sessions);
      copy := CountEach();
    }

    method CountEach() returns (copy: seq<nat>)
      requires Valid()
      modifies this
      ensures Valid() && Model() == SnapshotAll(old(Model()), old(sessions)) && copy == old(sessions)
    {
      hide Inv, AddRef;
      copy := [];
      ghost var start := Model();
      InvAllocates(start);
      for i := 0 to |sessions|
        invariant sessions == start.table && copy == sessions[..i]
        invariant Valid() && Model() == SnapshotAll(start, start.table[..i])
      {
        assert start.table[..i + 1][..i] == start.table[..i];
        var s := sessions[i];
        copy := copy + [s];
        SnapshotTable(Model(), s);
        Count(Snapshot(s));
      }
      assert start.table[..|start.table|] == start.table;
    }

    /** One step of some other thread. */
    method Perform(e: Event)
      requires Valid() && Enabled(Model(), e)
      modifies this
      ensures Valid() && Model() == Next(old(Model()), e)
    {
      match e {
        case Get(token, ok) => var _ := Get(token, ok);
        case Release(h) => var _ := ReleaseRef(h);
        case SubscribePush(h) => var _ := SubscribePush(h);
        case SubscribeBump(h) => SubscribeBump(h);
        case UnsubscribeErase(sub) => UnsubscribeErase(sub);
        case UnsubscribeRelease(sub) => var _ := ReleaseRef(sub);
        case EnumerateSnapshot => var _ := EnumerateSnapshot();
        case EnumerateRelease(h) => var _ := ReleaseRef(h);
        case Destroy(s) => Destroy(s);
      }
    }

    /** What the other threads do meanwhile: any steps open to them, none of them through `mine`. */
    method Meanwhile(others: seq<Event>, mine: set<nat>)
      requires Valid()
      modifies this
      ensures Valid()
      ensures forall p :: p in mine && p in old(refs) ==> KeepsRef(old(Model()), Model(), p)
      ensures forall p :: old(Gone(Model(), p)) ==> Gone(Model(), p)
    {
      hide Inv, Gone, Next;
      ghost var start := Model();
      RefsAreKept(start);
      for i := 0 to |others|
        invariant Valid()
        invariant forall p :: p in mine && p in start.refs ==> KeepsRef(start, Model(), p)
        invariant forall p :: Gone(start, p) ==> Gone(Model(), p)
      {
        if Enabled(Model(), others[i]) && Acts(others[i]) !! mine {
          NextFramed(Model(), others[i]);
          Perform(others[i]);
        }
      }
    }
  }
}

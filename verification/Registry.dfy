/** The table of live receive sessions, shared by all threads (src/receive-session.c:469-603).

    Each critical section under the table's or a session's lock is one atomic step; `subscribe` and
    `unsubscribe` take two, so they are two steps with anything in between. Addresses are identities
    that are never handed out twice, and a freed session is no longer in `heap`. */
module Registry {
  import opened Common
  import opened Token

  datatype Session = Session(token: string, refcount: int, subs: seq<nat>)

  /** What a thread may hold: a handle from `get` or an enumeration, a subscription, or one of the
      half-done calls. A thread inside `subscribe` keeps the handle it passed. */
  datatype Ref =
    | Held(session: nat)
    | Lending(session: nat, sub: nat)
    | Subscribed(session: nat)
    | Leaving(session: nat)
    | Snapshot(session: nat)

  /** `refs` is what all threads together hold, by the identity of the handle or subscription.
      `doomed` are the sessions unlinked from the table and not yet destroyed, `freed` the destroyed
      ones in order. */
  datatype Sys = Sys(
    table: seq<nat>, heap: map<nat, Session>, nextSession: nat,
    refs: map<nat, Ref>, nextRef: nat,
    doomed: set<nat>, freed: seq<nat>)

  const EMPTY := Sys([], map[], 0, map[], 0, {}, [])

  // ----- steps -----

  function Remove(s: seq<nat>, x: nat): (r: seq<nat>)
    ensures forall y :: y in r ==> y in s
    ensures forall y :: y in s && y != x ==> y in r
  {
    if s == [] then [] else if s[0] == x then s[1..] else [s[0]] + Remove(s[1..], x)
  }

  lemma {:induction false} RemoveNoDup(s: seq<nat>, x: nat)
    requires NoDup(s)
    ensures NoDup(Remove(s, x)) && x !in Remove(s, x)
  {
    if s != [] && s[0] != x {
      RemoveNoDup(s[1..], x);
      assert s[0] !in Remove(s[1..], x);
    }
  }

  predicate NoDup(s: seq<nat>) {
    forall i, j :: 0 <= i < j < |s| ==> s[i] != s[j]
  }

  /** The table's entry for a token; every entry must be allocated memory. */
  function Find(table: seq<nat>, heap: map<nat, Session>, token: string): (r: Option<nat>)
    requires forall s :: s in table ==> s in heap
    ensures r.Some? ==> r.value in table && heap[r.value].token == token
    ensures r.None? ==> forall s :: s in table ==> heap[s].token != token
  {
    if table == [] then None
    else if heap[table[0]].token == token then Some(table[0])
    else Find(table[1..], heap, token)
  }

  /** One more reference to a session that is in the table. */
  function AddRef(sys: Sys, r: Ref): Sys
    requires r.session in sys.heap
  {
    var s := sys.heap[r.session];
    sys.(heap := sys.heap[r.session := s.(refcount := s.refcount + 1)],
         refs := sys.refs[sys.nextRef := r],
         nextRef := sys.nextRef + 1)
  }

  /** `release`: the reference `p` is given up; the last one unlinks the session. */
  function DropRef(sys: Sys, p: nat): Sys
    requires p in sys.refs && sys.refs[p].session in sys.heap
  {
    var id := sys.refs[p].session;
    var s := sys.heap[id];
    var sys' := sys.(heap := sys.heap[id := s.(refcount := s.refcount - 1)], refs := sys.refs - {p});
    if s.refcount - 1 <= 0 then sys'.(table := Remove(sys.table, id), doomed := sys.doomed + {id}) else sys'
  }

  /** A new session with its first handle. */
  function Create(sys: Sys, token: string): Sys {
    sys.(table := sys.table + [sys.nextSession],
         heap := sys.heap[sys.nextSession := Session(token, 1, [])],
         nextSession := sys.nextSession + 1,
         refs := sys.refs[sys.nextRef := Held(sys.nextSession)],
         nextRef := sys.nextRef + 1)
  }

  /** First half of `subscribe` on handle `h`: the new subscription is listed. */
  function Push(sys: Sys, h: nat): Sys
    requires h in sys.refs && sys.refs[h].session in sys.heap
  {
    var id := sys.refs[h].session;
    var s := sys.heap[id];
    sys.(heap := sys.heap[id := s.(subs := s.subs + [sys.nextRef])],
         refs := sys.refs[h := Lending(id, sys.nextRef)],
         nextRef := sys.nextRef + 1)
  }

  /** Second half: its reference is counted. */
  function Bump(sys: Sys, h: nat): Sys
    requires h in sys.refs && sys.refs[h].Lending? && sys.refs[h].session in sys.heap
  {
    var id := sys.refs[h].session;
    var s := sys.heap[id];
    sys.(heap := sys.heap[id := s.(refcount := s.refcount + 1)],
         refs := sys.refs[h := Held(id)][sys.refs[h].sub := Subscribed(id)])
  }

  /** First half of `unsubscribe`; the second is `DropRef`. */
  function Erase(sys: Sys, sub: nat): Sys
    requires sub in sys.refs && sys.refs[sub].session in sys.heap
  {
    var id := sys.refs[sub].session;
    var s := sys.heap[id];
    sys.(heap := sys.heap[id := s.(subs := Remove(s.subs, sub))], refs := sys.refs[sub := Leaving(id)])
  }

  /** The memory of an unlinked session is freed, with whatever subscriptions it still lists. */
  function Free(sys: Sys, id: nat): Sys {
    sys.(heap := sys.heap - {id}, doomed := sys.doomed - {id}, freed := sys.freed + [id])
  }

  /** The snapshot of `enumerate`: one reference per table entry. */
  function SnapshotAll(sys: Sys, ids: seq<nat>): (sys': Sys)
    requires forall s :: s in ids ==> s in sys.heap
    ensures sys'.heap.Keys == sys.heap.Keys
    decreases |ids|
  {
    if ids == [] then sys else AddRef(SnapshotAll(sys, ids[..|ids| - 1]), Snapshot(ids[|ids| - 1]))
  }

  /** The steps of all threads. A session is only created for a token the normaliser accepts, and
      only if the connection and signaling objects could be (`ok`). */
  datatype Event =
    | Get(token: string, ok: bool)
    | Release(h: nat)
    | SubscribePush(h: nat)
    | SubscribeBump(h: nat)
    | UnsubscribeErase(sub: nat)
    | UnsubscribeRelease(sub: nat)
    | EnumerateSnapshot
    | EnumerateRelease(h: nat)
    | Destroy(session: nat)

  /** A step needs the reference it acts through, and nothing else. */
  predicate Enabled(sys: Sys, e: Event) {
    match e
    case Get(_, _) => true
    case Release(h) => h in sys.refs && sys.refs[h].Held?
    case SubscribePush(h) => h in sys.refs && sys.refs[h].Held?
    case SubscribeBump(h) => h in sys.refs && sys.refs[h].Lending?
    case UnsubscribeErase(sub) => sub in sys.refs && sys.refs[sub].Subscribed?
    case UnsubscribeRelease(sub) => sub in sys.refs && sys.refs[sub].Leaving?
    case EnumerateSnapshot => true
    case EnumerateRelease(h) => h in sys.refs && sys.refs[h].Snapshot?
    case Destroy(s) => s in sys.doomed
  }

  predicate Creatable(token: string, ok: bool) {
    ok && MatchesRegex(Normal(token, TOKEN_BUF))
  }

  /** What the step touches is allocated memory. */
  predicate Defined(sys: Sys, e: Event)
    requires Enabled(sys, e)
  {
    match e
    case Get(_, _) => forall s :: s in sys.table ==> s in sys.heap
    case Release(h) => sys.refs[h].session in sys.heap
    case SubscribePush(h) => sys.refs[h].session in sys.heap
    case SubscribeBump(h) => sys.refs[h].session in sys.heap
    case UnsubscribeErase(sub) => sys.refs[sub].session in sys.heap
    case UnsubscribeRelease(sub) => sys.refs[sub].session in sys.heap
    case EnumerateSnapshot => forall s :: s in sys.table ==> s in sys.heap
    case EnumerateRelease(h) => sys.refs[h].session in sys.heap
    case Destroy(s) => s in sys.heap
  }

  function Act(sys: Sys, e: Event): Sys
    requires Enabled(sys, e) && Defined(sys, e)
  {
    match e
    case Get(token, ok) =>
      if token == "" then sys
      else (match Find(sys.table, sys.heap, token)
            case Some(s) => AddRef(sys, Held(s))
            case None => if Creatable(token, ok) then Create(sys, token) else sys)
    case Release(h) => DropRef(sys, h)
    case SubscribePush(h) => Push(sys, h)
    case SubscribeBump(h) => Bump(sys, h)
    case UnsubscribeErase(sub) => Erase(sys, sub)
    case UnsubscribeRelease(sub) => DropRef(sys, sub)
    case EnumerateSnapshot => SnapshotAll(sys, sys.table)
    case EnumerateRelease(h) => DropRef(sys, h)
    case Destroy(s) => Free(sys, s)
  }

  /** A step under the invariant, where all steps are defined. */
  ghost function Next(sys: Sys, e: Event): Sys
    requires Inv(sys) && Enabled(sys, e)
  {
    InvDefined(sys, e);
    Act(sys, e)
  }

  // ----- the invariant -----

  function RefsTo(refs: map<nat, Ref>, s: nat): set<nat> {
    set p | p in refs && refs[p].session == s
  }

  /** `x` is a subscription of `s`, counted or still being counted. */
  ghost predicate Listed(refs: map<nat, Ref>, s: nat, x: nat) {
    (x in refs && refs[x] == Subscribed(s)) || (exists p :: p in refs && refs[p] == Lending(s, x))
  }

  ghost predicate TableInv(sys: Sys) {
    && NoDup(sys.table)
    && (forall s :: s in sys.heap <==> s in sys.table || s in sys.doomed)
    && (forall s :: s in sys.table ==> s !in sys.doomed)
    && (forall s, t :: s in sys.table && t in sys.table && s != t ==> sys.heap[s].token != sys.heap[t].token)
  }

  /** The memory discipline: identities are not reused and freed sessions stay freed. */
  ghost predicate MemoryInv(sys: Sys) {
    && (forall s :: s in sys.heap ==> s < sys.nextSession)
    && (forall s :: s in sys.freed ==> s < sys.nextSession && s !in sys.heap)
    && NoDup(sys.freed)
    && (forall s :: s in sys.doomed ==> s in sys.heap && sys.heap[s].subs == [])
  }

  /** References point into the table, and half-done subscriptions have identities of their own. */
  ghost predicate RefsInv(sys: Sys) {
    && (forall p :: p in sys.refs ==> p < sys.nextRef && sys.refs[p].session in sys.table)
    && (forall p :: p in sys.refs && sys.refs[p].Lending? ==>
          sys.refs[p].sub < sys.nextRef && sys.refs[p].sub !in sys.refs)
    && (forall p, q :: p in sys.refs && q in sys.refs && p != q && sys.refs[p].Lending? && sys.refs[q].Lending? ==>
          sys.refs[p].sub != sys.refs[q].sub)
  }

  ghost predicate Shape(sys: Sys) {
    TableInv(sys) && MemoryInv(sys) && RefsInv(sys)
  }

  /** A session's count is the number of references to it, and its list is its subscriptions. */
  ghost predicate Accounted(session: Session, refs: map<nat, Ref>, s: nat) {
    && session.refcount == |RefsTo(refs, s)| > 0
    && NoDup(session.subs)
    && forall x :: x in session.subs <==> Listed(refs, s, x)
  }

  ghost predicate Inv(sys: Sys) {
    && Shape(sys)
    && forall s :: s in sys.table ==> Accounted(sys.heap[s], sys.refs, s)
  }

  lemma InvDefined(sys: Sys, e: Event)
    requires Inv(sys) && Enabled(sys, e)
    ensures Defined(sys, e)
  {
    hide Accounted;
  }

  // ----- counting -----

  lemma RefsAdded(refs: map<nat, Ref>, p: nat, r: Ref, s: nat)
    requires p !in refs
    ensures |RefsTo(refs[p := r], s)| == |RefsTo(refs, s)| + if r.session == s then 1 else 0
  {
    var now := RefsTo(refs[p := r], s);
    assert now == RefsTo(refs, s) + if r.session == s then {p} else {};
  }

  lemma RefsDropped(refs: map<nat, Ref>, p: nat, s: nat)
    requires p in refs
    ensures |RefsTo(refs - {p}, s)| == |RefsTo(refs, s)| - if refs[p].session == s then 1 else 0
  {
    assert RefsTo(refs - {p}, s) == RefsTo(refs, s) - {p};
    assert refs[p].session == s ==> p in RefsTo(refs, s);
  }

  lemma RefsRetagged(refs: map<nat, Ref>, p: nat, r: Ref, s: nat)
    requires p in refs && refs[p].session == r.session
    ensures RefsTo(refs[p := r], s) == RefsTo(refs, s)
  {}

  // ----- one session's account under each step -----

  /** Handles and snapshots list nothing. */
  lemma ListedSame(refs: map<nat, Ref>, refs': map<nat, Ref>, p: nat, s: nat)
    requires forall q :: q != p ==> (q in refs <==> q in refs') && (q in refs ==> refs[q] == refs'[q])
    requires p in refs ==> !(refs[p].session == s && (refs[p].Subscribed? || refs[p].Lending?))
    requires p in refs' ==> !(refs'[p].session == s && (refs'[p].Subscribed? || refs'[p].Lending?))
    ensures forall x :: Listed(refs, s, x) <==> Listed(refs', s, x)
  {
    forall x ensures Listed(refs, s, x) <==> Listed(refs', s, x) {
      if q :| q in refs && refs[q] == Lending(s, x) {
        assert q in refs' && refs'[q] == Lending(s, x);
      }
      if q :| q in refs' && refs'[q] == Lending(s, x) {
        assert q in refs && refs[q] == Lending(s, x);
      }
    }
  }

  lemma AccountOfAdded(session: Session, refs: map<nat, Ref>, p: nat, r: Ref, s: nat)
    requires Accounted(session, refs, s) && p !in refs && (r.Held? || r.Snapshot?)
    ensures Accounted(if r.session == s then session.(refcount := session.refcount + 1) else session, refs[p := r], s)
  {
    RefsAdded(refs, p, r, s);
    ListedSame(refs, refs[p := r], p, s);
  }

  lemma AccountOfDropped(session: Session, refs: map<nat, Ref>, p: nat, s: nat)
    requires Accounted(session, refs, s) && p in refs && !refs[p].Subscribed? && !refs[p].Lending?
    requires refs[p].session == s ==> session.refcount > 1
    ensures Accounted(if refs[p].session == s then session.(refcount := session.refcount - 1) else session, refs - {p}, s)
  {
    RefsDropped(refs, p, s);
    ListedSame(refs, refs - {p}, p, s);
  }

  lemma AccountOfPushed(session: Session, refs: map<nat, Ref>, h: nat, sub: nat, s: nat)
    requires Accounted(session, refs, s) && h in refs && refs[h].Held? && !Listed(refs, s, sub)
    ensures var id := refs[h].session;
            Accounted(if id == s then session.(subs := session.subs + [sub]) else session, refs[h := Lending(id, sub)], s)
  {
    var id := refs[h].session;
    var refs' := refs[h := Lending(id, sub)];
    RefsRetagged(refs, h, Lending(id, sub), s);
    forall x ensures Listed(refs', s, x) <==> Listed(refs, s, x) || (s == id && x == sub) {
      if q :| q in refs && refs[q] == Lending(s, x) {
        assert q in refs' && refs'[q] == Lending(s, x);
      }
      if q :| q in refs' && refs'[q] == Lending(s, x) {
        assert q == h || refs[q] == Lending(s, x);
      }
      assert refs'[h] == Lending(id, sub);
    }
  }

  lemma AccountOfBumped(session: Session, refs: map<nat, Ref>, h: nat, s: nat)
    requires Accounted(session, refs, s) && h in refs && refs[h].Lending? && refs[h].sub !in refs
    ensures var id := refs[h].session;
            Accounted(if id == s then session.(refcount := session.refcount + 1) else session,
                      refs[h := Held(id)][refs[h].sub := Subscribed(id)], s)
  {
    var id := refs[h].session;
    var sub := refs[h].sub;
    var refs' := refs[h := Held(id)][sub := Subscribed(id)];
    RefsRetagged(refs, h, Held(id), s);
    RefsAdded(refs[h := Held(id)], sub, Subscribed(id), s);
    forall x ensures Listed(refs', s, x) <==> Listed(refs, s, x) {
      if q :| q in refs && refs[q] == Lending(s, x) {
        assert if q == h then refs'[x] == Subscribed(s) else q in refs' && refs'[q] == Lending(s, x);
      }
      if q :| q in refs' && refs'[q] == Lending(s, x) {
        assert refs[q] == Lending(s, x);
      }
      if x in refs' && refs'[x] == Subscribed(s) && x == sub {
        assert refs[h] == Lending(s, x);
      }
    }
  }

  lemma AccountOfErased(session: Session, refs: map<nat, Ref>, sub: nat, s: nat)
    requires Accounted(session, refs, s) && sub in refs && refs[sub].Subscribed?
    requires forall q :: q in refs && refs[q].Lending? ==> refs[q].sub != sub
    ensures var id := refs[sub].session;
            Accounted(if id == s then session.(subs := Remove(session.subs, sub)) else session, refs[sub := Leaving(id)], s)
  {
    var id := refs[sub].session;
    var refs' := refs[sub := Leaving(id)];
    RefsRetagged(refs, sub, Leaving(id), s);
    RemoveNoDup(session.subs, sub);
    forall x ensures Listed(refs', s, x) <==> Listed(refs, s, x) && !(s == id && x == sub) {
      if q :| q in refs && refs[q] == Lending(s, x) {
        assert q in refs' && refs'[q] == Lending(s, x);
      }
      if q :| q in refs' && refs'[q] == Lending(s, x) {
        assert refs[q] == Lending(s, x);
      }
    }
  }

  lemma AccountOfCreated(token: string, refs: map<nat, Ref>, p: nat, id: nat)
    requires p !in refs && forall q :: q in refs ==> refs[q].session != id
    ensures Accounted(Session(token, 1, []), refs[p := Held(id)], id)
  {
    RefsAdded(refs, p, Held(id), id);
    assert RefsTo(refs, id) == {};
  }

  /** When the last reference goes, no other is left and no subscription is listed. */
  lemma LastRefGone(session: Session, refs: map<nat, Ref>, p: nat)
    requires p in refs && !refs[p].Subscribed? && !refs[p].Lending?
    requires Accounted(session, refs, refs[p].session) && session.refcount == 1
    ensures forall q :: q in refs && q != p ==> refs[q].session != refs[p].session
    ensures session.subs == []
  {
    var id := refs[p].session;
    var all := RefsTo(refs, id);
    assert p in all && |all - {p}| == 0;
    forall q | q in refs && q != p ensures refs[q].session != id {
      assert q !in all - {p};
    }
    if session.subs != [] {
      assert Listed(refs, id, session.subs[0]);
    }
  }

  // ----- every step keeps the invariant -----

  lemma ListedIsAllocated(sys: Sys)
    requires Shape(sys)
    ensures forall s :: s in sys.table ==> s in sys.heap
    ensures forall p :: p in sys.refs ==> sys.refs[p].session in sys.table
    ensures sys.nextRef !in sys.refs && forall s :: !Listed(sys.refs, s, sys.nextRef)
  {}

  /** Changing the count or the list of a session in the table leaves table and memory in order. */
  lemma SessionUpdated(sys: Sys, sys': Sys, id: nat, s: Session)
    requires TableInv(sys) && MemoryInv(sys) && id in sys.table && s.token == sys.heap[id].token
    requires sys' == sys.(heap := sys.heap[id := s], refs := sys'.refs, nextRef := sys'.nextRef)
    ensures TableInv(sys') && MemoryInv(sys')
  {}

  lemma InvAllocates(sys: Sys)
    requires Inv(sys)
    ensures forall s :: s in sys.table ==> s in sys.heap
  {
    hide Accounted;
  }

  lemma AddRefShape(sys: Sys, r: Ref)
    requires Shape(sys) && r.session in sys.table && (r.Held? || r.Snapshot?)
    ensures Shape(AddRef(sys, r))
  {
    hide TableInv, MemoryInv;
    ListedIsAllocated(sys);
    var sys' := AddRef(sys, r);
    SessionUpdated(sys, sys', r.session, sys'.heap[r.session]);
  }

  lemma AddRefKeeps(sys: Sys, r: Ref)
    requires Inv(sys) && r.session in sys.table && (r.Held? || r.Snapshot?)
    ensures Inv(AddRef(sys, r))
  {
    hide Accounted, TableInv, MemoryInv;
    ListedIsAllocated(sys);
    AddRefShape(sys, r);
    var sys' := AddRef(sys, r);
    forall s | s in sys'.table ensures Accounted(sys'.heap[s], sys'.refs, s) {
      AccountOfAdded(sys.heap[s], sys.refs, sys.nextRef, r, s);
    }
  }

  lemma CreateKeeps(sys: Sys, token: string)
    requires Inv(sys) && Find(sys.table, sys.heap, token).None?
    ensures Inv(Create(sys, token))
  {
    hide Accounted;
    var sys' := Create(sys, token);
    CreateShape(sys, token);
    forall s | s in sys'.table ensures Accounted(sys'.heap[s], sys'.refs, s) {
      if s == sys.nextSession {
        AccountOfCreated(token, sys.refs, sys.nextRef, s);
      } else {
        AccountOfAdded(sys.heap[s], sys.refs, sys.nextRef, Held(sys.nextSession), s);
      }
    }
  }

  lemma CreateTable(sys: Sys, token: string)
    requires TableInv(sys) && MemoryInv(sys) && Find(sys.table, sys.heap, token).None?
    ensures TableInv(Create(sys, token)) && sys.nextSession !in sys.table
  {
    var sys' := Create(sys, token);
    assert sys.nextSession !in sys.heap;
    assert forall s :: s in sys'.table <==> s in sys.table || s == sys.nextSession;
    assert NoDup(sys'.table);
  }

  lemma CreateShape(sys: Sys, token: string)
    requires Shape(sys) && Find(sys.table, sys.heap, token).None?
    ensures Shape(Create(sys, token))
  {
    hide TableInv;
    CreateTable(sys, token);
  }

  lemma DropRefKeeps(sys: Sys, p: nat)
    requires Inv(sys) && p in sys.refs && !sys.refs[p].Subscribed? && !sys.refs[p].Lending?
    ensures Inv(DropRef(sys, p))
  {
    hide Accounted, TableInv, MemoryInv, RefsInv, DropRef;
    ListedIsAllocated(sys);
    var sys' := DropRef(sys, p);
    DropRefShape(sys, p);
    DropRefTable(sys, p);
    forall s | s in sys'.table ensures Accounted(sys'.heap[s], sys'.refs, s) {
      AccountOfDropped(sys.heap[s], sys.refs, p, s);
    }
  }

  /** What is still in the table afterwards had another reference, or was another session. */
  lemma DropRefTable(sys: Sys, p: nat)
    requires Inv(sys) && p in sys.refs
    ensures var sys' := DropRef(sys, p); var id := sys.refs[p].session;
            && id in sys.heap && sys.heap[id].refcount > 0 && sys'.refs == sys.refs - {p}
            && forall s :: s in sys'.table ==>
                 && s in sys.table && s in sys.heap && s in sys'.heap && (s == id ==> sys.heap[s].refcount > 1)
                 && sys'.heap[s] == if s == id then sys.heap[s].(refcount := sys.heap[s].refcount - 1) else sys.heap[s]
  {
    var id := sys.refs[p].session;
    assert Accounted(sys.heap[id], sys.refs, id);
    RemoveNoDup(sys.table, id);
  }

  lemma DropRefShape(sys: Sys, p: nat)
    requires Inv(sys) && p in sys.refs && !sys.refs[p].Subscribed? && !sys.refs[p].Lending?
    ensures Shape(DropRef(sys, p))
  {
    var id := sys.refs[p].session;
    var sys' := DropRef(sys, p);
    assert sys.heap[id].refcount > 0;
    if sys.heap[id].refcount == 1 {
      LastRefGone(sys.heap[id], sys.refs, p);
      UnlinkShape(sys, p);
    } else {
      SessionUpdated(sys, sys', id, sys'.heap[id]);
      hide TableInv, MemoryInv;
    }
  }

  lemma UnlinkShape(sys: Sys, p: nat)
    requires Shape(sys) && p in sys.refs && !sys.refs[p].Subscribed? && !sys.refs[p].Lending?
    requires var s := sys.heap[sys.refs[p].session]; s.refcount == 1 && s.subs == []
    requires forall q :: q in sys.refs && q != p ==> sys.refs[q].session != sys.refs[p].session
    ensures Shape(DropRef(sys, p))
  {
    var sys' := DropRef(sys, p);
    RemoveNoDup(sys.table, sys.refs[p].session);
    assert forall s :: s in sys'.table <==> s in sys.table && s != sys.refs[p].session;
    assert TableInv(sys');
    assert MemoryInv(sys');
  }

  lemma PushShape(sys: Sys, h: nat)
    requires Shape(sys) && h in sys.refs && sys.refs[h].Held?
    ensures Shape(Push(sys, h))
  {
    hide TableInv, MemoryInv;
    ListedIsAllocated(sys);
    var sys' := Push(sys, h);
    SessionUpdated(sys, sys', sys.refs[h].session, sys'.heap[sys.refs[h].session]);
  }

  lemma PushKeeps(sys: Sys, h: nat)
    requires Inv(sys) && h in sys.refs && sys.refs[h].Held?
    ensures Inv(Push(sys, h))
  {
    hide Accounted, Listed;
    ListedIsAllocated(sys);
    PushShape(sys, h);
    var sys' := Push(sys, h);
    forall s | s in sys'.table ensures Accounted(sys'.heap[s], sys'.refs, s) {
      AccountOfPushed(sys.heap[s], sys.refs, h, sys.nextRef, s);
    }
  }

  lemma BumpShape(sys: Sys, h: nat)
    requires Shape(sys) && h in sys.refs && sys.refs[h].Lending?
    ensures Shape(Bump(sys, h))
  {
    hide TableInv, MemoryInv;
    ListedIsAllocated(sys);
    var sys' := Bump(sys, h);
    SessionUpdated(sys, sys', sys.refs[h].session, sys'.heap[sys.refs[h].session]);
  }

  lemma BumpKeeps(sys: Sys, h: nat)
    requires Inv(sys) && h in sys.refs && sys.refs[h].Lending?
    ensures Inv(Bump(sys, h))
  {
    hide Accounted, TableInv, MemoryInv;
    ListedIsAllocated(sys);
    BumpShape(sys, h);
    var sys' := Bump(sys, h);
    forall s | s in sys'.table ensures Accounted(sys'.heap[s], sys'.refs, s) {
      AccountOfBumped(sys.heap[s], sys.refs, h, s);
    }
  }

  lemma EraseShape(sys: Sys, sub: nat)
    requires Shape(sys) && sub in sys.refs && sys.refs[sub].Subscribed?
    ensures Shape(Erase(sys, sub))
  {
    hide TableInv, MemoryInv;
    ListedIsAllocated(sys);
    var sys' := Erase(sys, sub);
    SessionUpdated(sys, sys', sys.refs[sub].session, sys'.heap[sys.refs[sub].session]);
  }

  lemma EraseKeeps(sys: Sys, sub: nat)
    requires Inv(sys) && sub in sys.refs && sys.refs[sub].Subscribed?
    ensures Inv(Erase(sys, sub))
  {
    hide Accounted, TableInv, MemoryInv;
    ListedIsAllocated(sys);
    EraseShape(sys, sub);
    var sys' := Erase(sys, sub);
    forall s | s in sys'.table ensures Accounted(sys'.heap[s], sys'.refs, s) {
      AccountOfErased(sys.heap[s], sys.refs, sub, s);
    }
  }

  lemma FreeKeeps(sys: Sys, id: nat)
    requires Inv(sys) && id in sys.doomed
    ensures Inv(Free(sys, id))
  {
    hide Accounted;
  }

  lemma {:induction false} SnapshotKeeps(sys: Sys, ids: seq<nat>)
    requires Inv(sys) && forall s :: s in ids ==> s in sys.table
    ensures Inv(SnapshotAll(sys, ids)) && SnapshotAll(sys, ids).table == sys.table
    ensures SnapshotAll(sys, ids).nextRef == sys.nextRef + |ids|
    decreases |ids|
  {
    if ids != [] {
      SnapshotKeeps(sys, ids[..|ids| - 1]);
      AddRefKeeps(SnapshotAll(sys, ids[..|ids| - 1]), Snapshot(ids[|ids| - 1]));
    }
  }

  /** Every enabled step of every thread keeps the invariant. */
  lemma NextKeeps(sys: Sys, e: Event)
    requires Inv(sys) && Enabled(sys, e)
    ensures Inv(Next(sys, e))
  {
    match e
    case Get(token, ok) =>
      if token != "" {
        match Find(sys.table, sys.heap, token)
        case Some(s) => AddRefKeeps(sys, Held(s));
        case None => if Creatable(token, ok) { CreateKeeps(sys, token); }
      }
    case Release(h) => DropRefKeeps(sys, h);
    case SubscribePush(h) => PushKeeps(sys, h);
    case SubscribeBump(h) => BumpKeeps(sys, h);
    case UnsubscribeErase(sub) => EraseKeeps(sys, sub);
    case UnsubscribeRelease(sub) => DropRefKeeps(sys, sub);
    case EnumerateSnapshot => SnapshotKeeps(sys, sys.table);
    case EnumerateRelease(h) => DropRefKeeps(sys, h);
    case Destroy(s) => FreeKeeps(sys, s);
  }
}

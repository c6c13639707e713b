/** What every interleaving of the registry's steps guarantees. */
module RegistryRuns {
  import opened Registry

  /** `trace` is a possible order of the steps of all threads, leading from `sys` to `end`, as long as no step
      touches memory that is not allocated. */
  ghost predicate Runs(sys: Sys, trace: seq<Event>, end: Sys)
    decreases |trace|
  {
    if trace == [] then sys == end
    else Enabled(sys, trace[0]) && Defined(sys, trace[0]) && Runs(Act(sys, trace[0]), trace[1..], end)
  }

  /** Main result: whatever the threads do, in every reachable state the counts, lists, table and memory
      agree, and every step a thread may take next touches allocated memory only. */
  lemma {:induction false} ReachableIsSafe(sys: Sys, trace: seq<Event>, end: Sys)
    requires Inv(sys) && Runs(sys, trace, end)
    ensures Inv(end) && forall e :: Enabled(end, e) ==> Defined(end, e)
    decreases |trace|
  {
    hide Inv, Act, Defined, Enabled;
    if trace != [] {
      NextKeeps(sys, trace[0]);
      ReachableIsSafe(Act(sys, trace[0]), trace[1..], end);
    } else {
      forall e | Enabled(end, e) ensures Defined(end, e) {
        InvDefined(end, e);
      }
    }
  }

  lemma EmptyIsSafe()
    ensures Inv(EMPTY)
  {}

  /** Conversely no thread is ever stuck: whoever holds a reference can take its next step at once. */
  lemma StepsCompose(sys: Sys, trace: seq<Event>, mid: Sys, e: Event)
    requires Inv(sys) && Runs(sys, trace, mid) && Enabled(mid, e)
    ensures Defined(mid, e) && Runs(sys, trace + [e], Act(mid, e))
    decreases |trace|
  {
    hide Inv, Act, Defined, Enabled;
    if trace == [] {
      InvDefined(mid, e);
      assert (trace + [e])[1..] == [];
    } else {
      NextKeeps(sys, trace[0]);
      assert (trace + [e])[1..] == trace[1..] + [e];
      StepsCompose(Act(sys, trace[0]), trace[1..], mid, e);
    }
  }

  // ----- conservation, by kind -----

  function Handles(refs: map<nat, Ref>, s: nat): set<nat> { set p | p in refs && refs[p] == Held(s) }
  function Lent(refs: map<nat, Ref>, s: nat): set<nat> { set p | p in refs && refs[p].Lending? && refs[p].session == s }
  function Subscriptions(refs: map<nat, Ref>, s: nat): set<nat> { set p | p in refs && refs[p] == Subscribed(s) }
  function HalfGone(refs: map<nat, Ref>, s: nat): set<nat> { set p | p in refs && refs[p] == Leaving(s) }
  function Snapshots(refs: map<nat, Ref>, s: nat): set<nat> { set p | p in refs && refs[p] == Snapshot(s) }

  lemma KindsPartition(refs: map<nat, Ref>, s: nat)
    ensures |RefsTo(refs, s)|
         == |Handles(refs, s)| + |Lent(refs, s)| + |Subscriptions(refs, s)| + |HalfGone(refs, s)| + |Snapshots(refs, s)|
  {
    var a, b, c := Handles(refs, s), Lent(refs, s), Subscriptions(refs, s);
    var d, e := HalfGone(refs, s), Snapshots(refs, s);
    assert RefsTo(refs, s) == a + b + c + d + e;
    assert |a + b| == |a| + |b| && |a + b + c| == |a + b| + |c|;
    assert |a + b + c + d| == |a + b + c| + |d| && |a + b + c + d + e| == |a + b + c + d| + |e|;
  }

  lemma {:induction false} ListSize(subs: seq<nat>, members: set<nat>)
    requires NoDup(subs) && forall x :: x in subs <==> x in members
    ensures |subs| == |members|
    decreases |subs|
  {
    if subs == [] {
      assert members == {};
    } else {
      var rest := subs[1..];
      forall x ensures x in rest <==> x in members - {subs[0]} {
        assert x in subs <==> x == subs[0] || x in rest;
      }
      ListSize(rest, members - {subs[0]});
    }
  }

  /** The subscriptions still being counted have as many identities as calls. */
  lemma {:induction false} LentSubs(refs: map<nat, Ref>, lent: set<nat>) returns (subs: set<nat>)
    requires forall p :: p in lent ==> p in refs && refs[p].Lending?
    requires forall p, q :: p in lent && q in lent && p != q ==> refs[p].sub != refs[q].sub
    ensures |subs| == |lent| && forall x :: x in subs <==> exists p :: p in lent && refs[p].sub == x
    decreases |lent|
  {
    if lent == {} {
      subs := {};
    } else {
      var p :| p in lent;
      var rest := LentSubs(refs, lent - {p});
      subs := rest + {refs[p].sub};
      assert refs[p].sub !in rest;
    }
  }

  /** A listed session's subscriptions are the counted ones and the ones whose call is half done. */
  lemma SubscriptionsListed(sys: Sys, s: nat)
    requires Inv(sys) && s in sys.table
    ensures |sys.heap[s].subs| == |Subscriptions(sys.refs, s)| + |Lent(sys.refs, s)|
  {
    var refs := sys.refs;
    assert Accounted(sys.heap[s], refs, s);
    var pending := LentSubs(refs, Lent(refs, s));
    forall x ensures x in sys.heap[s].subs <==> x in Subscriptions(refs, s) + pending {
      if p :| p in refs && refs[p] == Lending(s, x) {
        assert p in Lent(refs, s);
      }
    }
    assert Subscriptions(refs, s) !! pending;
    ListSize(sys.heap[s].subs, Subscriptions(refs, s) + pending);
  }

  /** Conservation: a live session's count is its free handles, its listed subscriptions, the
      unsubscribes that have not released yet and the snapshot entries, whatever is half done. */
  lemma RefcountConserved(sys: Sys, s: nat)
    requires Inv(sys) && s in sys.table
    ensures sys.heap[s].refcount
         == |Handles(sys.refs, s)| + |sys.heap[s].subs| + |HalfGone(sys.refs, s)| + |Snapshots(sys.refs, s)|
  {
    assert Accounted(sys.heap[s], sys.refs, s);
    SubscriptionsListed(sys, s);
    KindsPartition(sys.refs, s);
  }

  lemma LiveIsReferenced(sys: Sys, s: nat)
    requires Inv(sys) && s in sys.table
    ensures exists p :: p in sys.refs && sys.refs[p].session == s
  {
    assert Accounted(sys.heap[s], sys.refs, s);
    var p :| p in RefsTo(sys.refs, s);
  }

  /** Nothing leaks: when no thread holds anything the table is empty, and once the unlinked sessions
      are destroyed no session is left in memory. */
  lemma NothingLeaks(sys: Sys)
    requires Inv(sys) && sys.refs == map[]
    ensures sys.table == [] && (sys.doomed == {} ==> sys.heap == map[])
  {
    if sys.table != [] {
      LiveIsReferenced(sys, sys.table[0]);
    }
    if sys.doomed == {} {
      assert forall s :: s !in sys.heap;
    }
  }

  // ----- what an enumeration holds -----

  /** The new references of an enumeration: one of its own for every entry, in order, and nothing else. */
  ghost predicate OneEach(refs: map<nat, Ref>, first: nat, ids: seq<nat>, refs': map<nat, Ref>) {
    && (forall p :: p in refs' <==> p in refs || first <= p < first + |ids|)
    && (forall p :: p in refs ==> refs'[p] == refs[p])
    && (forall i :: 0 <= i < |ids| ==> first + i in refs' && refs'[first + i] == Snapshot(ids[i]))
  }

  lemma {:induction false} SnapshotRefs(sys: Sys, ids: seq<nat>)
    requires (forall s :: s in ids ==> s in sys.heap) && forall p :: p in sys.refs ==> p < sys.nextRef
    ensures var next := SnapshotAll(sys, ids);
            OneEach(sys.refs, sys.nextRef, ids, next.refs) && next.nextRef == sys.nextRef + |ids| && next.table == sys.table
    decreases |ids|
  {
    hide OneEach;
    if ids == [] {
      NoneEach(sys.refs, sys.nextRef);
    } else {
      var init := ids[..|ids| - 1];
      SnapshotRefs(sys, init);
      OneEachNext(sys.refs, sys.nextRef, init, SnapshotAll(sys, init).refs, ids[|ids| - 1]);
      assert ids == init + [ids[|ids| - 1]];
    }
  }

  lemma NoneEach(refs: map<nat, Ref>, first: nat)
    ensures OneEach(refs, first, [], refs)
  {}

  lemma OneEachNext(refs: map<nat, Ref>, first: nat, ids: seq<nat>, refs': map<nat, Ref>, id: nat)
    requires OneEach(refs, first, ids, refs') && forall p :: p in refs ==> p < first
    ensures OneEach(refs, first, ids + [id], refs'[first + |ids| := Snapshot(id)])
  {}

  lemma {:induction false} SnapshotHeap(sys: Sys, ids: seq<nat>)
    requires NoDup(ids) && forall s :: s in ids ==> s in sys.heap
    ensures var next := SnapshotAll(sys, ids);
            && next.heap.Keys == sys.heap.Keys && next.freed == sys.freed && next.doomed == sys.doomed
            && forall s :: s in sys.heap ==>
                 next.heap[s] == sys.heap[s].(refcount := sys.heap[s].refcount + if s in ids then 1 else 0)
    decreases |ids|
  {
    if ids != [] {
      var init, last := ids[..|ids| - 1], ids[|ids| - 1];
      SnapshotHeap(sys, init);
      assert last !in init;
      assert forall s :: s in ids <==> s in init || s == last;
    }
  }

  lemma NewAreOfEntries(refs: map<nat, Ref>, first: nat, ids: seq<nat>, refs': map<nat, Ref>)
    requires OneEach(refs, first, ids, refs')
    ensures forall p :: p in refs' && p !in refs ==>
      first <= p < first + |ids| && refs'[p] == Snapshot(ids[p - first]) && refs'[p].session in ids
  {
    forall p | p in refs' && p !in refs ensures refs'[p] == Snapshot(ids[p - first]) && refs'[p].session in ids {
      assert first + (p - first) == p;
    }
  }

  lemma SnapshotsGrow(refs: map<nat, Ref>, refs': map<nat, Ref>, s: nat, extra: set<nat>)
    requires forall p :: p in refs ==> p in refs' && refs'[p] == refs[p]
    requires forall p :: p in extra <==> p in refs' && p !in refs && refs'[p] == Snapshot(s)
    ensures |Snapshots(refs', s)| == |Snapshots(refs, s)| + |extra|
  {
    assert Snapshots(refs', s) == Snapshots(refs, s) + extra;
    assert Snapshots(refs, s) !! extra;
  }

  lemma SnapshotsOfEach(refs: map<nat, Ref>, first: nat, ids: seq<nat>, refs': map<nat, Ref>, s: nat)
    requires OneEach(refs, first, ids, refs') && NoDup(ids) && forall p :: p in refs ==> p < first
    ensures |Snapshots(refs', s)| == |Snapshots(refs, s)| + if s in ids then 1 else 0
  {
    hide Snapshots;
    NewAreOfEntries(refs, first, ids, refs');
    if s in ids {
      var i :| 0 <= i < |ids| && ids[i] == s;
      NewOfEntry(refs, first, ids, refs', i);
      SnapshotsGrow(refs, refs', s, {first + i});
    } else {
      SnapshotsGrow(refs, refs', s, {});
    }
  }

  lemma NewOfEntry(refs: map<nat, Ref>, first: nat, ids: seq<nat>, refs': map<nat, Ref>, i: nat)
    requires OneEach(refs, first, ids, refs') && NoDup(ids) && i < |ids| && forall p :: p in refs ==> p < first
    ensures forall p :: p == first + i <==> p in refs' && p !in refs && refs'[p] == Snapshot(ids[i])
  {
    NewAreOfEntries(refs, first, ids, refs');
    forall p | p in refs' && p !in refs && refs'[p] == Snapshot(ids[i]) ensures p == first + i {
      assert ids[p - first] == ids[i];
    }
    assert first + i in refs' && refs'[first + i] == Snapshot(ids[i]) && first + i !in refs;
  }

  /** An enumeration gives every entry of the table, and no other session, one more reference, which is counted;
      nothing else changes. */
  lemma EnumerationHoldsEach(sys: Sys)
    requires Inv(sys)
    ensures var next := Next(sys, EnumerateSnapshot);
            && OneEach(sys.refs, sys.nextRef, sys.table, next.refs)
            && next.table == sys.table && next.heap.Keys == sys.heap.Keys
            && (forall s :: |Snapshots(next.refs, s)| == |Snapshots(sys.refs, s)| + if s in sys.table then 1 else 0)
            && forall s :: s in sys.heap ==>
                 next.heap[s] == sys.heap[s].(refcount := sys.heap[s].refcount + if s in sys.table then 1 else 0)
  {
    hide Accounted, SnapshotAll, OneEach, Snapshots;
    InvFacts(sys);
    InvDefined(sys, EnumerateSnapshot);
    SnapshotRefs(sys, sys.table);
    SnapshotHeap(sys, sys.table);
    var next := Next(sys, EnumerateSnapshot);
    forall s ensures |Snapshots(next.refs, s)| == |Snapshots(sys.refs, s)| + if s in sys.table then 1 else 0 {
      SnapshotsOfEach(sys.refs, sys.nextRef, sys.table, next.refs, s);
    }
  }

  // ----- interference -----

  /** The references a step acts through. */
  function Acts(e: Event): set<nat> {
    match e
    case Release(h) => {h}
    case SubscribePush(h) => {h}
    case SubscribeBump(h) => {h}
    case UnsubscribeErase(sub) => {sub}
    case UnsubscribeRelease(sub) => {sub}
    case EnumerateRelease(h) => {h}
    case _ => {}
  }

  /** Reference `p`, its session and that session's token are as they were. */
  ghost predicate KeepsRef(sys: Sys, next: Sys, p: nat)
    requires p in sys.refs
  {
    var s := sys.refs[p].session;
    && p in next.refs && next.refs[p] == sys.refs[p]
    && s in sys.heap && s in next.heap && next.heap[s].token == sys.heap[s].token
  }

  /** An identity that was given up and is in no half-done call. */
  ghost predicate Gone(sys: Sys, p: nat) {
    p < sys.nextRef && p !in sys.refs && forall q :: q in sys.refs && sys.refs[q].Lending? ==> sys.refs[q].sub != p
  }

  /** What a step leaves alone: all references but those it acts through, identities that are gone,
      and the freed sessions. */
  ghost predicate Framed(sys: Sys, next: Sys, touched: set<nat>) {
    && (forall p :: p in sys.refs && p !in touched ==> KeepsRef(sys, next, p))
    && (forall p :: Gone(sys, p) ==> Gone(next, p))
    && (forall s :: s in sys.freed ==> s in next.freed)
    && sys.nextRef <= next.nextRef
  }

  /** What the frame of a step rests on. */
  ghost predicate Sound(sys: Sys) {
    && (forall q :: q in sys.refs ==> q < sys.nextRef && sys.refs[q].session in sys.heap)
    && (forall q :: q in sys.refs && sys.refs[q].Lending? ==> sys.refs[q].sub !in sys.refs && sys.refs[q].sub < sys.nextRef)
    && (forall q, r :: q in sys.refs && r in sys.refs && q != r && sys.refs[q].Lending? && sys.refs[r].Lending?
          ==> sys.refs[q].sub != sys.refs[r].sub)
    && (forall t :: t in sys.heap ==> t < sys.nextSession)
  }

  lemma InvFacts(sys: Sys)
    requires Inv(sys)
    ensures Sound(sys)
    ensures forall q :: q in sys.refs ==> sys.refs[q].session in sys.table && sys.refs[q].session !in sys.doomed
    ensures forall t :: t in sys.table ==> t in sys.heap
    ensures forall t :: t in sys.doomed ==> t in sys.heap && sys.heap[t].subs == []
  {
    hide Accounted;
  }

  lemma AddRefFramed(sys: Sys, r: Ref)
    requires Sound(sys) && r.session in sys.heap && (r.Held? || r.Snapshot?)
    ensures Framed(sys, AddRef(sys, r), {}) && Sound(AddRef(sys, r))
  {}

  lemma DropRefFramed(sys: Sys, p: nat)
    requires Sound(sys) && p in sys.refs && !sys.refs[p].Lending?
    ensures Framed(sys, DropRef(sys, p), {p})
  {}

  lemma CreateFramed(sys: Sys, token: string)
    requires Sound(sys)
    ensures Framed(sys, Create(sys, token), {})
  {}

  lemma PushFramed(sys: Sys, h: nat)
    requires Sound(sys) && h in sys.refs && sys.refs[h].Held?
    ensures Framed(sys, Push(sys, h), {h})
  {}

  lemma BumpFramed(sys: Sys, h: nat)
    requires Sound(sys) && h in sys.refs && sys.refs[h].Lending?
    ensures Framed(sys, Bump(sys, h), {h})
  {}

  lemma EraseFramed(sys: Sys, sub: nat)
    requires Sound(sys) && sub in sys.refs && sys.refs[sub].Subscribed?
    ensures Framed(sys, Erase(sys, sub), {sub})
  {}

  lemma FreeFramed(sys: Sys, id: nat)
    requires Sound(sys) && forall q :: q in sys.refs ==> sys.refs[q].session != id
    ensures Framed(sys, Free(sys, id), {})
  {}

  lemma FramedTwice(sys: Sys, mid: Sys, next: Sys)
    requires Framed(sys, mid, {}) && Framed(mid, next, {})
    ensures Framed(sys, next, {})
  {
    hide Gone;
  }

  lemma {:induction false} SnapshotFramed(sys: Sys, ids: seq<nat>)
    requires Sound(sys) && forall s :: s in ids ==> s in sys.heap
    ensures Framed(sys, SnapshotAll(sys, ids), {}) && Sound(SnapshotAll(sys, ids))
    decreases |ids|
  {
    if ids != [] {
      var mid := SnapshotAll(sys, ids[..|ids| - 1]);
      SnapshotFramed(sys, ids[..|ids| - 1]);
      AddRefFramed(mid, Snapshot(ids[|ids| - 1]));
      hide AddRef, Sound, Framed;
      FramedTwice(sys, mid, SnapshotAll(sys, ids));
    } else {
      hide Sound;
    }
  }

  lemma GetFramed(sys: Sys, token: string, ok: bool)
    requires Inv(sys)
    ensures Framed(sys, Next(sys, Get(token, ok)), {})
  {
    InvFacts(sys);
    hide Inv, Sound, AddRef, Create;
    match Find(sys.table, sys.heap, token)
    case Some(s) => AddRefFramed(sys, Held(s));
    case None => CreateFramed(sys, token);
  }

  lemma NextFramed(sys: Sys, e: Event)
    requires Inv(sys) && Enabled(sys, e)
    ensures Framed(sys, Next(sys, e), Acts(e))
  {
    hide Inv, Sound, AddRef, DropRef, Create, Push, Bump, Erase, Free, SnapshotAll, Gone, KeepsRef, Framed, Find, Creatable;
    InvFacts(sys);
    InvDefined(sys, e);
    if e.Get? {
      GetFramed(sys, e.token, e.ok);
    }
    match e
    case Get(token, ok) =>
    case Release(h) => DropRefFramed(sys, h);
    case SubscribePush(h) => PushFramed(sys, h);
    case SubscribeBump(h) => BumpFramed(sys, h);
    case UnsubscribeErase(sub) => EraseFramed(sys, sub);
    case UnsubscribeRelease(sub) => DropRefFramed(sys, sub);
    case EnumerateSnapshot => SnapshotFramed(sys, sys.table);
    case EnumerateRelease(h) => DropRefFramed(sys, h);
    case Destroy(s) => FreeFramed(sys, s);
  }

  /** A reference, and with it its session and that session's token, is safe from all steps that act
      through other references. */
  lemma OthersKeepReference(sys: Sys, e: Event, p: nat)
    requires Inv(sys) && Enabled(sys, e) && p in sys.refs && p !in Acts(e)
    ensures KeepsRef(sys, Next(sys, e), p)
  {
    NextFramed(sys, e);
  }

  // ----- destruction -----

  lemma FreedStaysFreed(sys: Sys, e: Event, s: nat)
    requires Inv(sys) && Enabled(sys, e) && s in sys.freed
    ensures s in Next(sys, e).freed && e != Destroy(s)
  {
    NextFramed(sys, e);
  }

  /** No session is destroyed twice in any run, and it has no subscription left when it is. */
  lemma {:induction false} DestroyedOnce(sys: Sys, trace: seq<Event>, end: Sys, s: nat)
    requires Inv(sys) && Runs(sys, trace, end) && s in sys.freed
    ensures Destroy(s) !in trace && s in end.freed
    decreases |trace|
  {
    if trace != [] {
      FreedStaysFreed(sys, trace[0], s);
      NextKeeps(sys, trace[0]);
      DestroyedOnce(Next(sys, trace[0]), trace[1..], end, s);
      assert trace == [trace[0]] + trace[1..];
    }
  }

  lemma DestroyFreesUnlistedSession(sys: Sys, trace: seq<Event>, end: Sys, s: nat)
    requires Inv(sys) && trace != [] && trace[0] == Destroy(s) && Runs(sys, trace, end)
    ensures sys.heap[s].subs == [] && s !in sys.table && forall p :: p in sys.refs ==> sys.refs[p].session != s
    ensures Destroy(s) !in trace[1..]
  {
    NextKeeps(sys, trace[0]);
    DestroyedOnce(Next(sys, trace[0]), trace[1..], end, s);
  }
}

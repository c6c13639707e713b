/** The sender's admission list and its rate limiter (src/admission.c, src/sender.c:343-361).

    Clock readings are arguments, in the order one call takes them. Arithmetic on them is that of
    unsigned 64-bit integers. */
module Admission {
  import opened Common

  const U64 := 0x1_0000_0000_0000_0000
  const SECOND := 1_000_000_000
  const INT_MAX := 0x7fff_ffff
  const PEER_ID_MAX := 64
  const FINGERPRINT_MAX := 128
  const DISPLAY_MAX := 128

  datatype PeerState = Pending | Accepted | Rejected | Revoked | Disconnected

  datatype Peer = Peer(id: string, name: string, fingerprint: string, state: PeerState, pinned: bool, firstSeen: nat)

  datatype Config = Config(maxReceivers: int, windowSeconds: int, maxAttempts: int, lockoutSeconds: int, autoAcceptPinned: bool)

  /** The values `tether_admission_create` puts in place of non-positive ones. */
  function WithDefaults(cfg: Config): Config {
    Config(if cfg.maxReceivers <= 0 then 4 else cfg.maxReceivers,
           if cfg.windowSeconds <= 0 then 60 else cfg.windowSeconds,
           if cfg.maxAttempts <= 0 then 10 else cfg.maxAttempts,
           if cfg.lockoutSeconds <= 0 then 300 else cfg.lockoutSeconds,
           cfg.autoAcceptPinned)
  }

  /** Every field is a positive C `int`. */
  predicate Usable(cfg: Config) {
    0 < cfg.maxReceivers <= INT_MAX && 0 < cfg.windowSeconds <= INT_MAX
    && 0 < cfg.maxAttempts <= INT_MAX && 0 < cfg.lockoutSeconds <= INT_MAX
  }

  function Window(cfg: Config): nat requires Usable(cfg) { cfg.windowSeconds * SECOND }
  function Lockout(cfg: Config): nat requires Usable(cfg) { cfg.lockoutSeconds * SECOND }

  // ----- the limiter -----

  datatype Ledger = Ledger(attempts: seq<nat>, lockoutUntil: nat)

  /** `now - window`, which wraps around while the clock has not yet reached the window's length. */
  function Cutoff(cfg: Config, now: nat): nat
    requires Usable(cfg)
  {
    (now - Window(cfg)) % U64
  }

  function KeepFrom(attempts: seq<nat>, cutoff: nat): (k: nat)
    ensures k <= |attempts|
    ensures forall i :: 0 <= i < k ==> attempts[i] < cutoff
    ensures k < |attempts| ==> attempts[k] >= cutoff
  {
    if attempts == [] || attempts[0] >= cutoff then 0 else 1 + KeepFrom(attempts[1..], cutoff)
  }

  function Prune(attempts: seq<nat>, cutoff: nat): seq<nat> {
    attempts[KeepFrom(attempts, cutoff)..]
  }

  /** The three readings of one call: for the lockout, for the window, for the record. */
  datatype Call = Call(lockoutCheck: nat, windowCheck: nat, stamp: nat)

  /** The ledger after a call, and whether the call was blocked. */
  function Attempt(l: Ledger, cfg: Config, c: Call): (Ledger, bool)
    requires Usable(cfg)
  {
    if l.lockoutUntil > c.lockoutCheck then (l, true)
    else
      var kept := Prune(l.attempts, Cutoff(cfg, c.windowCheck));
      if |kept| >= cfg.maxAttempts then (Ledger(kept, (c.lockoutCheck + Lockout(cfg)) % U64), true)
      else (Ledger(kept + [c.stamp], l.lockoutUntil), false)
  }

  // ----- the peer list -----

  datatype Adm = Adm(peers: seq<Peer>, ledger: Ledger)

  function FindPeer(peers: seq<Peer>, id: string): (r: Option<nat>)
    ensures r.Some? ==> r.value < |peers| && peers[r.value].id == id
    ensures r.Some? ==> forall i :: 0 <= i < r.value ==> peers[i].id != id
    ensures r.None? ==> forall i :: 0 <= i < |peers| ==> peers[i].id != id
  {
    if peers == [] then None
    else if peers[0].id == id then Some(0)
    else match FindPeer(peers[1..], id) case None => None case Some(i) => Some(i + 1)
  }

  function CountState(peers: seq<Peer>, s: PeerState): nat {
    if peers == [] then 0 else (if peers[0].state == s then 1 else 0) + CountState(peers[1..], s)
  }

  /** A pinned peer shows the fingerprint; the stored one may be cut, the given one is not. */
  predicate KnownPin(peers: seq<Peer>, fingerprint: string) {
    exists i :: 0 <= i < |peers| && peers[i].pinned && peers[i].fingerprint == fingerprint
  }

  function NewPeer(peers: seq<Peer>, cfg: Config, id: string, name: Option<string>, fingerprint: Option<string>, now: nat): Peer {
    var auto := cfg.autoAcceptPinned && fingerprint.Some? && KnownPin(peers, fingerprint.value);
    Peer(Truncate(id, PEER_ID_MAX),
         match name case None => "" case Some(n) => Truncate(n, DISPLAY_MAX),
         match fingerprint case None => "" case Some(f) => Truncate(f, FINGERPRINT_MAX),
         if auto then Accepted else Pending, auto, now)
  }

  /** `add_pending`: the new list, and the peer it reports, if one was added. */
  function Admit(adm: Adm, cfg: Config, id: string, name: Option<string>, fingerprint: Option<string>,
                 c: Call, seen: nat): (Adm, Option<Peer>)
    requires Usable(cfg)
  {
    var (l, blocked) := Attempt(adm.ledger, cfg, c);
    if blocked || FindPeer(adm.peers, id).Some? || CountState(adm.peers, Accepted) >= cfg.maxReceivers then
      (Adm(adm.peers, l), None)
    else
      var p := NewPeer(adm.peers, cfg, id, name, fingerprint, seen);
      (Adm(adm.peers + [p], l), Some(p))
  }

  /** `set_peer_state`, on the first peer of that id. A pin is set or kept, never cleared. */
  function SetState(peers: seq<Peer>, id: string, state: PeerState, pin: bool): (seq<Peer>, Option<Peer>) {
    match FindPeer(peers, id)
    case None => (peers, None)
    case Some(i) =>
      var p := peers[i].(state := state, pinned := peers[i].pinned || pin);
      (peers[i := p], Some(p))
  }

  function RevokeAll(peers: seq<Peer>): seq<Peer> {
    seq(|peers|, i requires 0 <= i < |peers| => peers[i].(state := Revoked))
  }

  class List {
    const cfg: Config
    var peers: seq<Peer>
    var attempts: seq<nat>
    var lockoutUntil: nat

    function Model(): Adm
      reads this
    {
      Adm(peers, Ledger(attempts, lockoutUntil))
    }

    predicate Valid() {
      Usable(cfg)
    }

    constructor (given: Config)
      requires given.maxReceivers <= INT_MAX && given.windowSeconds <= INT_MAX
      requires given.maxAttempts <= INT_MAX && given.lockoutSeconds <= INT_MAX
      ensures Valid() && cfg == WithDefaults(given) && Model() == Adm([], Ledger([], 0))
    {
      cfg := WithDefaults(given);
      peers, attempts, lockoutUntil := [], [], 0;
    }

    /** `prune_attempts_locked`: the kept tail is moved to the front. */
    method PruneAttempts(now: nat)
      requires Valid()
      modifies this`attempts
      ensures attempts == Prune(old(attempts), Cutoff(cfg, now))
    {
      var cutoff := (now - cfg.windowSeconds * SECOND) % U64;
      var keepFrom := 0;
      while keepFrom < |attempts|
        invariant keepFrom <= |attempts| && attempts == old(attempts)
        invariant keepFrom + KeepFrom(attempts[keepFrom..], cutoff) == KeepFrom(attempts, cutoff)
      {
        if attempts[keepFrom] >= cutoff {
          break;
        }
        assert attempts[keepFrom..][1..] == attempts[keepFrom + 1..];
        keepFrom := keepFrom + 1;
      }
      if keepFrom > 0 {
        attempts := attempts[keepFrom..];
      }
    }

    /** `rate_limit_blocks_locked`. */
    method RateLimitBlocks(c: Call) returns (blocked: bool)
      requires Valid()
      modifies this`attempts, this`lockoutUntil
      ensures blocked == Attempt(old(Model()).ledger, cfg, c).1
      ensures var l := Attempt(old(Model()).ledger, cfg, c).0;
              lockoutUntil == l.lockoutUntil && l.attempts == if blocked then attempts else attempts + [c.stamp]
    {
      if lockoutUntil > c.lockoutCheck {
        return true;
      }
      PruneAttempts(c.windowCheck);
      if |attempts| >= cfg.maxAttempts {
        lockoutUntil := (c.lockoutCheck + cfg.lockoutSeconds * SECOND) % U64;
        return true;
      }
      return false;
    }

    method Find(id: string) returns (r: Option<nat>)
      ensures r == FindPeer(peers, id)
    {
      for i := 0 to |peers|
        invariant match FindPeer(peers[i..], id)
                  case None => FindPeer(peers, id).None?
                  case Some(k) => FindPeer(peers, id) == Some(i + k)
      {
        assert peers[i..][1..] == peers[i + 1..];
        if peers[i].id == id {
          return Some(i);
        }
      }
      return None;
    }

    method Count(s: PeerState) returns (n: nat)
      ensures n == CountState(peers, s)
    {
      n := 0;
      for i := 0 to |peers|
        invariant n + CountState(peers[i..], s) == CountState(peers, s)
      {
        assert peers[i..][1..] == peers[i + 1..];
        if peers[i].state == s {
          n := n + 1;
        }
      }
    }

    /** The search for a pinned peer with this fingerprint. */
    method ShowsPin(fingerprint: string) returns (known: bool)
      ensures known == KnownPin(peers, fingerprint)
    {
      for i := 0 to |peers|
        invariant forall k :: 0 <= k < i ==> !(peers[k].pinned && peers[k].fingerprint == fingerprint)
      {
        if peers[i].pinned && peers[i].fingerprint == fingerprint {
          return true;
        }
      }
      return false;
    }

    /** `tether_admission_add_pending`; `seen` is the last clock reading. */
    method AddPending(id: string, name: Option<string>, fingerprint: Option<string>, c: Call, seen: nat)
      returns (changed: Option<Peer>)
      requires Valid()
      modifies this
      ensures (Model(), changed) == Admit(old(Model()), cfg, id, name, fingerprint, c, seen)
    {
      var blocked := RateLimitBlocks(c);
      if blocked {
        return None;
      }
      attempts := attempts + [c.stamp];
      var found := Find(id);
      if found.Some? {
        return None;
      }
      var accepted := Count(Accepted);
      if accepted >= cfg.maxReceivers {
        return None;
      }
      var p := Peer(Truncate(id, PEER_ID_MAX),
                    match name case None => "" case Some(n) => Truncate(n, DISPLAY_MAX),
                    match fingerprint case None => "" case Some(f) => Truncate(f, FINGERPRINT_MAX),
                    Pending, false, seen);
      if cfg.autoAcceptPinned && fingerprint.Some? {
        var known := ShowsPin(fingerprint.value);
        if known {
          p := p.(pinned := true, state := Accepted);
        }
      }
      peers := peers + [p];
      return Some(p);
    }

    method SetPeerState(id: string, state: PeerState, pin: bool) returns (changed: Option<Peer>)
      modifies this`peers
      ensures (peers, changed) == SetState(old(peers), id, state, pin)
    {
      var found := Find(id);
      if found.None? {
        return None;
      }
      var p := peers[found.value].(state := state);
      if pin {
        p := p.(pinned := true);
      }
      peers := peers[found.value := p];
      return Some(p);
    }

    method RevokeEveryone()
      modifies this`peers
      ensures peers == RevokeAll(old(peers))
    {
      for i := 0 to |peers|
        invariant |peers| == |old(peers)|
        invariant forall k :: 0 <= k < |peers| ==> peers[k] == if k < i then old(peers)[k].(state := Revoked) else old(peers)[k]
      {
        peers := peers[i := peers[i].(state := Revoked)];
      }
    }
  }
}

/** Repair leases: the ordering that arbitrates between them and one whole
    acquisition against a store that others may write meanwhile (watchdog/lease.go). */
module Lease {
  import opened Prelude

  const LEASE_TTL: int := 10 * 60 * 1_000_000_000
  const EPOCHS: nat := 0x1_0000_0000_0000_0000

  datatype RepairLease = RepairLease(epoch: nat, owner: Bytes, intent: Digest, expiresAt: int, createdAt: int)

  /** Byte-wise lexical order of peer identifiers. */
  predicate LexLess(a: Bytes, b: Bytes) {
    if a == [] then b != []
    else b != [] && (a[0] < b[0] || (a[0] == b[0] && LexLess(a[1..], b[1..])))
  }

  /** Positive when a wins, negative when b wins: higher epoch, then earlier creation, then smaller owner. */
  function CompareLeases(a: RepairLease, b: RepairLease): int {
    if a.epoch > b.epoch then 1
    else if a.epoch < b.epoch then -1
    else if a.createdAt < b.createdAt then 1
    else if a.createdAt > b.createdAt then -1
    else if LexLess(a.owner, b.owner) then 1
    else if LexLess(b.owner, a.owner) then -1
    else 0
  }

  lemma {:induction false} LexTotal(a: Bytes, b: Bytes)
    ensures !(LexLess(a, b) && LexLess(b, a))
    ensures a == b || LexLess(a, b) || LexLess(b, a)
    ensures !LexLess(a, a)
  {
    if a != [] && b != [] {
      LexTotal(a[1..], b[1..]);
      assert a == [a[0]] + a[1..] && b == [b[0]] + b[1..];
    }
    if a != [] { LexTotal(a[1..], a[1..]); }
  }

  lemma {:induction false} LexTransitive(a: Bytes, b: Bytes, c: Bytes)
    requires LexLess(a, b) && LexLess(b, c)
    ensures LexLess(a, c)
  {
    if a != [] && a[0] == b[0] == c[0] {
      LexTransitive(a[1..], b[1..], c[1..]);
    }
  }

  ghost predicate SameRank(a: RepairLease, b: RepairLease) {
    a.epoch == b.epoch && a.createdAt == b.createdAt && a.owner == b.owner
  }

  /** The comparison is antisymmetric and ties only leases of the same epoch, creation time and owner. */
  lemma CompareTotal(a: RepairLease, b: RepairLease)
    ensures CompareLeases(a, b) == -CompareLeases(b, a)
    ensures CompareLeases(a, b) == 0 <==> SameRank(a, b)
  {
    LexTotal(a.owner, b.owner);
  }

  lemma CompareTransitive(a: RepairLease, b: RepairLease, c: RepairLease)
    requires CompareLeases(a, b) >= 0 && CompareLeases(b, c) >= 0
    ensures CompareLeases(a, c) >= 0
    ensures CompareLeases(a, c) == 0 ==> CompareLeases(a, b) == 0 && CompareLeases(b, c) == 0
  {
    CompareTotal(a, b);
    CompareTotal(b, c);
    CompareTotal(a, c);
    if LexLess(a.owner, b.owner) && LexLess(b.owner, c.owner) {
      LexTransitive(a.owner, b.owner, c.owner);
    }
    LexTotal(a.owner, c.owner);
  }

  /** The lexical order: a is less where the two first differ, or is a proper prefix. */
  lemma {:induction false} LexMeans(a: Bytes, b: Bytes)
    ensures LexLess(a, b) <==> exists n: nat :: n <= |a| && n < |b| && a[..n] == b[..n] && (n == |a| || a[n] < b[n])
  {
    if a != [] && b != [] && a[0] == b[0] {
      LexMeans(a[1..], b[1..]);
      if n: nat :| n <= |a[1..]| && n < |b[1..]| && a[1..][..n] == b[1..][..n] && (n == |a[1..]| || a[1..][n] < b[1..][n]) {
        assert a[..n + 1] == [a[0]] + a[1..][..n] && b[..n + 1] == [b[0]] + b[1..][..n];
        assert n + 1 <= |a| && (n + 1 == |a| || a[n + 1] < b[n + 1]);
      }
      if n: nat :| n <= |a| && n < |b| && a[..n] == b[..n] && (n == |a| || a[n] < b[n]) {
        assert n > 0;
        assert a[1..][..n - 1] == a[..n][1..] && b[1..][..n - 1] == b[..n][1..];
        assert n - 1 == |a[1..]| || a[1..][n - 1] < b[1..][n - 1];
      }
    } else if b != [] {
      assert a[..0] == b[..0];
      forall n: nat | 0 < n <= |a| && n < |b| ensures a[..n] != b[..n] {
        assert a[..n][0] == a[0] && b[..n][0] == b[0];
      }
    }
  }

  /** Who wins: the higher epoch; at equal epochs the earlier creation; then the smaller owner. */
  lemma CompareMeans(a: RepairLease, b: RepairLease)
    ensures a.epoch > b.epoch ==> CompareLeases(a, b) > 0
    ensures a.epoch == b.epoch && a.createdAt < b.createdAt ==> CompareLeases(a, b) > 0
    ensures a.epoch == b.epoch && a.createdAt == b.createdAt ==> (CompareLeases(a, b) > 0 <==> LexLess(a.owner, b.owner))
  {
  }

  // ----- the two decisions of an acquisition -----

  /** What a store holds under the key of a file; undecodable bytes are Garbage. */
  datatype Stored = Empty | Garbage | Held(lease: RepairLease)

  function NextEpoch(e: nat): nat { (e + 1) % EPOCHS }

  function NewLease(epoch: nat, self: Bytes, now: int, intent: Digest): RepairLease {
    RepairLease(epoch, self, intent, now + LEASE_TTL, now)
  }

  /** The lease to write after the first read (None when the read failed), or None when another peer's lease is alive. */
  function Decide(read: Option<Stored>, self: Bytes, now: int, intent: Digest): Option<RepairLease> {
    match read
    case Some(Held(l)) =>
      if l.expiresAt > now && l.owner != self then None
      else Some(NewLease(NextEpoch(l.epoch), self, now, intent))
    case _ => Some(NewLease(1, self, now, intent))
  }

  datatype Verdict = Won | Lost | Failed

  function Arbitrate(mine: RepairLease, readBack: Option<Stored>): Verdict {
    match readBack
    case Some(Held(l)) => if CompareLeases(mine, l) >= 0 then Won else Lost
    case _ => Failed
  }

  // ----- one acquisition -----

  /** A call, the faults the store shows it, and what others have stored by the time of its put and of its read-back. */
  datatype Call = Call(self: Bytes, now: int, intent: Digest, readOk: bool, putOk: bool, readBackOk: bool,
                       beforePut: Option<Stored>, afterPut: Option<Stored>)

  function Meanwhile(stored: Stored, other: Option<Stored>): Stored {
    match other case None => stored case Some(s) => s
  }

  function Acquire(stored: Stored, call: Call): (Stored, Verdict) {
    match Decide(if call.readOk then Some(stored) else None, call.self, call.now, call.intent)
    case None => (stored, Lost)
    case Some(l) =>
      if !call.putOk then (Meanwhile(stored, call.beforePut), Failed)
      else
        var final := Meanwhile(Held(l), call.afterPut);
        (final, Arbitrate(l, if call.readBackOk then Some(final) else None))
  }

  /** The key-value store, for the one key of a file. */
  class LeaseStore {
    var value: Stored

    constructor ()
      ensures value == Empty
    {
      value := Empty;
    }

    method GetValue(ok: bool) returns (r: Option<Stored>)
      ensures r == if ok then Some(value) else None
    {
      r := if ok then Some(value) else None;
    }

    method PutValue(lease: RepairLease, ok: bool)
      modifies this
      ensures value == if ok then Held(lease) else old(value)
    {
      if ok { value := Held(lease); }
    }

    /** What other peers' puts leave. */
    method Others(put: Option<Stored>)
      modifies this
      ensures value == Meanwhile(old(value), put)
    {
      if put.Some? { value := put.value; }
    }
  }

  method AcquireLease(store: LeaseStore, call: Call) returns (verdict: Verdict)
    modifies store
    ensures (store.value, verdict) == Acquire(old(store.value), call)
  {
    var newEpoch := 1;
    var existing := store.GetValue(call.readOk);
    match existing {
      case Some(Held(l)) =>
        if l.expiresAt > call.now {
          if l.owner == call.self {
            newEpoch := NextEpoch(l.epoch);
          } else {
            return Lost;
          }
        } else {
          newEpoch := NextEpoch(l.epoch);
        }
      case _ =>
    }
    var newLease := NewLease(newEpoch, call.self, call.now, call.intent);
    store.Others(call.beforePut);
    store.PutValue(newLease, call.putOk);
    if !call.putOk {
      return Failed;
    }
    store.Others(call.afterPut);
    var final := store.GetValue(call.readBackOk);
    match final {
      case Some(Held(l)) =>
        if CompareLeases(newLease, l) >= 0 { return Won; } else { return Lost; }
      case _ =>
        return Failed;
    }
  }

  /** Nothing was put after lease l that beats it or cannot be read. */
  predicate Unbeaten(l: RepairLease, other: Option<Stored>) {
    match other case None => true case Some(Held(o)) => CompareLeases(l, o) >= 0 case _ => false
  }

  /** Everything about one call, told from what is stored, the time and the faults. It is refused exactly when it reads
      another peer's lease that is alive. Otherwise it puts a lease of its own, one epoch above the lease it read, expired
      or not, or of epoch 1 if it could read none; and it wins if and only if the put and the read-back work and
      what is read back then does not beat that lease. */
  lemma AcquireExactly(stored: Stored, call: Call)
    ensures var (after, verdict) := Acquire(stored, call);
      var read := call.readOk && stored.Held?;
      var refused := read && stored.lease.expiresAt > call.now && stored.lease.owner != call.self;
      var mine := RepairLease(if read then (stored.lease.epoch + 1) % EPOCHS else 1, call.self, call.intent, call.now + 600_000_000_000, call.now);
      && (verdict == Won <==> !refused && call.putOk && call.readBackOk && Unbeaten(mine, call.afterPut))
      && (verdict == Failed <==> !refused && (!call.putOk || !call.readBackOk || (call.afterPut.Some? && !call.afterPut.value.Held?)))
      && (refused ==> after == stored)
      && (!refused && !call.putOk ==> after == (match call.beforePut case None => stored case Some(o) => o))
      && (!refused && call.putOk ==> after == (match call.afterPut case None => Held(mine) case Some(o) => o))
  {
    LexTotal(call.self, call.self);
  }

  /** A dead lease keeps nobody out: a call that finds an expired lease, no lease or its own wins when all its accesses
      work and nobody else puts. */
  lemma TakeOver(stored: Stored, call: Call)
    requires call.readOk && call.putOk && call.readBackOk && call.afterPut.None?
    requires stored.Held? ==> stored.lease.expiresAt <= call.now || stored.lease.owner == call.self
    ensures Acquire(stored, call).1 == Won
  {
    LexTotal(call.self, call.self);
  }

  /** A win nobody wrote over stores the winner's own lease, good for ten minutes from the call, one epoch above what was read. */
  lemma WinnerIsStored(stored: Stored, call: Call)
    ensures var (after, verdict) := Acquire(stored, call);
      verdict == Won && call.afterPut.None? ==>
        (&& after.Held? && after.lease.owner == call.self && after.lease.expiresAt == call.now + LEASE_TTL
         && (call.readOk && stored.Held? && stored.lease.epoch + 1 < EPOCHS ==> after.lease.epoch == stored.lease.epoch + 1)
         && (!call.readOk || !stored.Held? ==> after.lease.epoch == 1))
  {
  }

  /** While another peer's lease is alive a call wins exactly when its first read fails, both later accesses work and
      nothing put meanwhile beats its lease of epoch 1. */
  lemma BreakIn(stored: Stored, call: Call)
    requires stored.Held? && stored.lease.expiresAt > call.now && stored.lease.owner != call.self
    ensures Acquire(stored, call).1 == Won <==>
      !call.readOk && call.putOk && call.readBackOk && Unbeaten(NewLease(1, call.self, call.now, call.intent), call.afterPut)
    ensures call.readOk ==> Acquire(stored, call) == (stored, Lost)
  {
    LexTotal(call.self, call.self);
  }

  // ----- runs of calls that do not overlap -----

  /** What is stored after the first n calls. */
  function StoredAfter(initial: Stored, calls: seq<Call>, n: nat): Stored
    requires n <= |calls|
  {
    if n == 0 then initial else Acquire(StoredAfter(initial, calls, n - 1), calls[n - 1]).0
  }

  function VerdictOf(initial: Stored, calls: seq<Call>, n: nat): Verdict
    requires n < |calls|
  {
    Acquire(StoredAfter(initial, calls, n), calls[n]).1
  }

  ghost predicate ClockNeverBack(calls: seq<Call>) {
    forall i, j :: 0 <= i <= j < |calls| ==> calls[i].now <= calls[j].now
  }

  /** Nobody writes between the steps of another call. */
  ghost predicate NoOverlap(calls: seq<Call>) {
    forall i :: 0 <= i < |calls| ==> calls[i].beforePut.None? && calls[i].afterPut.None?
  }

  /** Call u comes from another peer than winner i, before the win expires. */
  ghost predicate Intrudes(calls: seq<Call>, i: nat, u: int)
    requires i < |calls|
  {
    i < u < |calls| && calls[u].self != calls[i].self && calls[u].now < calls[i].now + LEASE_TTL
  }

  /** No such call puts without having read. */
  ghost predicate NoBlindPut(calls: seq<Call>, i: nat)
    requires i < |calls|
  {
    forall u {:trigger Intrudes(calls, i, u)} :: Intrudes(calls, i, u) ==> calls[u].readOk || !calls[u].putOk
  }

  /** The stored lease is winner i's, and good for as long as what was won. */
  ghost predicate HeldBy(calls: seq<Call>, i: nat, s: Stored)
    requires i < |calls|
  {
    s.Held? && s.lease.owner == calls[i].self && s.lease.expiresAt >= calls[i].now + LEASE_TTL
  }

  /** It is so after each call until the win expires. */
  ghost predicate Stays(initial: Stored, calls: seq<Call>, i: nat)
    requires i < |calls|
  {
    forall t: nat {:trigger StoredAfter(initial, calls, t)} ::
      i < t <= |calls| && (t == i + 1 || calls[t - 1].now < calls[i].now + LEASE_TTL) ==> HeldBy(calls, i, StoredAfter(initial, calls, t))
  }

  /** One call by anybody inside the lease time keeps the winner's lease stored, unless another peer puts blindly. */
  lemma HeldStep(calls: seq<Call>, i: nat, u: nat, s: Stored)
    requires i < u < |calls| && calls[i].now <= calls[u].now < calls[i].now + LEASE_TTL
    requires calls[u].beforePut.None? && calls[u].afterPut.None? && HeldBy(calls, i, s)
    ensures HeldBy(calls, i, Acquire(s, calls[u]).0) <==> !(calls[u].self != calls[i].self && !calls[u].readOk && calls[u].putOk)
  {
  }

  lemma {:induction false} HeldUntil(initial: Stored, calls: seq<Call>, i: nat, t: nat)
    requires ClockNeverBack(calls) && NoOverlap(calls) && i < t <= |calls| && VerdictOf(initial, calls, i) == Won
    requires forall u {:trigger Intrudes(calls, i, u)} :: Intrudes(calls, i, u) && u < t ==> calls[u].readOk || !calls[u].putOk
    requires t == i + 1 || calls[t - 1].now < calls[i].now + LEASE_TTL
    ensures HeldBy(calls, i, StoredAfter(initial, calls, t))
  {
    if t == i + 1 {
      WinnerIsStored(StoredAfter(initial, calls, i), calls[i]);
    } else {
      assert calls[i].now <= calls[t - 2].now <= calls[t - 1].now;
      HeldUntil(initial, calls, i, t - 1);
      assert calls[t - 1].self != calls[i].self ==> Intrudes(calls, i, t - 1);
      HeldStep(calls, i, t - 1, StoredAfter(initial, calls, t - 1));
    }
  }

  /** Exactly when a winner keeps its lease in a run of calls that do not overlap: until it expires, the stored lease
      stays with the winner if and only if no other peer's put inside the lease time follows a failed first read. */
  lemma HolderStays(initial: Stored, calls: seq<Call>, i: nat)
    requires ClockNeverBack(calls) && NoOverlap(calls) && i < |calls| && VerdictOf(initial, calls, i) == Won
    ensures Stays(initial, calls, i) <==> NoBlindPut(calls, i)
  {
    hide HeldBy, StoredAfter;
    if NoBlindPut(calls, i) {
      forall t: nat | i < t <= |calls| && (t == i + 1 || calls[t - 1].now < calls[i].now + LEASE_TTL)
        ensures HeldBy(calls, i, StoredAfter(initial, calls, t))
      {
        HeldUntil(initial, calls, i, t);
      }
    } else {
      var u :| Intrudes(calls, i, u) && !calls[u].readOk && calls[u].putOk;
      BlindPutTakes(initial, calls, u);
      assert !HeldBy(calls, i, StoredAfter(initial, calls, u + 1)) by { NotHeldBy(calls, i, StoredAfter(initial, calls, u + 1)); }
    }
  }

  lemma NotHeldBy(calls: seq<Call>, i: nat, s: Stored)
    requires i < |calls| && s.Held? && s.lease.owner != calls[i].self
    ensures !HeldBy(calls, i, s)
  {
  }

  lemma BlindPutTakes(initial: Stored, calls: seq<Call>, u: nat)
    requires u < |calls| && NoOverlap(calls) && !calls[u].readOk && calls[u].putOk
    ensures StoredAfter(initial, calls, u + 1) == Held(NewLease(1, calls[u].self, calls[u].now, calls[u].intent))
  {
  }

  /** A further call, by another peer than winner i and inside the lease time, that reads and meets nobody else. */
  ghost predicate Contender(calls: seq<Call>, i: nat, n: nat, call: Call)
    requires i < |calls|
  {
    && i < n <= |calls| && call.self != calls[i].self && calls[n - 1].now <= call.now < calls[i].now + LEASE_TTL
    && call.readOk && call.beforePut.None? && call.afterPut.None?
  }

  /** No such call would win after any prefix of the run. */
  ghost predicate Unrivalled(initial: Stored, calls: seq<Call>, i: nat)
    requires i < |calls|
  {
    forall n: nat, call {:trigger Contender(calls, i, n, call)} ::
      Contender(calls, i, n, call) ==> Acquire(StoredAfter(initial, calls, n), call).1 != Won
  }

  /** Serial safety. Exactly when a winner is without rival until its lease expires, in a run of calls that do not
      overlap: no other peer that reads the store could win inside the lease time if and only if no other
      peer's put inside it follows a failed first read. And two different peers that do win lie a lease time apart, unless
      such a put came between them or is the second win. */
  lemma SerialSafety(initial: Stored, calls: seq<Call>, i: nat)
    requires ClockNeverBack(calls) && NoOverlap(calls) && i < |calls| && VerdictOf(initial, calls, i) == Won
    ensures Unrivalled(initial, calls, i) <==> NoBlindPut(calls, i)
    ensures forall j: nat {:trigger VerdictOf(initial, calls, j)} ::
      i < j < |calls| && calls[i].self != calls[j].self && VerdictOf(initial, calls, j) == Won
      && (forall u {:trigger Intrudes(calls, i, u)} :: Intrudes(calls, i, u) && u <= j ==> calls[u].readOk || !calls[u].putOk)
      ==> calls[j].now >= calls[i].now + LEASE_TTL
  {
    hide StoredAfter, Acquire, HeldBy;
    if NoBlindPut(calls, i) {
      forall n: nat, call | Contender(calls, i, n, call) ensures Acquire(StoredAfter(initial, calls, n), call).1 != Won {
        HeldUntil(initial, calls, i, n);
        LiveLeaseRefuses(calls, i, StoredAfter(initial, calls, n), call);
      }
    } else {
      var u :| Intrudes(calls, i, u) && !calls[u].readOk && calls[u].putOk;
      BlindPutTakes(initial, calls, u);
      var call := Call(calls[u].self, calls[u].now, calls[u].intent, true, true, true, None, None);
      RenewalWins(StoredAfter(initial, calls, u + 1), call);
      assert Contender(calls, i, u + 1, call);
    }
    forall j: nat | i < j < |calls| && calls[i].self != calls[j].self && VerdictOf(initial, calls, j) == Won
      && (forall u {:trigger Intrudes(calls, i, u)} :: Intrudes(calls, i, u) && u <= j ==> calls[u].readOk || !calls[u].putOk)
      ensures calls[j].now >= calls[i].now + LEASE_TTL
    {
      if calls[j].now < calls[i].now + LEASE_TTL {
        assert calls[j - 1].now <= calls[j].now;
        assert Intrudes(calls, i, j);
        HeldUntil(initial, calls, i, j);
        LiveLeaseRefuses(calls, i, StoredAfter(initial, calls, j), calls[j]);
      }
    }
  }

  lemma LiveLeaseRefuses(calls: seq<Call>, i: nat, s: Stored, call: Call)
    requires i < |calls| && HeldBy(calls, i, s) && call.self != calls[i].self && call.now < calls[i].now + LEASE_TTL
    requires call.readOk || !call.putOk
    ensures Acquire(s, call).1 != Won
  {
  }

  lemma RenewalWins(s: Stored, call: Call)
    requires s.Held? && s.lease.owner == call.self && call.readOk && call.putOk && call.readBackOk && call.afterPut.None?
    ensures Acquire(s, call).1 == Won
  {
    LexTotal(call.self, call.self);
  }

  /** Two peers that win within two nanoseconds without overlap: the second peer's first call reads nothing, puts
      and cannot read back; its next one finds its own lease. */
  lemma BlindRun(p: Bytes, q: Bytes, intent: Digest)
    requires p != q
    ensures var calls := [Call(p, 0, intent, true, true, true, None, None), Call(q, 1, intent, false, true, false, None, None),
                          Call(q, 2, intent, true, true, true, None, None)];
      && ClockNeverBack(calls) && NoOverlap(calls)
      && VerdictOf(Empty, calls, 0) == Won && VerdictOf(Empty, calls, 1) == Failed && VerdictOf(Empty, calls, 2) == Won
  {
    LexTotal(p, p);
    LexTotal(q, q);
    var calls := [Call(p, 0, intent, true, true, true, None, None), Call(q, 1, intent, false, true, false, None, None),
                  Call(q, 2, intent, true, true, true, None, None)];
    assert StoredAfter(Empty, calls, 0) == Empty;
    assert StoredAfter(Empty, calls, 1) == Held(NewLease(1, p, 0, intent));
    assert StoredAfter(Empty, calls, 2) == Held(NewLease(1, q, 1, intent));
  }
}

/** The same acquisition by peers whose reads, writes and read-backs interleave freely. */
module LeaseRace {
  import opened Prelude
  import opened Lease

  /** Where a peer stands. */
  datatype Peer = Idle | Decided(lease: RepairLease) | Written(lease: RepairLease) | Winner(lease: RepairLease) | Out

  /** How the store treats a put: the last one stays, or the greatest one. */
  datatype Policy = Overwrite | KeepGreatest

  datatype State = State(reg: Stored, peers: seq<Peer>)

  datatype Action =
    | Read(p: nat, now: int, intent: Digest, ok: bool)
    | Put(p: nat, ok: bool)
    | ReadBack(p: nat, ok: bool)

  function Stores(policy: Policy, reg: Stored, l: RepairLease): Stored {
    if policy == KeepGreatest && reg.Held? && CompareLeases(reg.lease, l) > 0 then reg else Held(l)
  }

  /** One step of peer a.p; an action that peer is not ready for does nothing. */
  function Step(policy: Policy, owners: seq<Bytes>, s: State, a: Action): (s': State)
    requires |s.peers| == |owners|
    ensures |s'.peers| == |s.peers|
  {
    if a.p >= |s.peers| then s
    else match (a, s.peers[a.p])
      case (Read(p, now, intent, ok), Idle) =>
        (match Decide(if ok then Some(s.reg) else None, owners[p], now, intent)
         case None => s.(peers := s.peers[p := Out])
         case Some(l) => s.(peers := s.peers[p := Decided(l)]))
      case (Put(p, ok), Decided(l)) =>
        if ok then State(Stores(policy, s.reg, l), s.peers[p := Written(l)])
        else s.(peers := s.peers[p := Out])
      case (ReadBack(p, ok), Written(l)) =>
        s.(peers := s.peers[p := if Arbitrate(l, if ok then Some(s.reg) else None) == Won then Winner(l) else Out])
      case _ => s
  }

  /** A peer that reads, puts and reads back undisturbed does exactly one acquisition. */
  lemma RaceOfOne(owners: seq<Bytes>, s: State, p: nat, call: Call)
    requires |s.peers| == |owners| && p < |s.peers| && s.peers[p].Idle? && owners[p] == call.self && call.beforePut.None? && call.afterPut.None?
    ensures var s1 := Step(Overwrite, owners, s, Read(p, call.now, call.intent, call.readOk));
      var s3 := Step(Overwrite, owners, Step(Overwrite, owners, s1, Put(p, call.putOk)), ReadBack(p, call.readBackOk));
      && s3.reg == Acquire(s.reg, call).0
      && (s3.peers[p].Winner? <==> Acquire(s.reg, call).1 == Won)
      && (s3.peers[p].Winner? || s3.peers[p].Out?)
      && forall q :: 0 <= q < |s.peers| && q != p ==> s3.peers[q] == s.peers[q]
  {
  }

  function Run(policy: Policy, owners: seq<Bytes>, s: State, actions: seq<Action>): (s': State)
    requires |s.peers| == |owners|
    ensures |s'.peers| == |s.peers|
    decreases |actions|
  {
    if actions == [] then s else Run(policy, owners, Step(policy, owners, s, actions[0]), actions[1..])
  }

  ghost predicate NoPuts(actions: seq<Action>) {
    forall i :: 0 <= i < |actions| ==> !actions[i].Put?
  }

  ghost predicate NoReadBacks(actions: seq<Action>) {
    forall i :: 0 <= i < |actions| ==> !actions[i].ReadBack?
  }

  ghost predicate Contains(actions: seq<Action>, a: Action) {
    exists i :: 0 <= i < |actions| && actions[i] == a
  }

  /** A store nobody writes any more: a written lease meets exactly that store, whenever it is read back. */
  lemma {:induction false} ReadBackMeets(policy: Policy, owners: seq<Bytes>, s: State, actions: seq<Action>, p: nat)
    requires |s.peers| == |owners| && p < |s.peers| && s.peers[p].Written? && NoPuts(actions)
    requires Contains(actions, ReadBack(p, true)) && !Contains(actions, ReadBack(p, false))
    ensures var l := s.peers[p].lease;
      Run(policy, owners, s, actions).peers[p] == if Arbitrate(l, Some(s.reg)) == Won then Winner(l) else Out
    decreases |actions|
  {
    var a, s' := actions[0], Step(policy, owners, s, actions[0]);
    assert !a.Put? && s'.reg == s.reg;
    if a == ReadBack(p, true) {
      SettledStays(policy, owners, s', actions[1..], p);
    } else {
      assert a != ReadBack(p, false);
      TailContains(actions, ReadBack(p, true));
      if Contains(actions[1..], ReadBack(p, false)) { TailContained(actions, ReadBack(p, false)); }
      ReadBackMeets(policy, owners, s', actions[1..], p);
    }
  }

  lemma TailContains(actions: seq<Action>, a: Action)
    requires Contains(actions, a) && actions[0] != a
    ensures Contains(actions[1..], a)
  {
    var i :| 0 <= i < |actions| && actions[i] == a;
    assert actions[1..][i - 1] == a;
  }

  lemma TailContained(actions: seq<Action>, a: Action)
    requires actions != [] && Contains(actions[1..], a)
    ensures Contains(actions, a)
  {
    var i :| 0 <= i < |actions[1..]| && actions[1..][i] == a;
    assert actions[i + 1] == a;
  }

  lemma {:induction false} SettledStays(policy: Policy, owners: seq<Bytes>, s: State, actions: seq<Action>, p: nat)
    requires |s.peers| == |owners| && p < |s.peers| && (s.peers[p].Winner? || s.peers[p].Out?)
    ensures Run(policy, owners, s, actions).peers[p] == s.peers[p]
    decreases |actions|
  {
    if actions != [] {
      SettledStays(policy, owners, Step(policy, owners, s, actions[0]), actions[1..], p);
    }
  }

  /** On an overwriting store the last peer to put always wins, whatever the others did before and read after. */
  lemma LastPutterWins(owners: seq<Bytes>, s: State, actions: seq<Action>, p: nat)
    requires |s.peers| == |owners| && p < |s.peers| && s.peers[p].Decided? && NoPuts(actions)
    requires Contains(actions, ReadBack(p, true)) && !Contains(actions, ReadBack(p, false))
    ensures Run(Overwrite, owners, s, [Put(p, true)] + actions).peers[p] == Winner(s.peers[p].lease)
  {
    var l := s.peers[p].lease;
    var s' := Step(Overwrite, owners, s, Put(p, true));
    assert ([Put(p, true)] + actions)[1..] == actions;
    CompareTotal(l, l);
    ReadBackMeets(Overwrite, owners, s', actions, p);
  }

  /** When all puts are over, the winners among the written leases are exactly those not below the stored one. */
  lemma WinnersAreNotBelow(policy: Policy, owners: seq<Bytes>, s: State, actions: seq<Action>)
    requires |s.peers| == |owners| && s.reg.Held? && NoPuts(actions)
    requires forall p: nat :: p < |s.peers| && s.peers[p].Written? ==>
      Contains(actions, ReadBack(p, true)) && !Contains(actions, ReadBack(p, false))
    ensures forall p: nat :: p < |s.peers| && s.peers[p].Written? ==>
      (Run(policy, owners, s, actions).peers[p].Winner? <==> CompareLeases(s.peers[p].lease, s.reg.lease) >= 0)
  {
    forall p: nat | p < |s.peers| && s.peers[p].Written?
      ensures Run(policy, owners, s, actions).peers[p].Winner? <==> CompareLeases(s.peers[p].lease, s.reg.lease) >= 0
    {
      ReadBackMeets(policy, owners, s, actions, p);
    }
  }

  // ----- a store that keeps the greatest lease -----

  ghost predicate AtMost(l: RepairLease, reg: Stored) {
    reg.Held? && CompareLeases(reg.lease, l) >= 0
  }

  /** Some peer wrote the stored lease. */
  ghost predicate StoredBy(s: State, w: nat) {
    w < |s.peers| && s.peers[w].Written? && s.reg == Held(s.peers[w].lease)
  }

  /** Before any read-back: nobody has won, leases carry their owner, and what is stored was written by one of the
      peers, or nobody has written what was not there before. */
  ghost predicate Racing(owners: seq<Bytes>, initial: Stored, s: State) {
    && |s.peers| == |owners|
    && (forall p :: 0 <= p < |s.peers| ==> !s.peers[p].Winner?)
    && (forall p :: 0 <= p < |s.peers| && (s.peers[p].Written? || s.peers[p].Decided?) ==> s.peers[p].lease.owner == owners[p])
    && (s.reg == initial || exists w: nat :: StoredBy(s, w))
  }

  lemma RacingStep(policy: Policy, owners: seq<Bytes>, initial: Stored, s: State, a: Action)
    requires Racing(owners, initial, s) && !a.ReadBack?
    ensures Racing(owners, initial, Step(policy, owners, s, a))
  {
    var s' := Step(policy, owners, s, a);
    if s'.reg == s.reg && s.reg != initial {
      var w: nat :| StoredBy(s, w);
      assert s'.peers[w] == s.peers[w];
      assert StoredBy(s', w);
    } else if s'.reg != s.reg {
      assert StoredBy(s', a.p);
    }
  }

  /** Moreover, on a store that keeps the greatest lease, none written exceeds the stored one. */
  ghost predicate Greatest(owners: seq<Bytes>, initial: Stored, s: State) {
    && Racing(owners, initial, s)
    && (forall p :: 0 <= p < |s.peers| && s.peers[p].Written? ==> AtMost(s.peers[p].lease, s.reg))
    && (initial.Held? ==> AtMost(initial.lease, s.reg))
  }

  lemma StoresGreatest(reg: Stored, l: RepairLease, other: RepairLease)
    ensures AtMost(l, Stores(KeepGreatest, reg, l))
    ensures AtMost(other, reg) ==> AtMost(other, Stores(KeepGreatest, reg, l))
  {
    CompareTotal(l, l);
    if reg.Held? {
      CompareTotal(reg.lease, l);
      if AtMost(other, reg) && CompareLeases(reg.lease, l) <= 0 {
        CompareTransitive(l, reg.lease, other);
      }
    }
  }

  lemma GreatestStep(owners: seq<Bytes>, initial: Stored, s: State, a: Action)
    requires Greatest(owners, initial, s) && !a.ReadBack?
    ensures Greatest(owners, initial, Step(KeepGreatest, owners, s, a))
  {
    hide Racing, AtMost, Stores;
    RacingStep(KeepGreatest, owners, initial, s, a);
    PeersKept(owners, initial, s);
    var s' := Step(KeepGreatest, owners, s, a);
    if a.Put? && a.p < |s.peers| && s.peers[a.p].Decided? && a.ok {
      var l := s.peers[a.p].lease;
      forall other ensures AtMost(other, s.reg) ==> AtMost(other, s'.reg) {
        StoresGreatest(s.reg, l, other);
      }
      StoresGreatest(s.reg, l, l);
    }
  }

  lemma PeersKept(owners: seq<Bytes>, initial: Stored, s: State)
    requires Racing(owners, initial, s)
    ensures |s.peers| == |owners|
  {
  }

  lemma {:induction false} GreatestRun(owners: seq<Bytes>, initial: Stored, s: State, actions: seq<Action>)
    requires Greatest(owners, initial, s) && NoReadBacks(actions)
    ensures Greatest(owners, initial, Run(KeepGreatest, owners, s, actions))
    decreases |actions|
  {
    if actions != [] {
      GreatestStep(owners, initial, s, actions[0]);
      GreatestRun(owners, initial, Step(KeepGreatest, owners, s, actions[0]), actions[1..]);
    }
  }

  /** Some peer wrote a lease that the lease found at the start does not beat. */
  ghost predicate Challenged(initial: Stored, s: State) {
    exists p :: 0 <= p < |s.peers| && s.peers[p].Written? && (initial.Held? ==> CompareLeases(s.peers[p].lease, initial.lease) >= 0)
  }

  ghost function Winners(s: State): set<nat> {
    set p: nat | p < |s.peers| && s.peers[p].Winner?
  }

  /** A store that keeps the greatest lease elects one peer: after any interleaving of reads and puts
      followed by any interleaving of read-backs, exactly one peer has won, unless the
      lease found at the start beats every one written, when none has. */
  lemma ExactlyOneWinner(owners: seq<Bytes>, initial: Stored, first: seq<Action>, second: seq<Action>)
    requires Distinct(owners) && NoReadBacks(first) && AllReadBack(|owners|, second)
    ensures var start := State(initial, seq(|owners|, _ => Idle));
      var middle := Run(KeepGreatest, owners, start, first);
      var end := Run(KeepGreatest, owners, middle, second);
      |Winners(end)| == if Challenged(initial, middle) then 1 else 0
  {
    var start := State(initial, seq(|owners|, _ => Idle));
    if initial.Held? { CompareTotal(initial.lease, initial.lease); }
    GreatestRun(owners, initial, start, first);
    ReadBacksElectOne(owners, initial, Run(KeepGreatest, owners, start, first), second);
  }

  ghost predicate AllReadBack(n: nat, actions: seq<Action>) {
    && (forall i :: 0 <= i < |actions| ==> actions[i].ReadBack?)
    && (forall p: nat :: p < n ==> Contains(actions, ReadBack(p, true)) && !Contains(actions, ReadBack(p, false)))
  }

  lemma ReadBacksElectOne(owners: seq<Bytes>, initial: Stored, middle: State, second: seq<Action>)
    requires Distinct(owners) && Greatest(owners, initial, middle) && AllReadBack(|owners|, second)
    ensures |Winners(Run(KeepGreatest, owners, middle, second))| == if Challenged(initial, middle) then 1 else 0
  {
    hide Run, Contains;
    var end := Run(KeepGreatest, owners, middle, second);
    OnlyWrittenWin(KeepGreatest, owners, middle, second);
    if middle.reg.Held? {
      WinnersAreNotBelow(KeepGreatest, owners, middle, second);
    }
    if Challenged(initial, middle) {
      var w := TheGreatest(owners, initial, middle);
      forall p: nat | p < |owners| ensures p in Winners(end) <==> p == w {
        if p in Winners(end) {
          SameGreatest(owners, initial, middle, p, w);
        }
      }
      assert Winners(end) == {w};
    } else {
      NoneGreatest(owners, initial, middle);
      assert Winners(end) == {};
    }
  }

  lemma {:induction false} OnlyWrittenWin(policy: Policy, owners: seq<Bytes>, s: State, actions: seq<Action>)
    requires |s.peers| == |owners| && forall i :: 0 <= i < |actions| ==> actions[i].ReadBack?
    ensures forall p :: 0 <= p < |s.peers| && Run(policy, owners, s, actions).peers[p].Winner? ==>
      s.peers[p].Winner? || s.peers[p].Written?
    decreases |actions|
  {
    if actions != [] {
      OnlyWrittenWin(policy, owners, Step(policy, owners, s, actions[0]), actions[1..]);
    }
  }

  lemma TheGreatest(owners: seq<Bytes>, initial: Stored, s: State) returns (w: nat)
    requires Greatest(owners, initial, s) && Challenged(initial, s)
    ensures w < |s.peers| && s.peers[w].Written? && s.reg.Held? && CompareLeases(s.peers[w].lease, s.reg.lease) == 0
  {
    var q :| 0 <= q < |s.peers| && s.peers[q].Written? && (initial.Held? ==> CompareLeases(s.peers[q].lease, initial.lease) >= 0);
    if s.reg == initial {
      CompareTotal(s.peers[q].lease, s.reg.lease);
      w := q;
    } else {
      w :| StoredBy(s, w);
      CompareTotal(s.peers[w].lease, s.reg.lease);
    }
  }

  lemma SameGreatest(owners: seq<Bytes>, initial: Stored, s: State, p: nat, w: nat)
    requires Distinct(owners) && Greatest(owners, initial, s) && s.reg.Held?
    requires p < |s.peers| && w < |s.peers| && s.peers[p].Written? && s.peers[w].Written?
    requires CompareLeases(s.peers[p].lease, s.reg.lease) >= 0 && CompareLeases(s.peers[w].lease, s.reg.lease) == 0
    ensures p == w
  {
    CompareTotal(s.peers[p].lease, s.reg.lease);
    CompareTotal(s.peers[w].lease, s.reg.lease);
    assert AtMost(s.peers[p].lease, s.reg);
    assert owners[p] == owners[w];
  }

  lemma NoneGreatest(owners: seq<Bytes>, initial: Stored, s: State)
    requires Greatest(owners, initial, s) && !Challenged(initial, s)
    ensures forall p :: 0 <= p < |s.peers| && s.peers[p].Written? ==>
      s.reg.Held? && CompareLeases(s.peers[p].lease, s.reg.lease) < 0
  {
    assert !exists w: nat :: StoredBy(s, w);
  }

  // ----- a store that overwrites -----

  /** Before any read-back, once a peer has written, what is stored is what one of the peers wrote. */
  ghost predicate Overwritten(owners: seq<Bytes>, initial: Stored, s: State) {
    Racing(owners, initial, s) && ((exists p :: 0 <= p < |s.peers| && s.peers[p].Written?) ==> exists w: nat :: StoredBy(s, w))
  }

  lemma {:induction false} OverwrittenRun(owners: seq<Bytes>, initial: Stored, s: State, actions: seq<Action>)
    requires Overwritten(owners, initial, s) && NoReadBacks(actions)
    ensures Overwritten(owners, initial, Run(Overwrite, owners, s, actions))
    decreases |actions|
  {
    if actions != [] {
      OverwrittenStep(owners, initial, s, actions[0]);
      OverwrittenRun(owners, initial, Step(Overwrite, owners, s, actions[0]), actions[1..]);
    }
  }

  lemma OverwrittenStep(owners: seq<Bytes>, initial: Stored, s: State, a: Action)
    requires Overwritten(owners, initial, s) && !a.ReadBack?
    ensures Overwritten(owners, initial, Step(Overwrite, owners, s, a))
  {
    RacingStep(Overwrite, owners, initial, s, a);
    var s' := Step(Overwrite, owners, s, a);
    if a.Put? && a.p < |s.peers| && s.peers[a.p].Decided? && a.ok {
      assert StoredBy(s', a.p);
    } else if p :| 0 <= p < |s'.peers| && s'.peers[p].Written? {
      assert s.peers[p].Written?;
      var w: nat :| StoredBy(s, w);
      assert StoredBy(s', w);
    }
  }

  /** Everybody else who wrote loses to peer w. */
  ghost predicate Beats(s: State, w: nat)
    requires w < |s.peers| && s.peers[w].Written?
  {
    forall p :: 0 <= p < |s.peers| && p != w && s.peers[p].Written? ==> CompareLeases(s.peers[p].lease, s.peers[w].lease) < 0
  }

  /** When an overwriting store elects one peer, after any interleaving of reads and puts followed by any
      interleaving of read-backs: nobody wins if nobody wrote; otherwise the peer w whose lease is stored
      wins, and it is the only winner if and only if every other lease written compares below it. */
  lemma OverwriteElects(owners: seq<Bytes>, initial: Stored, first: seq<Action>, second: seq<Action>)
    requires NoReadBacks(first) && AllReadBack(|owners|, second)
    ensures var start := State(initial, seq(|owners|, _ => Idle));
      var middle := Run(Overwrite, owners, start, first);
      var end := Run(Overwrite, owners, middle, second);
      && (Winners(end) == {} <==> forall p :: 0 <= p < |owners| ==> !middle.peers[p].Written?)
      && (Winners(end) != {} ==> exists w: nat :: StoredBy(middle, w))
      && forall w: nat :: StoredBy(middle, w) ==> w in Winners(end) && (|Winners(end)| == 1 <==> Beats(middle, w))
  {
    hide Run, Contains, StoredBy;
    var start := State(initial, seq(|owners|, _ => Idle));
    OverwrittenRun(owners, initial, start, first);
    var middle := Run(Overwrite, owners, start, first);
    var end := Run(Overwrite, owners, middle, second);
    OnlyWrittenWin(Overwrite, owners, middle, second);
    if p: nat :| p < |owners| && middle.peers[p].Written? {
      var w: nat :| StoredBy(middle, w);
      StorersWin(owners, middle, second, w);
      forall v: nat | StoredBy(middle, v) ensures v in Winners(end) && (|Winners(end)| == 1 <==> Beats(middle, v)) {
        StorersWin(owners, middle, second, v);
        OneMember(Winners(end), v);
      }
    } else {
      forall v: nat | StoredBy(middle, v) ensures false { StoredWrote(middle, v); }
      assert Winners(end) == {};
    }
  }

  lemma StoredWrote(s: State, w: nat)
    requires StoredBy(s, w)
    ensures w < |s.peers| && s.peers[w].Written?
  {
  }

  /** The winners are those not below the stored lease, which peer w wrote. */
  lemma StorersWin(owners: seq<Bytes>, middle: State, second: seq<Action>, w: nat)
    requires |middle.peers| == |owners| && AllReadBack(|owners|, second) && StoredBy(middle, w)
    requires forall p :: 0 <= p < |middle.peers| ==> !middle.peers[p].Winner?
    ensures var end := Run(Overwrite, owners, middle, second);
      && w in Winners(end)
      && forall p: nat :: p in Winners(end) <==>
           p < |owners| && middle.peers[p].Written? && CompareLeases(middle.peers[p].lease, middle.peers[w].lease) >= 0
  {
    hide Run, Contains;
    WinnersAreNotBelow(Overwrite, owners, middle, second);
    OnlyWrittenWin(Overwrite, owners, middle, second);
    CompareTotal(middle.peers[w].lease, middle.peers[w].lease);
  }

  lemma OneMember(s: set<nat>, w: nat)
    requires w in s
    ensures |s| == 1 <==> forall p :: p in s ==> p == w
  {
    assert s == {w} + (s - {w});
    if forall p :: p in s ==> p == w { assert s == {w}; }
  }

  // ----- read-backs between puts -----

  /** The leases put during a run, in order. */
  function Puts(policy: Policy, owners: seq<Bytes>, s: State, actions: seq<Action>): seq<RepairLease>
    requires |s.peers| == |owners|
    decreases |actions|
  {
    if actions == [] then []
    else
      (match actions[0]
       case Put(p, ok) => if p < |s.peers| && s.peers[p].Decided? && ok then [s.peers[p].lease] else []
       case _ => [])
      + Puts(policy, owners, Step(policy, owners, s, actions[0]), actions[1..])
  }

  /** What a store makes of puts one after the other. */
  function Folded(policy: Policy, reg: Stored, puts: seq<RepairLease>): Stored
    decreases |puts|
  {
    if puts == [] then reg else Folded(policy, Stores(policy, reg, puts[0]), puts[1..])
  }

  ghost predicate WrittenPut(peers: seq<Peer>, puts: seq<RepairLease>, before: seq<Peer>) {
    forall p :: 0 <= p < |peers| && peers[p].Written? ==> peers[p].lease in puts || (p < |before| && before[p] == peers[p])
  }

  /** A run leaves in the store what its puts make of it, and a written lease is among them. */
  lemma {:induction false} RunStores(policy: Policy, owners: seq<Bytes>, s: State, actions: seq<Action>)
    requires |s.peers| == |owners|
    ensures var end := Run(policy, owners, s, actions);
      var puts := Puts(policy, owners, s, actions);
      end.reg == Folded(policy, s.reg, puts) && WrittenPut(end.peers, puts, s.peers)
    decreases |actions|
  {
    hide Stores;
    if actions != [] {
      var a, s' := actions[0], Step(policy, owners, s, actions[0]);
      RunStores(policy, owners, s', actions[1..]);
      var rest := Puts(policy, owners, s', actions[1..]);
      if a.Put? && a.p < |s.peers| && s.peers[a.p].Decided? && a.ok {
        assert ([s.peers[a.p].lease] + rest)[1..] == rest;
      } else {
        assert [] + rest == rest;
      }
    }
  }

  /** A lease does not lose to what a store holds. */
  predicate NotBelow(l: RepairLease, reg: Stored) {
    reg.Held? ==> CompareLeases(l, reg.lease) >= 0
  }

  /** Not losing to the greatest is not losing to any. */
  lemma {:induction false} FoldedGreatest(reg: Stored, puts: seq<RepairLease>, l: RepairLease)
    ensures NotBelow(l, Folded(KeepGreatest, reg, puts)) <==> NotBelow(l, reg) && forall x :: x in puts ==> CompareLeases(l, x) >= 0
    ensures reg.Held? || puts != [] ==> Folded(KeepGreatest, reg, puts).Held?
    decreases |puts|
  {
    hide CompareLeases;
    if puts != [] {
      var x := puts[0];
      var reg' := Stores(KeepGreatest, reg, x);
      FoldedGreatest(reg', puts[1..], l);
      assert puts == [x] + puts[1..];
      if reg.Held? {
        CompareTotal(reg.lease, x);
        if CompareLeases(reg.lease, x) > 0 {
          if CompareLeases(l, reg.lease) >= 0 { CompareTransitive(l, reg.lease, x); }
        } else {
          if CompareLeases(l, x) >= 0 { CompareTransitive(l, x, reg.lease); }
        }
      }
    }
  }

  lemma {:induction false} FoldedLast(reg: Stored, puts: seq<RepairLease>)
    requires puts != []
    ensures Folded(Overwrite, reg, puts) == Held(puts[|puts| - 1])
    decreases |puts|
  {
    if |puts| > 1 { FoldedLast(Held(puts[0]), puts[1..]); }
  }

  /** Exactly who wins in any interleaving of reads, puts and read-backs: a peer whose read-back works wins
      if and only if its lease does not lose, on a store that keeps the greatest lease, to the lease found at the start
      or to any put before its read-back; on an overwriting store, to the last one put. */
  lemma WinsExactly(policy: Policy, owners: seq<Bytes>, initial: Stored, actions: seq<Action>, p: nat)
    requires p < |owners|
    requires Run(policy, owners, State(initial, seq(|owners|, _ => Idle)), actions).peers[p].Written?
    ensures var start := State(initial, seq(|owners|, _ => Idle));
      var s, puts := Run(policy, owners, start, actions), Puts(policy, owners, start, actions);
      var l := s.peers[p].lease;
      && l in puts
      && (Step(policy, owners, s, ReadBack(p, true)).peers[p].Winner? <==>
           match policy
           case KeepGreatest => NotBelow(l, initial) && forall x :: x in puts ==> CompareLeases(l, x) >= 0
           case Overwrite => CompareLeases(l, puts[|puts| - 1]) >= 0)
  {
    hide Run, Puts, Folded, CompareLeases;
    var start := State(initial, seq(|owners|, _ => Idle));
    var s, puts := Run(policy, owners, start, actions), Puts(policy, owners, start, actions);
    RunStores(policy, owners, start, actions);
    assert s.peers[p].lease in puts;
    FoldedGreatest(initial, puts, s.peers[p].lease);
    FoldedLast(initial, puts);
  }

  /** Two peers that both read an empty store, then one after the other put and read back: on an overwriting
      store both win; on a store that keeps the greatest lease the second one wins too, unless the first has the
      smaller owner. */
  lemma TwoWinners(policy: Policy, owners: seq<Bytes>, p: nat, q: nat, now: int, intent: Digest)
    requires p != q && p < |owners| && q < |owners|
    ensures var start := State(Empty, seq(|owners|, _ => Idle));
      var end := Run(policy, owners, start,
        [Read(p, now, intent, true), Read(q, now, intent, true)] + [Put(p, true), ReadBack(p, true)] + [Put(q, true), ReadBack(q, true)]);
      end.peers[p].Winner? && (end.peers[q].Winner? <==> policy == Overwrite || !LexLess(owners[p], owners[q]))
  {
    hide Run, Step;
    var start := State(Empty, seq(|owners|, _ => Idle));
    var looks := [Read(p, now, intent, true), Read(q, now, intent, true)];
    var one, two := [Put(p, true)] + [ReadBack(p, true)], [Put(q, true)] + [ReadBack(q, true)];
    var s1 := Run(policy, owners, start, looks);
    BothRead(policy, owners, start, p, q, now, intent);
    var s2 := Run(policy, owners, s1, one);
    PutThenReadBack(policy, owners, s1, p);
    PutThenReadBack(policy, owners, s2, q);
    LexTotal(owners[p], owners[q]);
    RunSplit(policy, owners, start, looks, one);
    RunSplit(policy, owners, start, looks + one, two);
    assert [Read(p, now, intent, true), Read(q, now, intent, true)] + [Put(p, true), ReadBack(p, true)] + [Put(q, true), ReadBack(q, true)]
      == looks + one + two;
  }

  lemma BothRead(policy: Policy, owners: seq<Bytes>, s: State, p: nat, q: nat, now: int, intent: Digest)
    requires |s.peers| == |owners| && p != q && p < |owners| && q < |owners| && s.peers[p] == s.peers[q] == Idle && s.reg == Empty
    ensures var end := Run(policy, owners, s, [Read(p, now, intent, true), Read(q, now, intent, true)]);
      && end.reg == Empty
      && end.peers[p] == Decided(NewLease(1, owners[p], now, intent)) && end.peers[q] == Decided(NewLease(1, owners[q], now, intent))
  {
    var looks := [Read(p, now, intent, true), Read(q, now, intent, true)];
    assert looks[1..] == [looks[1]];
    var s' := Step(policy, owners, s, looks[0]);
    assert Run(policy, owners, s', [looks[1]]) == Step(policy, owners, s', looks[1]);
  }

  /** A put followed at once by its read-back wins exactly when the store took it, and settles nobody else's race. */
  lemma PutThenReadBack(policy: Policy, owners: seq<Bytes>, s: State, p: nat)
    requires |s.peers| == |owners| && p < |s.peers| && s.peers[p].Decided?
    ensures var l := s.peers[p].lease;
      Run(policy, owners, s, [Put(p, true)] + [ReadBack(p, true)])
        == State(Stores(policy, s.reg, l), s.peers[p := if Stores(policy, s.reg, l) == Held(l) then Winner(l) else Out])
  {
    var l, both := s.peers[p].lease, [Put(p, true)] + [ReadBack(p, true)];
    CompareTotal(l, l);
    if s.reg.Held? { CompareTotal(l, s.reg.lease); }
    assert both[1..] == [ReadBack(p, true)];
    var s' := Step(policy, owners, s, Put(p, true));
    assert Run(policy, owners, s', [ReadBack(p, true)]) == Step(policy, owners, s', ReadBack(p, true));
  }

  lemma {:induction false} RunSplit(policy: Policy, owners: seq<Bytes>, s: State, a: seq<Action>, b: seq<Action>)
    requires |s.peers| == |owners|
    ensures Run(policy, owners, s, a + b) == Run(policy, owners, Run(policy, owners, s, a), b)
    decreases |a|
  {
    if a == [] {
      assert a + b == b;
    } else {
      RunSplit(policy, owners, Step(policy, owners, s, a[0]), a[1..], b);
      assert (a + b)[1..] == a[1..] + b;
    }
  }
}

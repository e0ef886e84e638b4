/** `LockTable`: per key, which transaction holds the lock, for whom it is reserved and who waits. */
module LockTables {
  import opened Keys
  import opened Timestamps
  import opened Txns

  type GuardId = nat

  /** A request's place in the lock table, with the properties of its transaction. */
  datatype Guard = Guard(id: GuardId, txnId: TxnId, readTimestamp: Timestamp)

  /** `woken` lists the guards that have been told to stop waiting, in order. */
  datatype Lock = Lock(
    holder: Option<TxnMetadata>,
    reservation: Option<Guard>,
    queuedWriters: seq<Guard>,
    waitingReaders: seq<Guard>,
    lastCommitted: Option<Timestamp>,
    woken: seq<GuardId>)

  const NEW_LOCK := Lock(None, None, [], [], None, [])

  datatype UpdateLock = Commit(txnId: TxnId, commitTimestamp: Timestamp) | Abort(txnId: TxnId)

  /** `Panic` stands for a call that the program does not survive. */
  datatype Outcome<+T> = Done(result: T) | Panic

  function Ids(guards: seq<Guard>): (r: seq<GuardId>)
    ensures |r| == |guards| && forall i :: 0 <= i < |r| ==> r[i] == guards[i].id
  {
    seq(|guards|, i requires 0 <= i < |guards| => guards[i].id)
  }

  function Without(guards: seq<Guard>, id: GuardId): seq<Guard> {
    if guards == [] then []
    else (if guards[0].id != id then [guards[0]] else []) + Without(guards[1..], id)
  }

  // ---------- the operations on one lock ----------

  function ClaimReservation(l: Lock, g: Guard): Lock {
    l.(reservation := Some(g), woken := l.woken + [g.id])
  }

  /** Wakes all readers and reserves the lock for the first writer. Tells whether nobody is left. */
  function LockIsFree(l: Lock): Outcome<(Lock, bool)> {
    if l.holder.Some? || l.reservation.Some? then Panic
    else
      var freed := l.(waitingReaders := [], woken := l.woken + Ids(l.waitingReaders));
      if l.queuedWriters == [] then Done((freed, true))
      else Done((ClaimReservation(freed.(queuedWriters := l.queuedWriters[1..]), l.queuedWriters[0]), false))
  }

  /** Tells whether the request has to wait, and queues it if so. */
  function TryActiveWait(l: Lock, g: Guard, isReadOnly: bool): (Lock, bool) {
    if isReadOnly && l.holder.None? then (l, false)
    else if l.reservation.Some? && l.reservation.value.txnId == g.txnId then (l, false)
    else if l.reservation.None? && l.holder.None? then (ClaimReservation(l, g), false)
    else if l.holder.Some? && l.holder.value.txnId == g.txnId then (l, false)
    else if isReadOnly then
      if g.readTimestamp.Lt(l.holder.value.writeTimestamp) then (l, false)
      else (l.(waitingReaders := l.waitingReaders + [g]), true)
    else (l.(queuedWriters := l.queuedWriters + [g]), true)
  }

  function RequestDone(l: Lock, g: Guard): Outcome<Lock> {
    var freed := if l.reservation.Some? && l.reservation.value.id == g.id
                 then LockIsFree(l.(reservation := None)) else Done((l, false));
    match freed
    case Panic => Panic
    case Done((l', _)) =>
      Done(l'.(queuedWriters := Without(l'.queuedWriters, g.id), waitingReaders := Without(l'.waitingReaders, g.id)))
  }

  function AcquireLock(l: Lock, txn: TxnMetadata): Outcome<Lock> {
    if l.holder.Some? && l.holder.value.txnId != txn.txnId then Panic
    else if l.reservation.Some? && l.reservation.value.txnId != txn.txnId then Panic
    else Done(l.(reservation := None, holder := Some(txn)))
  }

  /** Releases the lock of a finished transaction. Tells whether the lock can be collected. */
  function UpdateLocks(l: Lock, update: UpdateLock): Outcome<(Lock, bool)> {
    if l.reservation.None? && l.holder.None? then Done((l, true))
    else if l.holder.Some? && l.holder.value.txnId != update.txnId then Done((l, false))
    else LockIsFree(Released(l, update))
  }

  /** The lock when its transaction has let go of it. */
  function Released(l: Lock, update: UpdateLock): Lock {
    l.(holder := None, lastCommitted := if update.Commit? then Some(update.commitTimestamp) else l.lastCommitted)
  }

  function AddDiscoveredLock(l: Lock, g: Guard, isReadOnly: bool, intent: TxnMetadata): Lock {
    var held := l.(holder := if l.holder.None? then Some(intent) else l.holder, reservation := None);
    if isReadOnly then held.(waitingReaders := l.waitingReaders + [g])
    else held.(queuedWriters := l.queuedWriters + [g])
  }

  // ---------- the lock table ----------

  /** The write timestamps of the running transactions. */
  class TxnMap {
    var writeTimestamps: map<TxnId, Timestamp>

    constructor ()
      ensures writeTimestamps == map[]
    {
      writeTimestamps := map[];
    }
  }

  class LockState {
    var reservation: Option<Guard>
    var lockHolder: Option<TxnMetadata>
    var queuedWriters: seq<Guard>
    var waitingReaders: seq<Guard>
    var lastCommittedTimestamp: Option<Timestamp>
    var woken: seq<GuardId>
    const txns: TxnMap

    function GetLock(): Lock
      reads this
    {
      Lock(lockHolder, reservation, queuedWriters, waitingReaders, lastCommittedTimestamp, woken)
    }

    constructor (txns: TxnMap)
      ensures GetLock() == NEW_LOCK && this.txns == txns
    {
      reservation, lockHolder, queuedWriters, waitingReaders := None, None, [], [];
      lastCommittedTimestamp, woken := None, [];
      this.txns := txns;
    }

    method DoneWaitingAtLock(guard: Guard)
      modifies `woken
      ensures woken == old(woken) + [guard.id]
    {
      woken := woken + [guard.id];
    }

    method ClaimTheReservation(guard: Guard)
      modifies this, txns
      ensures GetLock() == ClaimReservation(old(GetLock()), guard)
      ensures txns.writeTimestamps == Claimed(old(GetLock()), guard, old(txns.writeTimestamps))
    {
      BumpTxnWriteTimestamp(guard.txnId);
      reservation := Some(guard);
      DoneWaitingAtLock(guard);
    }

    method BumpTxnWriteTimestamp(txnId: TxnId)
      modifies txns
      ensures txns.writeTimestamps == match lastCommittedTimestamp
        case Some(t) => old(txns.writeTimestamps)[txnId := NextLogical(t)]
        case None => old(txns.writeTimestamps)
    {
      match lastCommittedTimestamp {
        case Some(t) => txns.writeTimestamps := txns.writeTimestamps[txnId := NextLogical(t)];
        case None =>
      }
    }

    /** Called with a holder or a reservation, the program panics. */
    method FreeLock() returns (canCollect: bool)
      requires lockHolder.None? && reservation.None?
      modifies this, txns
      ensures LockIsFree(old(GetLock())) == Done((GetLock(), canCollect))
      ensures txns.writeTimestamps ==
        if canCollect then old(txns.writeTimestamps)
        else Claimed(old(GetLock()), old(queuedWriters)[0], old(txns.writeTimestamps))
    {
      var readers := waitingReaders;
      for i := 0 to |readers|
        invariant woken == old(woken) + Ids(readers[..i])
        invariant GetLock() == old(GetLock()).(woken := woken)
        invariant txns.writeTimestamps == old(txns.writeTimestamps)
      {
        assert Ids(readers[..i + 1]) == Ids(readers[..i]) + [readers[i].id];
        DoneWaitingAtLock(readers[i]);
      }
      assert readers[..|readers|] == readers;
      waitingReaders := [];
      if |queuedWriters| == 0 {
        return true;
      }
      var first := queuedWriters[0];
      queuedWriters := queuedWriters[1..];
      ClaimTheReservation(first);
      return false;
    }

    method TryWait(guard: Guard, isReadOnly: bool) returns (shouldWait: bool)
      modifies this, txns
      ensures TryActiveWait(old(GetLock()), guard, isReadOnly) == (GetLock(), shouldWait)
      ensures txns.writeTimestamps == TimesAfter(old(GetLock()), Wait(guard, isReadOnly), old(txns.writeTimestamps))
    {
      if isReadOnly && lockHolder.None? {
        return false;
      }
      if reservation.Some? {
        if guard.txnId == reservation.value.txnId {
          return false;
        }
      } else if lockHolder.None? {
        ClaimTheReservation(guard);
        return false;
      }
      if lockHolder.Some? {
        if lockHolder.value.txnId == guard.txnId {
          return false;
        }
      }
      if isReadOnly {
        match lockHolder {
          case Some(holder) =>
            if guard.readTimestamp.Lt(holder.writeTimestamp) {
              return false;
            }
            waitingReaders := waitingReaders + [guard];
          case None =>
            return false;
        }
      } else {
        queuedWriters := queuedWriters + [guard];
      }
      return true;
    }

    /** The part of `update_locks` that concerns one lock. */
    method UpdateHolder(update: UpdateLock) returns (r: Outcome<bool>)
      requires Inv(GetLock())
      modifies this, txns
      ensures Inv(GetLock())
      ensures
        match UpdateLocks(old(GetLock()), update)
        case Done((l, canCollect)) => r == Done(canCollect) && GetLock() == l
        case Panic => r == Panic && GetLock() == Released(old(GetLock()), update)
      ensures txns.writeTimestamps ==
        if r.Done? then TimesAfter(old(GetLock()), Op.Update(update), old(txns.writeTimestamps))
        else old(txns.writeTimestamps)
    {
      ghost var l := GetLock();
      if reservation.None? && lockHolder.None? {
        return Done(true);
      }
      if lockHolder.Some? {
        if lockHolder.value.txnId != update.txnId {
          return Done(false);
        }
      }
      lockHolder := None;
      if update.Commit? {
        lastCommittedTimestamp := Some(update.commitTimestamp);
      }
      if reservation.Some? {
        return Panic;
      }
      var canCollect := FreeLock();
      StepInv(l, Op.Update(update));
      return Done(canCollect);
    }

    method Discovered(guard: Guard, isReadOnly: bool, intent: TxnMetadata)
      modifies this
      ensures GetLock() == AddDiscoveredLock(old(GetLock()), guard, isReadOnly, intent)
    {
      if lockHolder.None? {
        lockHolder := Some(intent);
      }
      if reservation.Some? {
        reservation := None;
      }
      if isReadOnly {
        waitingReaders := waitingReaders + [guard];
      } else {
        queuedWriters := queuedWriters + [guard];
      }
    }

    method FinishRequest(guard: Guard)
      requires Inv(GetLock())
      modifies this, txns
      ensures RequestDone(old(GetLock()), guard) == Done(GetLock()) && Inv(GetLock())
      ensures txns.writeTimestamps == TimesAfter(old(GetLock()), Finish(guard), old(txns.writeTimestamps))
    {
      ghost var l := GetLock();
      if reservation.Some? {
        if reservation.value.id == guard.id {
          reservation := None;
          var _ := FreeLock();
        }
      }
      queuedWriters := Without(queuedWriters, guard.id);
      waitingReaders := Without(waitingReaders, guard.id);
      StepInv(l, Finish(guard));
    }
  }

  /** The write timestamps after a guard has claimed the reservation of a lock. */
  function Claimed(l: Lock, guard: Guard, before: map<TxnId, Timestamp>): map<TxnId, Timestamp> {
    match l.lastCommitted
    case Some(t) => before[guard.txnId := NextLogical(t)]
    case None => before
  }

  class LockTable {
    var locks: map<Key, LockState>
    const txns: TxnMap

    /** Every lock is a separate object in a consistent state. */
    ghost predicate Valid()
      reads this, locks.Values
    {
      (forall k :: k in locks ==> Inv(locks[k].GetLock()) && locks[k].txns == txns) &&
      (forall k, k' :: k in locks && k' in locks && k != k' ==> locks[k] != locks[k'])
    }

    /** The state of the lock of a key; a lock that was never used is a new one. */
    function LockOf(key: Key): Lock
      reads this, locks.Values
    {
      if key in locks then locks[key].GetLock() else NEW_LOCK
    }

    ghost function Snapshot(): map<Key, Lock>
      reads this, locks.Values
    {
      map k | k in locks :: locks[k].GetLock()
    }

    constructor (txns: TxnMap)
      ensures Valid() && locks == map[] && this.txns == txns
    {
      locks := map[];
      this.txns := txns;
    }

    /** Returns false where the program panics: another transaction holds or has reserved the lock. */
    method Acquire(key: Key, txn: TxnMetadata) returns (isDone: bool)
      requires Valid()
      modifies this, locks.Values
      ensures Valid() && (isDone <==> AcquireLock(old(LockOf(key)), txn).Done?)
      ensures LockOf(key) == if isDone then AcquireLock(old(LockOf(key)), txn).result else old(LockOf(key))
      ensures forall k :: k != key ==> LockOf(k) == old(LockOf(k))
      ensures fresh(locks.Values - old(locks.Values))
    {
      ghost var l := LockOf(key);
      if key in locks {
        var state := locks[key];
        if state.lockHolder.Some? {
          if state.lockHolder.value.txnId != txn.txnId {
            return false;
          }
        }
        if state.reservation.Some? {
          if state.reservation.value.txnId != txn.txnId {
            return false;
          }
        }
        state.reservation := None;
        state.lockHolder := Some(txn);
      } else {
        var state := new LockState(txns);
        state.lockHolder := Some(txn);
        locks := locks[key := state];
      }
      return true;
    }

    /** Tells whether the lock can be collected. A lock that is only reserved makes the program panic. */
    method Update(key: Key, update: UpdateLock) returns (r: Outcome<bool>)
      requires Valid()
      modifies locks.Values, txns
      ensures Valid() && locks == old(locks)
      ensures
        if key !in locks then r == Done(false)
        else
          match UpdateLocks(old(LockOf(key)), update)
          case Done((l, canCollect)) => r == Done(canCollect) && LockOf(key) == l
          case Panic => r == Panic && LockOf(key) == Released(old(LockOf(key)), update)
      ensures txns.writeTimestamps ==
        if key in locks && r.Done? then TimesAfter(old(LockOf(key)), Op.Update(update), old(txns.writeTimestamps))
        else old(txns.writeTimestamps)
      ensures forall k :: k != key ==> LockOf(k) == old(LockOf(k))
    {
      hide Inv, UpdateLocks, TimesAfter, Released;
      if key !in locks {
        return Done(false);
      }
      r := locks[key].UpdateHolder(update);
    }

    /** An intent was found of which the table does not know. */
    method AddDiscovered(key: Key, guard: Guard, isReadOnly: bool, intent: TxnMetadata)
      requires Valid()
      modifies this, locks.Values
      ensures Valid() && LockOf(key) == AddDiscoveredLock(old(LockOf(key)), guard, isReadOnly, intent)
      ensures forall k :: k != key ==> LockOf(k) == old(LockOf(k))
    {
      var state;
      if key in locks {
        state := locks[key];
      } else {
        state := new LockState(txns);
      }
      locks := locks[key := state];
      state.Discovered(guard, isReadOnly, intent);
    }
  }

  // ---------- the invariant ----------

  predicate Inv(l: Lock) {
    !(l.holder.Some? && l.reservation.Some?) &&
    (l.holder.None? ==> l.waitingReaders == []) &&
    (l.holder.None? && l.reservation.None? ==> l.queuedWriters == [])
  }

  datatype Op =
    | Wait(guard: Guard, isReadOnly: bool)
    | Finish(guard: Guard)
    | Acquire(txn: TxnMetadata)
    | Update(update: UpdateLock)
    | Discover(guard: Guard, isReadOnly: bool, intent: TxnMetadata)

  function Step(l: Lock, op: Op): Outcome<Lock> {
    match op
    case Wait(g, isReadOnly) => Done(TryActiveWait(l, g, isReadOnly).0)
    case Finish(g) => RequestDone(l, g)
    case Acquire(txn) => AcquireLock(l, txn)
    case Update(update) =>
      (match UpdateLocks(l, update)
       case Panic => Panic
       case Done((l', _)) => Done(l'))
    case Discover(g, isReadOnly, intent) => Done(AddDiscoveredLock(l, g, isReadOnly, intent))
  }

  /** A request or transaction gives up the lock: `lock_is_free` is called. */
  predicate Frees(l: Lock, op: Op) {
    (op.Finish? && l.reservation.Some? && l.reservation.value.id == op.guard.id) ||
    (op.Update? && !(l.reservation.None? && l.holder.None?) &&
     !(l.holder.Some? && l.holder.value.txnId != op.update.txnId))
  }

  /** The guard for which an operation reserves the lock. */
  function ClaimedBy(l: Lock, op: Op): Option<Guard> {
    if op.Wait? && !op.isReadOnly && l.reservation.None? && l.holder.None? then Some(op.guard)
    else if Frees(l, op) && l.queuedWriters != [] then Some(l.queuedWriters[0])
    else None
  }

  /** The write timestamps of the transactions after an operation. */
  function TimesAfter(l: Lock, op: Op, before: map<TxnId, Timestamp>): map<TxnId, Timestamp> {
    match (ClaimedBy(l, op), Step(l, op))
    case (Some(g), Done(l')) => Claimed(l', g, before)
    case _ => before
  }

  lemma {:induction false} WithoutMembers(guards: seq<Guard>, id: GuardId)
    ensures forall g :: g in Without(guards, id) <==> g in guards && g.id != id
  {
    if guards != [] {
      WithoutMembers(guards[1..], id);
      assert guards == [guards[0]] + guards[1..];
    }
  }

  lemma {:induction false} StepInv(l: Lock, op: Op)
    requires Inv(l) && Step(l, op).Done?
    ensures Inv(Step(l, op).result)
  {
    if op.Finish? {
      assert Without([], op.guard.id) == [];
    }
  }

  function Run(l: Lock, ops: seq<Op>): Outcome<Lock>
    decreases |ops|
  {
    if ops == [] then Done(l)
    else match Step(l, ops[0])
      case Panic => Panic
      case Done(l') => Run(l', ops[1..])
  }

  /** The invariant holds in every lock state that a run can reach. */
  lemma {:induction false} RunInv(l: Lock, ops: seq<Op>)
    requires Inv(l) && Run(l, ops).Done?
    ensures Inv(Run(l, ops).result)
    decreases |ops|
  {
    if ops != [] {
      StepInv(l, ops[0]);
      RunInv(Step(l, ops[0]).result, ops[1..]);
    }
  }

  /** A finishing request never runs into the panics of `lock_is_free`. A finishing transaction
      does exactly if the lock is reserved, which it is not if the transaction holds it. */
  lemma WhenLockIsFreePanics(ops: seq<Op>, g: Guard, update: UpdateLock)
    requires Run(NEW_LOCK, ops).Done?
    ensures
      var l := Run(NEW_LOCK, ops).result;
      RequestDone(l, g).Done? &&
      (UpdateLocks(l, update).Panic? <==> l.reservation.Some?) &&
      (l.holder.Some? && l.holder.value.txnId == update.txnId ==> l.reservation.None?)
  {
    RunInv(NEW_LOCK, ops);
  }

  /** A transaction that is finished twice, the lock having passed to a waiting writer in between. */
  lemma SecondUpdatePanics()
    ensures
      var ops := [
        Op.Acquire(TxnMetadata(1, Timestamp(5, 0))), Wait(Guard(7, 2, Timestamp(6, 0)), false), Op.Update(Abort(1))];
      Run(NEW_LOCK, ops).Done? && UpdateLocks(Run(NEW_LOCK, ops).result, Abort(1)).Panic?
  {
    var a, b := Op.Acquire(TxnMetadata(1, Timestamp(5, 0))), Wait(Guard(7, 2, Timestamp(6, 0)), false);
    var c := Op.Update(Abort(1));
    var l1 := Step(NEW_LOCK, a).result;
    var l2 := Step(l1, b).result;
    var l3 := Step(l2, c).result;
    assert l3.reservation == Some(b.guard) && Run(l3, []) == Done(l3);
    assert Run(NEW_LOCK, [a, b, c]) == Run(l1, [b, c]) == Run(l2, [c]) == Run(l3, []);
  }

  /** The only other panics: acquiring a lock that another transaction holds or has reserved. */
  lemma WhenAcquirePanics(ops: seq<Op>, txn: TxnMetadata)
    requires Run(NEW_LOCK, ops).Done?
    ensures
      var l := Run(NEW_LOCK, ops).result;
      AcquireLock(l, txn).Panic? <==>
        !(l.holder == None && l.reservation == None) &&
        txn.txnId != if l.holder.Some? then l.holder.value.txnId else l.reservation.value.txnId
  {
    RunInv(NEW_LOCK, ops);
  }

  /** Readers wait only for another transaction's intent that is not newer than the read; writers
      wait for any other transaction that holds the lock or has it reserved. */
  lemma WhoWaits(l: Lock, g: Guard, isReadOnly: bool)
    requires Inv(l)
    ensures TryActiveWait(l, g, isReadOnly).1 <==>
      if isReadOnly then
        l.holder.Some? && l.holder.value.txnId != g.txnId && l.holder.value.writeTimestamp.Le(g.readTimestamp)
      else
        (l.holder.Some? && l.holder.value.txnId != g.txnId) ||
        (l.reservation.Some? && l.reservation.value.txnId != g.txnId)
  {
    if l.holder.Some? {
      TimestampOrder(g.readTimestamp, l.holder.value.writeTimestamp, g.readTimestamp);
    }
  }

  // ---------- no lost wake-ups ----------

  predicate IsQueued(l: Lock, g: Guard) {
    g in l.queuedWriters || g in l.waitingReaders
  }

  /** Whoever waits is still queued after an operation, or has been woken by it, or is the one
      whose request is done; and who has been woken stays so. */
  lemma {:induction false} StepForgetsNobody(l: Lock, op: Op, g: Guard)
    requires Step(l, op).Done?
    ensures
      var l' := Step(l, op).result;
      l.woken <= l'.woken &&
      (IsQueued(l, g) ==>
        IsQueued(l', g) || g.id in l'.woken[|l.woken|..] || (op.Finish? && op.guard.id == g.id))
  {
    if op.Finish? {
      FinishForgetsNobody(l, op.guard, g);
    } else if op.Update? {
      FreeForgetsNobody(Released(l, op.update), g);
    }
  }

  lemma FreeForgetsNobody(l: Lock, g: Guard)
    ensures
      match LockIsFree(l)
      case Panic => l.holder.Some? || l.reservation.Some?
      case Done((l', _)) =>
        l.woken <= l'.woken && (IsQueued(l, g) ==> IsQueued(l', g) || g.id in l'.woken[|l.woken|..]) &&
        l'.waitingReaders == []
  {
    if LockIsFree(l).Done? {
      var news := LockIsFree(l).result.0.woken[|l.woken|..];
      assert news == Ids(l.waitingReaders) + if l.queuedWriters == [] then [] else [l.queuedWriters[0].id];
      if g in l.waitingReaders {
        var i :| 0 <= i < |l.waitingReaders| && l.waitingReaders[i] == g;
        assert news[i] == g.id;
      }
    }
    assert l.queuedWriters != [] ==> l.queuedWriters == [l.queuedWriters[0]] + l.queuedWriters[1..];
  }

  lemma FinishForgetsNobody(l: Lock, done: Guard, g: Guard)
    requires RequestDone(l, done).Done?
    ensures
      var l' := RequestDone(l, done).result;
      l.woken <= l'.woken && (forall q :: IsQueued(l', q) ==> q.id != done.id) &&
      (IsQueued(l, g) ==> IsQueued(l', g) || g.id in l'.woken[|l.woken|..] || done.id == g.id)
  {
    FreeForgetsNobody(l.(reservation := None), g);
    var freed := if l.reservation.Some? && l.reservation.value.id == done.id
                 then LockIsFree(l.(reservation := None)) else Done((l, false));
    WithoutMembers(freed.result.0.queuedWriters, done.id);
    WithoutMembers(freed.result.0.waitingReaders, done.id);
  }

  /** In every run: a guard that waits at some time is later still queued, has been woken, or its
      request is done. */
  lemma {:induction false} NobodyIsForgotten(l: Lock, ops: seq<Op>, g: Guard)
    requires Run(l, ops).Done?
    ensures
      var l' := Run(l, ops).result;
      l.woken <= l'.woken &&
      (IsQueued(l, g) ==>
        IsQueued(l', g) || g.id in l'.woken[|l.woken|..] ||
        exists i :: 0 <= i < |ops| && ops[i].Finish? && ops[i].guard.id == g.id)
    decreases |ops|
  {
    hide Step, IsQueued;
    if ops != [] {
      var l1, l' := Step(l, ops[0]).result, Run(l, ops).result;
      StepForgetsNobody(l, ops[0], g);
      NobodyIsForgotten(l1, ops[1..], g);
      if i :| 0 <= i < |ops[1..]| && ops[1..][i].Finish? && ops[1..][i].guard.id == g.id {
        assert ops[i + 1] == ops[1..][i];
      }
      var n, m := |l.woken|, |l1.woken|;
      assert l'.woken[n..] == l1.woken[n..] + l'.woken[m..];
    }
  }

  // ---------- first in, first out ----------

  /** A writer joins the queue. */
  predicate Queues(l: Lock, op: Op) {
    (op.Wait? && !op.isReadOnly && TryActiveWait(l, op.guard, false).1) || (op.Discover? && !op.isReadOnly)
  }

  /** A lock with its history. Writers draw consecutive tickets when they join the queue. */
  datatype History = History(
    lock: Lock,
    arrivals: seq<Guard>,  // the writer that drew each ticket
    queue: seq<nat>,       // the tickets of the queued writers
    granted: seq<nat>,     // the tickets that `lock_is_free` has turned into reservations, in order
    gone: set<nat>)        // the tickets of writers that have left the queue with `request_done`

  const NEW_HISTORY := History(NEW_LOCK, [], [], [], {})

  /** The tickets of the guards other than `id`. */
  function TicketsWithout(guards: seq<Guard>, tickets: seq<nat>, id: GuardId): seq<nat>
    requires |guards| == |tickets|
  {
    if guards == [] then []
    else (if guards[0].id != id then [tickets[0]] else []) + TicketsWithout(guards[1..], tickets[1..], id)
  }

  function TicketsOf(guards: seq<Guard>, tickets: seq<nat>, id: GuardId): set<nat>
    requires |guards| == |tickets|
  {
    if guards == [] then {}
    else (if guards[0].id == id then {tickets[0]} else {}) + TicketsOf(guards[1..], tickets[1..], id)
  }

  /** The history after the lock may have passed to the first writer in the queue. */
  function AfterFree(h: History, op: Op): History {
    if Frees(h.lock, op) && h.queue != [] then h.(granted := h.granted + [h.queue[0]], queue := h.queue[1..]) else h
  }

  function HistoryStep(h: History, op: Op): History
    requires |h.queue| == |h.lock.queuedWriters| && Step(h.lock, op).Done?
  {
    var lock' := Step(h.lock, op).result;
    var freed := AfterFree(h, op);
    if op.Finish? then
      var writers := if Frees(h.lock, op) && h.queue != [] then h.lock.queuedWriters[1..] else h.lock.queuedWriters;
      freed.(lock := lock', queue := TicketsWithout(writers, freed.queue, op.guard.id),
             gone := h.gone + TicketsOf(writers, freed.queue, op.guard.id))
    else if Queues(h.lock, op) then
      freed.(lock := lock', queue := freed.queue + [|h.arrivals|], arrivals := h.arrivals + [op.guard])
    else freed.(lock := lock')
  }

  predicate Increasing(s: seq<nat>) {
    forall i, j :: 0 <= i < j < |s| ==> s[i] < s[j]
  }

  /** The tickets name the guards, and are in the order in which they were drawn. */
  ghost predicate Match(arrivals: seq<Guard>, guards: seq<Guard>, tickets: seq<nat>) {
    |guards| == |tickets| && Increasing(tickets) &&
    forall i :: 0 <= i < |guards| ==> tickets[i] < |arrivals| && guards[i] == arrivals[tickets[i]]
  }

  ghost predicate AllBefore(a: seq<nat>, b: seq<nat>) {
    forall x, y :: x in a && y in b ==> x < y
  }

  /** The queue is what the tickets say, in the order of the tickets, behind all granted ones,
      and every ticket is either queued, granted or gone. */
  ghost predicate InOrder(h: History) {
    Match(h.arrivals, h.lock.queuedWriters, h.queue) &&
    Increasing(h.granted) && AllBefore(h.granted, h.queue) &&
    (forall t :: t in h.granted ==> t < |h.arrivals|) &&
    (forall t :: 0 <= t < |h.arrivals| ==> t in h.queue || t in h.granted || t in h.gone)
  }

  lemma MatchCons(arrivals: seq<Guard>, guards: seq<Guard>, tickets: seq<nat>, t: nat)
    requires Match(arrivals, guards, tickets) && t < |arrivals|
    requires forall x :: x in tickets ==> t < x
    ensures Match(arrivals, [arrivals[t]] + guards, [t] + tickets)
  {
    assert forall i :: 0 <= i < |tickets| ==> tickets[i] in tickets;
  }

  lemma {:induction false} WithoutMatches(arrivals: seq<Guard>, guards: seq<Guard>, tickets: seq<nat>, id: GuardId)
    requires Match(arrivals, guards, tickets)
    ensures |guards| == |tickets|
    ensures Match(arrivals, Without(guards, id), TicketsWithout(guards, tickets, id))
    ensures forall t :: t in TicketsWithout(guards, tickets, id) <==>
      t in tickets && t < |arrivals| && arrivals[t].id != id
    ensures forall t :: t in TicketsOf(guards, tickets, id) <==>
      t in tickets && t < |arrivals| && arrivals[t].id == id
  {
    if guards != [] {
      hide Match;
      WithoutMatches(arrivals, guards[1..], tickets[1..], id);
      if guards[0].id != id {
        MatchCons(arrivals, Without(guards[1..], id), TicketsWithout(guards[1..], tickets[1..], id), tickets[0]);
      } else {
        assert Without(guards, id) == Without(guards[1..], id);
        assert TicketsWithout(guards, tickets, id) == TicketsWithout(guards[1..], tickets[1..], id);
      }
    }
  }

  /** The lock after the part of an operation that calls `lock_is_free`, if it does. */
  ghost function FreedWriters(h: History, op: Op): seq<Guard> {
    if Frees(h.lock, op) && h.lock.queuedWriters != [] then h.lock.queuedWriters[1..] else h.lock.queuedWriters
  }

  /** The first writer in the queue, and no other, gets the lock that is given up. */
  lemma {:induction false} FreedInOrder(h: History, op: Op)
    requires InOrder(h)
    ensures
      var h' := AfterFree(h, op);
      InOrder(h'.(lock := h.lock.(queuedWriters := FreedWriters(h, op))))
  {
    if Frees(h.lock, op) && h.queue != [] {
      assert h.queue == [h.queue[0]] + h.queue[1..];
      forall i | 0 <= i < |h.granted| ensures h.granted[i] < h.queue[0] {
        assert h.granted[i] in h.granted && h.queue[0] in h.queue;
      }
      forall x, y | x in h.granted + [h.queue[0]] && y in h.queue[1..] ensures x < y {
        assert y in h.queue;
      }
    }
  }

  /** What an operation does to the queue of writers. */
  lemma StepWriters(h: History, op: Op)
    requires InOrder(h) && Inv(h.lock) && Step(h.lock, op).Done?
    ensures
      var freed := FreedWriters(h, op);
      Step(h.lock, op).result.queuedWriters ==
        if op.Finish? then Without(freed, op.guard.id)
        else if Queues(h.lock, op) then freed + [op.guard]
        else freed
    ensures Frees(h.lock, op) && h.queue != [] ==>
      Step(h.lock, op).result.reservation == Some(h.arrivals[h.queue[0]])
    ensures Queues(h.lock, op) ==> !Frees(h.lock, op) && (op.Wait? || op.Discover?)
  {
  }

  /** A history in which some queued writers are marked as gone. */
  lemma {:induction false} RemovalInOrder(h: History, lock: Lock, id: GuardId, gone: set<nat>)
    requires InOrder(h) && |h.queue| == |h.lock.queuedWriters|
    requires lock.queuedWriters == Without(h.lock.queuedWriters, id)
    requires gone == h.gone + TicketsOf(h.lock.queuedWriters, h.queue, id)
    ensures InOrder(h.(lock := lock, queue := TicketsWithout(h.lock.queuedWriters, h.queue, id), gone := gone))
  {
    hide Match, Increasing;
    WithoutMatches(h.arrivals, h.lock.queuedWriters, h.queue, id);
  }

  lemma ArrivalInOrder(h: History, lock: Lock, g: Guard)
    requires InOrder(h) && lock.queuedWriters == h.lock.queuedWriters + [g]
    ensures InOrder(h.(lock := lock, queue := h.queue + [|h.arrivals|], arrivals := h.arrivals + [g]))
  {
    var h' := h.(lock := lock, queue := h.queue + [|h.arrivals|], arrivals := h.arrivals + [g]);
    forall t | 0 <= t < |h'.arrivals| ensures t in h'.queue || t in h'.granted || t in h'.gone {
      if t == |h.arrivals| {
        assert h'.queue[|h.queue|] == t;
      }
    }
  }

  lemma {:induction false} HistoryInOrder(h: History, op: Op)
    requires InOrder(h) && Inv(h.lock) && Step(h.lock, op).Done?
    ensures InOrder(HistoryStep(h, op))
  {
    hide Inv, Frees, Queues, Step, InOrder;
    InOrderSize(h);
    StepWriters(h, op);
    FreedInOrder(h, op);
    var lock' := Step(h.lock, op).result;
    var freed := AfterFree(h, op).(lock := h.lock.(queuedWriters := FreedWriters(h, op)));
    InOrderSize(freed);
    if op.Finish? {
      RemovalInOrder(freed, lock', op.guard.id, h.gone + TicketsOf(freed.lock.queuedWriters, freed.queue, op.guard.id));
    } else if Queues(h.lock, op) {
      ArrivalInOrder(freed, lock', op.guard);
    } else {
      SameQueueInOrder(freed, lock');
    }
  }

  lemma SameQueueInOrder(h: History, lock: Lock)
    requires InOrder(h) && lock.queuedWriters == h.lock.queuedWriters
    ensures InOrder(h.(lock := lock))
  {
  }

  /** A writer leaves the queue only if it is the first and gets the reservation, or if its own
      request is done. */
  lemma HowToLeaveTheQueue(h: History, op: Op, t: nat)
    requires InOrder(h) && Inv(h.lock) && Step(h.lock, op).Done?
    requires t in h.queue && t !in HistoryStep(h, op).queue
    ensures
      (t == h.queue[0] && HistoryStep(h, op).granted == h.granted + [t] &&
       Step(h.lock, op).result.reservation == Some(h.arrivals[t])) ||
      (op.Finish? && h.arrivals[t].id == op.guard.id && t in HistoryStep(h, op).gone)
  {
    hide Inv, Frees, Queues, Step, InOrder, Match, Increasing;
    InOrderSize(h);
    StepWriters(h, op);
    FreedInOrder(h, op);
    var freed := AfterFree(h, op).(lock := h.lock.(queuedWriters := FreedWriters(h, op)));
    InOrderSize(freed);
    assert h.queue == [h.queue[0]] + h.queue[1..];
    if op.Finish? {
      InOrderMatch(freed);
      WithoutMatches(h.arrivals, freed.lock.queuedWriters, freed.queue, op.guard.id);
    }
  }

  lemma InOrderMatch(h: History)
    requires InOrder(h)
    ensures Match(h.arrivals, h.lock.queuedWriters, h.queue)
    ensures forall t :: t in h.queue ==> t < |h.arrivals|
  {
  }

  /** A request that asks for the lock gets it at once only if no writer is waiting. */
  lemma DirectClaim(l: Lock, g: Guard, isReadOnly: bool)
    requires Inv(l) && TryActiveWait(l, g, isReadOnly).0.reservation != l.reservation
    ensures l.queuedWriters == [] && l.waitingReaders == [] && l.holder.None? && !isReadOnly
    ensures TryActiveWait(l, g, isReadOnly).0.reservation == Some(g)
  {
  }

  function RunHistory(h: History, ops: seq<Op>): Outcome<History>
    requires |h.queue| == |h.lock.queuedWriters|
    decreases |ops|
  {
    if ops == [] then Done(h)
    else if Step(h.lock, ops[0]).Panic? then Panic
    else
      var h' := HistoryStep(h, ops[0]);
      if |h'.queue| == |h'.lock.queuedWriters| then RunHistory(h', ops[1..]) else Panic
  }

  /** The history accompanies every run of the lock, and stays in order. */
  lemma {:induction false} RunInOrder(h: History, ops: seq<Op>)
    requires InOrder(h) && Inv(h.lock)
    ensures RunHistory(h, ops).Done? <==> Run(h.lock, ops).Done?
    ensures RunHistory(h, ops).Done? ==>
      InOrder(RunHistory(h, ops).result) && RunHistory(h, ops).result.lock == Run(h.lock, ops).result
    decreases |ops|
  {
    hide Step, HistoryStep, InOrder, Inv;
    InOrderSize(h);
    if ops != [] && Step(h.lock, ops[0]).Done? {
      StepInv(h.lock, ops[0]);
      HistoryInOrder(h, ops[0]);
      HistoryLock(h, ops[0]);
      InOrderSize(HistoryStep(h, ops[0]));
      RunInOrder(HistoryStep(h, ops[0]), ops[1..]);
    }
  }

  lemma InOrderSize(h: History)
    requires InOrder(h)
    ensures |h.queue| == |h.lock.queuedWriters|
  {
  }

  lemma HistoryLock(h: History, op: Op)
    requires |h.queue| == |h.lock.queuedWriters| && Step(h.lock, op).Done?
    ensures HistoryStep(h, op).lock == Step(h.lock, op).result
  {
  }

  /** Writers are served in the order of their arrival: in every run, once a writer has been
      granted the lock, all that came before it have been granted it earlier or are gone. */
  lemma NoOvertaking(ops: seq<Op>, i: nat, early: nat)
    requires RunHistory(NEW_HISTORY, ops).Done?
    requires
      var h := RunHistory(NEW_HISTORY, ops).result;
      i < |h.granted| && early < h.granted[i]
    ensures
      var h := RunHistory(NEW_HISTORY, ops).result;
      early in h.granted[..i] || early in h.gone
  {
    hide RunHistory, Run;
    RunInOrder(NEW_HISTORY, ops);
    var h := RunHistory(NEW_HISTORY, ops).result;
    assert h.granted[i] in h.granted;
    if early in h.granted {
      var j :| 0 <= j < |h.granted| && h.granted[j] == early;
      assert j < i && h.granted[..i][j] == early;
    }
  }
}

/** What one may rely on at a lock: who is told to wait is served, who is woken may go on, and where
    the write timestamp of a request goes that gets the lock. */
module LockPromises {
  import opened Keys
  import opened Timestamps
  import opened Txns
  import opened LockTables

  // ---------- waiting ----------

  /** A request that is told to wait is queued, readers behind readers and writers behind writers;
      one that is not is not queued. */
  lemma WaitingIsQueued(l: Lock, g: Guard, isReadOnly: bool)
    ensures
      var (l', shouldWait) := TryActiveWait(l, g, isReadOnly);
      if !shouldWait then l'.queuedWriters == l.queuedWriters && l'.waitingReaders == l.waitingReaders
      else if isReadOnly then l'.waitingReaders == l.waitingReaders + [g] && l'.queuedWriters == l.queuedWriters
      else l'.queuedWriters == l.queuedWriters + [g] && l'.waitingReaders == l.waitingReaders
  {
  }

  /** At some moment of a run a request was told to wait. At the end it is queued, or it has been
      woken since, or its request has been done since. */
  lemma {:induction false} WhoWaitsIsServed(ops: seq<Op>, i: nat)
    requires Run(NEW_LOCK, ops).Done? && i < |ops| && ops[i].Wait?
    requires
      Run(NEW_LOCK, ops[..i]).Done? &&
      TryActiveWait(Run(NEW_LOCK, ops[..i]).result, ops[i].guard, ops[i].isReadOnly).1
    ensures
      var before, after := Run(NEW_LOCK, ops[..i]).result, Run(NEW_LOCK, ops).result;
      var g := ops[i].guard;
      before.woken <= after.woken &&
      (IsQueued(after, g) || g.id in after.woken[|before.woken|..] ||
       exists j :: i < j < |ops| && ops[j].Finish? && ops[j].guard.id == g.id)
  {
    hide Step, Run, TryActiveWait;
    var before, g := Run(NEW_LOCK, ops[..i]).result, ops[i].guard;
    var now := TryActiveWait(before, g, ops[i].isReadOnly).0;
    RunParts(NEW_LOCK, ops, i);
    WaitStep(before, ops[i]);
    WaitingIsQueued(before, g, ops[i].isReadOnly);
    NobodyIsForgotten(now, ops[i + 1..], g);
    var rest := ops[i + 1..];
    if k :| 0 <= k < |rest| && rest[k].Finish? && rest[k].guard.id == g.id {
      assert ops[i + 1 + k] == rest[k];
    }
  }

  lemma WaitStep(l: Lock, op: Op)
    requires op.Wait?
    ensures Step(l, op) == Done(TryActiveWait(l, op.guard, op.isReadOnly).0)
    ensures !ClaimsAtOnce(l, op) ==> Step(l, op).result.woken == l.woken
    ensures TryActiveWait(l, op.guard, op.isReadOnly).1 ==> !ClaimsAtOnce(l, op)
  {
  }

  predicate ClaimsAtOnce(l: Lock, op: Op) {
    op.Wait? && ClaimedBy(l, op).Some?
  }

  /** A run is the run of its first part, a step, and the run of the rest. */
  lemma {:induction false} RunParts(l: Lock, ops: seq<Op>, i: nat)
    requires Run(l, ops).Done? && i < |ops|
    ensures Run(l, ops[..i]).Done? && Step(Run(l, ops[..i]).result, ops[i]).Done?
    ensures Run(l, ops) == Run(Step(Run(l, ops[..i]).result, ops[i]).result, ops[i + 1..])
    decreases i
  {
    hide Step;
    if i > 0 {
      RunParts(Step(l, ops[0]).result, ops[1..], i - 1);
      assert ops[1..][..i - 1] == ops[..i][1..] && ops[1..][i..] == ops[i + 1..];
    }
  }

  // ---------- waking ----------

  /** A reservation ends when the lock is acquired, an intent is discovered or its own request is done. */
  predicate GivesUp(l: Lock, op: Op) {
    op.Acquire? || op.Discover? ||
    (op.Finish? && l.reservation.Some? && l.reservation.value.id == op.guard.id)
  }

  /** Exactly those are woken, in this order, whom the lock lets go on: all its readers when it is
      given up, and then the one for whom it is reserved: the first writer, or a request that finds
      nobody waiting. Else a reservation stays, unless it is given up. */
  lemma WhoIsWoken(l: Lock, op: Op)
    requires Inv(l) && Step(l, op).Done?
    ensures
      var l' := Step(l, op).result;
      l'.woken == l.woken + (if l'.holder.None? then Ids(l.waitingReaders) else []) +
        (match ClaimedBy(l, op) case Some(g) => [g.id] case None => [])
    ensures
      match ClaimedBy(l, op)
      case Some(g) =>
        Step(l, op).result.reservation == Some(g) && Step(l, op).result.holder.None? &&
        g == (if l.queuedWriters != [] then l.queuedWriters[0] else op.guard) && (op.Wait? ==> l.queuedWriters == [])
      case None => Step(l, op).result.reservation == if GivesUp(l, op) then None else l.reservation
  {
    assert Ids([]) == [];
  }

  // ---------- holder and last commit ----------

  /** Only these operations change the holder: an acquiring one, the end of the holder's own
      transaction, and the discovery of an intent at a lock without a holder. */
  lemma WhoHolds(l: Lock, op: Op)
    requires Step(l, op).Done?
    ensures
      var l' := Step(l, op).result;
      match op
      case Acquire(txn) => l'.holder == Some(txn) && l'.reservation.None?
      case Update(update) =>
        l'.holder == if l.holder.Some? && l.holder.value.txnId == update.txnId then None else l.holder
      case Discover(_, _, intent) => l'.holder == (if l.holder.Some? then l.holder else Some(intent)) &&
        l'.reservation.None?
      case _ => l'.holder == l.holder
  {
  }

  /** A discovered intent makes the request wait that has found it. */
  lemma DiscovererIsQueued(l: Lock, g: Guard, isReadOnly: bool, intent: TxnMetadata)
    ensures
      var l' := AddDiscoveredLock(l, g, isReadOnly, intent);
      l'.holder.Some? &&
      l'.waitingReaders == l.waitingReaders + (if isReadOnly then [g] else []) &&
      l'.queuedWriters == l.queuedWriters + (if isReadOnly then [] else [g])
  {
  }

  /** A lock can be collected after the end of a transaction exactly if it is of no more use. */
  lemma CollectableIff(l: Lock, update: UpdateLock)
    requires Inv(l) && UpdateLocks(l, update).Done?
    ensures
      var (l', canCollect) := UpdateLocks(l, update).result;
      canCollect <==>
        l'.holder.None? && l'.reservation.None? && l'.queuedWriters == [] && l'.waitingReaders == []
  {
  }

  /** A finished request has the reservation afterwards only if it was queued a second time, first of
      the writers. */
  lemma ReservationIsGivenUpIff(l: Lock, g: Guard)
    requires Inv(l) && RequestDone(l, g).Done?
    ensures
      var l' := RequestDone(l, g).result;
      (l'.reservation.Some? && l'.reservation.value.id == g.id) <==>
        l.reservation.Some? && l.reservation.value.id == g.id && l.queuedWriters != [] && l.queuedWriters[0].id == g.id
  {
  }

  /** The transaction that holds the lock commits. */
  predicate Commits(l: Lock, op: Op) {
    op.Update? && op.update.Commit? && l.holder.Some? && l.holder.value.txnId == op.update.txnId
  }

  function CommitTime(l: Lock, op: Op): Timestamp
    requires Commits(l, op)
  {
    op.update.commitTimestamp
  }

  lemma StepLastCommitted(l: Lock, op: Op)
    requires Inv(l) && Step(l, op).Done?
    ensures Step(l, op).result.lastCommitted ==
      if Commits(l, op) then Some(CommitTime(l, op)) else l.lastCommitted
  {
  }

  /** The operation at `i` is the last commit of the run, at `t`. */
  ghost predicate IsLastCommit(ops: seq<Op>, i: nat, t: Timestamp) {
    i < |ops| && Run(NEW_LOCK, ops[..i]).Done? && Commits(Run(NEW_LOCK, ops[..i]).result, ops[i]) &&
    CommitTime(Run(NEW_LOCK, ops[..i]).result, ops[i]) == t &&
    forall j :: i < j < |ops| ==>
      Run(NEW_LOCK, ops[..j]).Done? && !Commits(Run(NEW_LOCK, ops[..j]).result, ops[j])
  }

  /** In every run the lock knows the timestamp of the last commit of a holder, if there was one. */
  lemma {:induction false} LastCommitIsKnown(ops: seq<Op>)
    requires Run(NEW_LOCK, ops).Done?
    ensures
      match Run(NEW_LOCK, ops).result.lastCommitted
      case Some(t) => exists i: nat :: IsLastCommit(ops, i, t)
      case None => forall i :: 0 <= i < |ops| ==>
        Run(NEW_LOCK, ops[..i]).Done? && !Commits(Run(NEW_LOCK, ops[..i]).result, ops[i])
    decreases |ops|
  {
    hide Run, Step, Commits, Inv;
    if ops == [] {
      NothingToRun(NEW_LOCK);
    } else {
      var n := |ops| - 1;
      var ops' := ops[..n];
      RunParts(NEW_LOCK, ops, n);
      assert ops[n + 1..] == [];
      var l, op := Run(NEW_LOCK, ops').result, ops[n];
      NothingToRun(Step(l, op).result);
      LastCommitIsKnown(ops');
      ReachedInv(ops');
      StepLastCommitted(l, op);
      forall j | 0 <= j < n ensures ops'[..j] == ops[..j] && ops'[j] == ops[j] {
      }
      if Commits(l, op) {
        assert IsLastCommit(ops, n, CommitTime(l, op));
      } else if l.lastCommitted.Some? {
        var t := l.lastCommitted.value;
        var i: nat :| IsLastCommit(ops', i, t);
        assert IsLastCommit(ops, i, t);
      }
    }
  }

  lemma NothingToRun(l: Lock)
    ensures Run(l, []) == Done(l)
  {
  }

  lemma ReachedInv(ops: seq<Op>)
    requires Run(NEW_LOCK, ops).Done?
    ensures Inv(Run(NEW_LOCK, ops).result)
  {
    RunInv(NEW_LOCK, ops);
  }

  // ---------- write timestamps ----------

  /** A request that gets a lock gets the next timestamp after the last commit, and no transaction's
      timestamp changes otherwise. That lies above the commit exactly if the logical time does not
      wrap around, or wraps around at wall time zero. */
  lemma GrantedAboveLastCommit(l: Lock, op: Op, times: map<TxnId, Timestamp>)
    requires Inv(l) && Step(l, op).Done?
    ensures
      var l', times' := Step(l, op).result, TimesAfter(l, op, times);
      match ClaimedBy(l, op)
      case None => times' == times
      case Some(g) =>
        (forall id :: id != g.txnId ==> (id in times' <==> id in times) && (id in times ==> times'[id] == times[id])) &&
        match l'.lastCommitted
        case None => times' == times
        case Some(t) =>
          g.txnId in times' &&
          (t.Lt(times'[g.txnId]) <==> !t.IsIntent() && (t.logicalTime < MAX_LOGICAL || t.wallTime == 0)) &&
          (!t.IsIntent() && t.logicalTime < MAX_LOGICAL ==> forall u: Timestamp :: t.Lt(u) ==> times'[g.txnId].Le(u))
  {
    if ClaimedBy(l, op).Some? && Step(l, op).result.lastCommitted.Some? {
      NextLogicalIsNext(Step(l, op).result.lastCommitted.value);
    }
  }

  /** The timestamp is set, whatever it was before: it does not drop if and only if it was not beyond
      the next timestamp after the last commit. */
  lemma ClaimRaisesIff(l: Lock, op: Op, times: map<TxnId, Timestamp>)
    requires Step(l, op).Done? && ClaimedBy(l, op).Some? && ClaimedBy(l, op).value.txnId in times
    ensures
      var id := ClaimedBy(l, op).value.txnId;
      id in TimesAfter(l, op, times) &&
      (times[id].Le(TimesAfter(l, op, times)[id]) <==>
        match Step(l, op).result.lastCommitted
        case None => true
        case Some(t) => times[id].Le(NextLogical(t)))
  {
    var id := ClaimedBy(l, op).value.txnId;
    TimestampOrder(times[id], times[id], times[id]);
  }

  /** Lock and write timestamps along a run. */
  function RunTimes(l: Lock, ops: seq<Op>, times: map<TxnId, Timestamp>): Outcome<map<TxnId, Timestamp>>
    decreases |ops|
  {
    if ops == [] then Done(times)
    else
      match Step(l, ops[0])
      case Panic => Panic
      case Done(l') => RunTimes(l', ops[1..], TimesAfter(l, ops[0], times))
  }

  /** A writer at (9, 0) waits for a transaction that commits at (5, 0), and goes on at (5, 1). */
  lemma {:induction false} ClaimCanLower()
    ensures
      var t := Timestamp(5, 0);
      var ops := [
        Op.Acquire(TxnMetadata(1, t)), Wait(Guard(7, 2, Timestamp(6, 0)), false), Op.Update(Commit(1, t))];
      var times := map[2 := Timestamp(9, 0)];
      Run(NEW_LOCK, ops).Done? && RunTimes(NEW_LOCK, ops, times) == Done(map[2 := Timestamp(5, 1)])
  {
    var t, times := Timestamp(5, 0), map[2 := Timestamp(9, 0)];
    var a, b, c := Op.Acquire(TxnMetadata(1, t)), Wait(Guard(7, 2, Timestamp(6, 0)), false), Op.Update(Commit(1, t));
    var l1 := Step(NEW_LOCK, a).result;
    var l2 := Step(l1, b).result;
    var l3 := Step(l2, c).result;
    assert l3.reservation == Some(b.guard) && l3.lastCommitted == Some(t) && Run(l3, []) == Done(l3);
    assert Run(NEW_LOCK, [a, b, c]) == Run(l1, [b, c]) == Run(l2, [c]) == Run(l3, []);
    var times' := map[2 := Timestamp(5, 1)];
    assert TimesAfter(NEW_LOCK, a, times) == times && TimesAfter(l1, b, times) == times;
    assert TimesAfter(l2, c, times) == times';
    assert RunTimes(NEW_LOCK, [a, b, c], times) == RunTimes(l1, [b, c], times) == RunTimes(l2, [c], times) ==
      RunTimes(l3, [], times');
  }
}

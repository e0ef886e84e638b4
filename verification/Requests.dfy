/** The life of intents: puts lay them, an abort removes them, a commit makes them versions. */
module Requests {
  import opened Keys
  import opened Timestamps
  import opened Txns
  import opened MvccKeys
  import opened Storages
  import opened MvccReads
  import opened MvccScanners
  import opened MvccAnswers
  import opened Mvccs
  import LT = LockTables
  import WQ = TxnWaitQueues

  // ---------- a transaction's writes, on values ----------

  /** A put request with the write timestamp of the transaction and the transaction records at
      that moment: the timestamp may be raised between puts, and other transactions come and go. */
  datatype PutOp = PutOp(key: Key, value: Value, writeTimestamp: Timestamp, records: map<TxnId, TxnStatus>)

  /** The entries and the keys the transaction has locked. */
  datatype Progress = Progress(entries: seq<Entry>, lockSpans: seq<Key>)

  function OutcomeOf(entries: seq<Entry>, id: TxnId, op: PutOp): PutResult {
    PutOutcome(IntentOn(entries, op.records, op.key), op.key, Some(TxnMetadata(id, op.writeTimestamp)), None)
  }

  function AfterPut(p: Progress, id: TxnId, op: PutOp): Progress {
    if OutcomeOf(p.entries, id, op).Stored? then
      var metadata := TxnMetadata(id, op.writeTimestamp);
      Progress(Written(p.entries, op.key, Some(metadata), None, op.value), WithSpan(p.lockSpans, op.key))
    else p
  }

  function AfterPuts(entries: seq<Entry>, id: TxnId, ops: seq<PutOp>): Progress {
    if ops == [] then Progress(entries, [])
    else AfterPut(AfterPuts(entries, id, ops[..|ops| - 1]), id, ops[|ops| - 1])
  }

  function WithoutIntents(entries: seq<Entry>, keys: seq<Key>): seq<Entry> {
    if keys == [] then entries
    else DeleteEntry(WithoutIntents(entries, keys[..|keys| - 1]), IntentKey(keys[|keys| - 1]))
  }

  function AllResolved(entries: seq<Entry>, keys: seq<Key>, commitTimestamp: Timestamp, id: TxnId): seq<Entry> {
    if keys == [] then entries
    else Resolved(AllResolved(entries, keys[..|keys| - 1], commitTimestamp, id), keys[|keys| - 1], commitTimestamp, id)
  }

  // ---------- what the writes amount to ----------

  predicate OwnsIntent(entries: seq<Entry>, id: TxnId, key: Key) {
    match Lookup(entries, IntentKey(key))
    case Some(Uncommitted(_, metadata)) => metadata.txnId == id
    case _ => false
  }

  /** The last put of a key. */
  function LastPut(ops: seq<PutOp>, key: Key): (last: Option<PutOp>)
    ensures last.Some? <==> exists i :: 0 <= i < |ops| && ops[i].key == key
    ensures last.Some? ==> last.value.key == key
  {
    if ops == [] then None
    else if ops[|ops| - 1].key == key then Some(ops[|ops| - 1])
    else
      assert forall i :: 0 <= i < |ops| - 1 ==> ops[..|ops| - 1][i] == ops[i];
      LastPut(ops[..|ops| - 1], key)
  }

  /** The put that counts for a key: the last one, unless another transaction's intent is there. */
  function Effective(entries: seq<Entry>, ops: seq<PutOp>, key: Key): Option<PutOp> {
    if Lookup(entries, IntentKey(key)).Some? then None else LastPut(ops, key)
  }

  /** The transaction starts without intents and has a record throughout. */
  ghost predicate Starts(entries: seq<Entry>, id: TxnId, ops: seq<PutOp>) {
    ValidEntries(entries) && (forall key :: !OwnsIntent(entries, id, key)) &&
    forall i :: 0 <= i < |ops| ==> id in ops[i].records
  }

  /** After the puts, each key with an effective put carries an intent with its value, these
      keys are the locked ones, and all other entries are as they were. */
  ghost predicate PutsDone(entries: seq<Entry>, id: TxnId, ops: seq<PutOp>, p: Progress) {
    ValidEntries(p.entries) && NoDuplicates(p.lockSpans) &&
    (forall key :: key in p.lockSpans <==> Effective(entries, ops, key).Some?) &&
    forall k :: Lookup(p.entries, k) ==
      if k.IsIntentKey() && Effective(entries, ops, k.key).Some? then
        var op := Effective(entries, ops, k.key).value;
        Some(Uncommitted(op.value, TxnMetadata(id, op.writeTimestamp)))
      else Lookup(entries, k)
  }

  lemma LookupIsUncommitted(entries: seq<Entry>, key: Key)
    requires ValidEntries(entries)
    ensures Lookup(entries, IntentKey(key)).Some? ==> Lookup(entries, IntentKey(key)).value.Uncommitted?
  {
    if Lookup(entries, IntentKey(key)).Some? {
      EntryOf(entries, IntentKey(key));
    }
  }

  lemma {:induction false} PutsAreDone(entries: seq<Entry>, id: TxnId, ops: seq<PutOp>)
    requires Starts(entries, id, ops)
    ensures PutsDone(entries, id, ops, AfterPuts(entries, id, ops))
  {
    hide Before, CompareFrom;
    if ops != [] {
      var ops', op := ops[..|ops| - 1], ops[|ops| - 1];
      PutsAreDone(entries, id, ops');
      OnePut(entries, id, ops', AfterPuts(entries, id, ops'), op);
      assert ops == ops' + [op];
    }
  }

  lemma {:induction false} OnePut(entries: seq<Entry>, id: TxnId, ops: seq<PutOp>, p: Progress, op: PutOp)
    requires ValidEntries(entries) && !OwnsIntent(entries, id, op.key) && id in op.records
    requires PutsDone(entries, id, ops, p)
    ensures PutsDone(entries, id, ops + [op], AfterPut(p, id, op))
  {
    hide Before, CompareFrom;
    var p' := AfterPut(p, id, op);
    LookupIsUncommitted(p.entries, op.key);
    LookupIsUncommitted(entries, op.key);
    assert (ops + [op])[..|ops|] == ops;
    forall key ensures LastPut(ops + [op], key) == if key == op.key then Some(op) else LastPut(ops, key) {
    }
    assert OutcomeOf(p.entries, id, op).Stored? <==> Lookup(entries, IntentKey(op.key)).None?;
    if OutcomeOf(p.entries, id, op).Stored? {
      PutKeeps(p.entries, IntentKey(op.key), Uncommitted(op.value, TxnMetadata(id, op.writeTimestamp)));
    }
    forall key ensures key in p'.lockSpans <==> Effective(entries, ops + [op], key).Some? {
    }
  }

  // ---------- abort ----------

  lemma {:induction false} WithoutIntentsLookup(entries: seq<Entry>, keys: seq<Key>)
    requires ValidEntries(entries)
    ensures ValidEntries(WithoutIntents(entries, keys))
    ensures forall k ::
      Lookup(WithoutIntents(entries, keys), k) ==
        if k.IsIntentKey() && k.key in keys then None else Lookup(entries, k)
  {
    hide Before, CompareFrom;
    if keys != [] {
      var n := |keys| - 1;
      WithoutIntentsLookup(entries, keys[..n]);
      DeleteKeeps(WithoutIntents(entries, keys[..n]), IntentKey(keys[n]));
      assert keys == keys[..n] + [keys[n]];
      forall k: MVCCKey | k.IsIntentKey() ensures k == IntentKey(k.key) {
      }
    }
  }

  /** Puts and then an abort leave no trace. */
  lemma AbortRestores(entries: seq<Entry>, id: TxnId, ops: seq<PutOp>)
    requires Starts(entries, id, ops)
    ensures
      var p := AfterPuts(entries, id, ops);
      WithoutIntents(p.entries, p.lockSpans) == entries
  {
    hide Before, CompareFrom;
    var p := AfterPuts(entries, id, ops);
    PutsAreDone(entries, id, ops);
    WithoutIntentsLookup(p.entries, p.lockSpans);
    SameStore(WithoutIntents(p.entries, p.lockSpans), entries);
  }

  /** Another transaction's intent lies on the key. */
  predicate IsForeign(entries: seq<Entry>, id: TxnId, key: Key) {
    Lookup(entries, IntentKey(key)).Some? && !OwnsIntent(entries, id, key)
  }

  /** An abort deletes the intents on all locked keys, whose ever they are: it spares those of
      other transactions if and only if no locked key carries one. */
  lemma {:induction false} AbortSparesOthersIff(entries: seq<Entry>, id: TxnId, keys: seq<Key>)
    requires ValidEntries(entries)
    ensures
      var after := WithoutIntents(entries, keys);
      (forall key :: IsForeign(entries, id, key) ==> IsForeign(after, id, key)) <==>
      forall key :: key in keys ==> !IsForeign(entries, id, key)
  {
    hide Before, CompareFrom;
    WithoutIntentsLookup(entries, keys);
    if key :| key in keys && IsForeign(entries, id, key) {
      assert !IsForeign(WithoutIntents(entries, keys), id, key);
    }
  }

  /** A transaction is aborted once more after another one has put: the store stays as it is if and
      only if they have locked no key in common. */
  lemma {:induction false} SecondAbortIsHarmlessIff(entries: seq<Entry>, id: TxnId, ops: seq<PutOp>, other: TxnId,
      later: seq<PutOp>)
    requires Starts(entries, id, ops) && Starts(entries, other, later)
    ensures
      var p := AfterPuts(entries, id, ops);
      var q := AfterPuts(WithoutIntents(p.entries, p.lockSpans), other, later);
      WithoutIntents(q.entries, p.lockSpans) == q.entries <==>
      forall key :: key in p.lockSpans ==> key !in q.lockSpans
  {
    hide Before, CompareFrom, AfterPuts, WithoutIntents, ValidEntries;
    var p := AfterPuts(entries, id, ops);
    AbortRestores(entries, id, ops);
    var q := AfterPuts(entries, other, later);
    PutsAreDone(entries, id, ops);
    PutsAreDone(entries, other, later);
    WithoutIntentsLookup(q.entries, p.lockSpans);
    var final := WithoutIntents(q.entries, p.lockSpans);
    if forall key :: key in p.lockSpans ==> key !in q.lockSpans {
      SameStore(final, q.entries);
    } else {
      var key :| key in p.lockSpans && key in q.lockSpans;
      assert Lookup(q.entries, IntentKey(key)).Some? && Lookup(final, IntentKey(key)).None?;
    }
  }

  /** Put, abort, another transaction's put, abort once more: the other put is lost. */
  lemma {:induction false} SecondAbortLosesAPut()
    ensures
      var first := PutOp([1], [7], Timestamp(5, 0), map[1 := Pending]);
      var second := PutOp([1], [8], Timestamp(6, 0), map[1 := Aborted, 2 := Pending]);
      var p := AfterPuts([], 1, [first]);
      var q := AfterPuts(WithoutIntents(p.entries, p.lockSpans), 2, [second]);
      OwnsIntent(q.entries, 2, [1]) && WithoutIntents(q.entries, p.lockSpans) == []
  {
    var first := PutOp([1], [7], Timestamp(5, 0), map[1 := Pending]);
    var second := PutOp([1], [8], Timestamp(6, 0), map[1 := Aborted, 2 := Pending]);
    assert [first][..0] == [] && [second][..0] == [];
    AbortRestores([], 1, [first]);
    assert AfterPuts([], 2, [second]) ==
      Progress([Entry(IntentKey([1]), Uncommitted([8], TxnMetadata(2, Timestamp(6, 0))))], [[1]]);
    assert AfterPuts([], 1, [first]).lockSpans == [[1]] && [[1]][..0] == [];
  }

  // ---------- commit ----------

  /** The provisional value of the transaction on a key. */
  function OwnValue(entries: seq<Entry>, id: TxnId, key: Key): Option<Value> {
    if OwnsIntent(entries, id, key) then Some(Lookup(entries, IntentKey(key)).value.value) else None
  }

  /** What is under `k` when the intents on some keys have become versions. */
  function ResolvedLookup(entries: seq<Entry>, keys: seq<Key>, commitTimestamp: Timestamp, id: TxnId,
      k: MVCCKey): Option<Stored>
  {
    if k.key !in keys || !OwnsIntent(entries, id, k.key) then Lookup(entries, k)
    else if k.IsIntentKey() then None
    else if k.timestamp == commitTimestamp then Some(Version(OwnValue(entries, id, k.key).value))
    else Lookup(entries, k)
  }

  lemma {:induction false} ResolvedKeeps(entries: seq<Entry>, key: Key, commitTimestamp: Timestamp, id: TxnId)
    requires ValidEntries(entries) && !commitTimestamp.IsIntent()
    ensures ValidEntries(Resolved(entries, key, commitTimestamp, id))
    ensures forall k ::
      Lookup(Resolved(entries, key, commitTimestamp, id), k) ==
        ResolvedLookup(entries, [key], commitTimestamp, id, k)
  {
    hide Before, CompareFrom;
    if OwnsIntent(entries, id, key) {
      DeleteKeeps(entries, IntentKey(key));
      var version := Version(OwnValue(entries, id, key).value);
      PutKeeps(DeleteEntry(entries, IntentKey(key)), MVCCKey(key, commitTimestamp), version);
      forall k: MVCCKey | k.IsIntentKey() ensures k == IntentKey(k.key) {
      }
    }
  }

  lemma {:induction false} AllResolvedLookup(entries: seq<Entry>, keys: seq<Key>, commitTimestamp: Timestamp, id: TxnId)
    requires ValidEntries(entries) && !commitTimestamp.IsIntent()
    ensures ValidEntries(AllResolved(entries, keys, commitTimestamp, id))
    ensures forall k ::
      Lookup(AllResolved(entries, keys, commitTimestamp, id), k) ==
        ResolvedLookup(entries, keys, commitTimestamp, id, k)
  {
    hide Before, CompareFrom, ValidEntries;
    if keys != [] {
      var n := |keys| - 1;
      var rest := AllResolved(entries, keys[..n], commitTimestamp, id);
      AllResolvedLookup(entries, keys[..n], commitTimestamp, id);
      ResolvedKeeps(rest, keys[n], commitTimestamp, id);
      assert keys == keys[..n] + [keys[n]];
      forall k
        ensures ResolvedLookup(rest, [keys[n]], commitTimestamp, id, k) ==
          ResolvedLookup(entries, keys, commitTimestamp, id, k)
      {
        var intent := IntentKey(k.key);
        assert Lookup(rest, intent) == ResolvedLookup(entries, keys[..n], commitTimestamp, id, intent);
      }
    }
  }

  /** For each key with an effective put there is a version at the commit timestamp with the last
      value put and no intent; all other entries are as they were. */
  ghost predicate IsPublished(entries: seq<Entry>, ops: seq<PutOp>, commitTimestamp: Timestamp, final: seq<Entry>) {
    ValidEntries(final) &&
    forall k :: Lookup(final, k) ==
      match Effective(entries, ops, k.key)
      case None => Lookup(entries, k)
      case Some(op) =>
        if k.IsIntentKey() then None
        else if k.timestamp == commitTimestamp then Some(Version(op.value))
        else Lookup(entries, k)
  }

  /** Puts and then a commit publish exactly the last values put. */
  lemma {:induction false} CommitPublishes(entries: seq<Entry>, id: TxnId, ops: seq<PutOp>, commitTimestamp: Timestamp)
    requires Starts(entries, id, ops) && !commitTimestamp.IsIntent()
    ensures
      var p := AfterPuts(entries, id, ops);
      IsPublished(entries, ops, commitTimestamp, AllResolved(p.entries, p.lockSpans, commitTimestamp, id))
  {
    hide Before, CompareFrom, ValidEntries;
    var p := AfterPuts(entries, id, ops);
    PutsAreDone(entries, id, ops);
    AllResolvedLookup(p.entries, p.lockSpans, commitTimestamp, id);
    forall k: MVCCKey | k.IsIntentKey() ensures k == IntentKey(k.key) {
    }
    forall k: Key ensures OwnsIntent(p.entries, id, k) <==> Effective(entries, ops, k).Some? {
      assert !OwnsIntent(entries, id, k);
    }
  }

  // ---------- conflicts ----------

  /** The puts of keys on which no intent lay in the beginning. */
  function Unblocked(entries: seq<Entry>, ops: seq<PutOp>): seq<PutOp> {
    if ops == [] then []
    else
      var op := ops[|ops| - 1];
      Unblocked(entries, ops[..|ops| - 1]) + if Lookup(entries, IntentKey(op.key)).Some? then [] else [op]
  }

  /** In any run of puts, those over another transaction's intent have no effect: the others alone
      leave the same. */
  lemma {:induction false} ConflictsLeaveNoTrace(entries: seq<Entry>, id: TxnId, ops: seq<PutOp>)
    requires Starts(entries, id, ops)
    ensures AfterPuts(entries, id, ops) == AfterPuts(entries, id, Unblocked(entries, ops))
  {
    hide Before, CompareFrom, ValidEntries, PutsDone, Written, OwnsIntent, IntentOn, PutOutcome;
    if ops != [] {
      var n := |ops| - 1;
      var kept := Unblocked(entries, ops);
      ConflictsLeaveNoTrace(entries, id, ops[..n]);
      WhoConflicts(entries, id, ops, n);
      if Lookup(entries, IntentKey(ops[n].key)).None? {
        assert kept[..|kept| - 1] == Unblocked(entries, ops[..n]) && kept[|kept| - 1] == ops[n];
      } else {
        assert kept == Unblocked(entries, ops[..n]);
      }
    }
  }

  /** A put in a run fails exactly if its key carried an intent in the beginning, and is a conflict
      exactly if the transaction of that intent is pending. */
  lemma {:induction false} WhoConflicts(entries: seq<Entry>, id: TxnId, ops: seq<PutOp>, i: nat)
    requires Starts(entries, id, ops) && i < |ops|
    ensures
      var outcome := OutcomeOf(AfterPuts(entries, id, ops[..i]).entries, id, ops[i]);
      var found := IntentOn(entries, ops[i].records, ops[i].key);
      (outcome.Stored? <==> Lookup(entries, IntentKey(ops[i].key)).None?) &&
      (outcome.Conflict? <==> found.FoundIntent? && found.status.Pending?)
  {
    hide Before, CompareFrom, AfterPuts;
    PutsAreDone(entries, id, ops[..i]);
    PutAmongOthers(entries, id, ops[..i], AfterPuts(entries, id, ops[..i]), ops[i]);
  }

  lemma {:induction false} PutAmongOthers(entries: seq<Entry>, id: TxnId, ops: seq<PutOp>, p: Progress, op: PutOp)
    requires ValidEntries(entries) && !OwnsIntent(entries, id, op.key) && id in op.records
    requires PutsDone(entries, id, ops, p)
    ensures
      var outcome := OutcomeOf(p.entries, id, op);
      (outcome.Stored? <==> Lookup(entries, IntentKey(op.key)).None?) &&
      (outcome.Conflict? <==> IntentOn(entries, op.records, op.key).FoundIntent? &&
                              IntentOn(entries, op.records, op.key).status.Pending?)
  {
    hide Before, CompareFrom;
    LookupIsUncommitted(p.entries, op.key);
    LookupIsUncommitted(entries, op.key);
  }

  // ---------- the requests ----------

  /** Puts, takes the lock and lists the key. The program panics, with the intent already written,
      if another transaction holds or has reserved the lock. */
  method ExecutePut(store: KVStore, lockTable: LT.LockTable, txn: Txn, key: Key, value: Value) returns (r: PutResult)
    requires ValidEntries(store.storage.entries) && lockTable.Valid()
    modifies store.storage`entries, txn`lockSpans, lockTable, lockTable.locks.Values
    ensures ValidEntries(store.storage.entries) && lockTable.Valid()
    ensures
      var op := PutOp(key, value, txn.writeTimestamp, store.storage.records);
      var put := OutcomeOf(old(store.storage.entries), txn.txnId, op);
      var before := Progress(old(store.storage.entries), old(txn.lockSpans));
      var after := Progress(store.storage.entries, txn.lockSpans);
      var lock := LT.AcquireLock(old(lockTable.LockOf(key)), TxnMetadata(txn.txnId, txn.writeTimestamp));
      if !put.Stored? then
        r == put && after == before && lockTable.LockOf(key) == old(lockTable.LockOf(key))
      else if lock.Panic? then
        r == Panicked && after == AfterPut(before, txn.txnId, op).(lockSpans := before.lockSpans) &&
        lockTable.LockOf(key) == old(lockTable.LockOf(key))
      else
        r == put && after == AfterPut(before, txn.txnId, op) && lockTable.LockOf(key) == lock.result
    ensures forall k :: k != key ==> lockTable.LockOf(k) == old(lockTable.LockOf(k))
    ensures r.Conflict? <==> IsBlocked(old(store.storage.entries), store.storage.records, key, txn.txnId)
    ensures r.Conflict? ==>
      r.intent.key == key && r.intent.txnMeta.txnId != txn.txnId && LiesIn(r.intent, old(store.storage.entries))
    ensures r.Panicked? <==>
      IsFatal(old(store.storage.entries), store.storage.records, key, Some(txn.txnId)) ||
      (!r.Conflict? &&
       LT.AcquireLock(old(lockTable.LockOf(key)), TxnMetadata(txn.txnId, txn.writeTimestamp)).Panic?)
  {
    hide LT.AcquireLock, LT.Inv, IsBlocked, IsFatal, LiesIn;
    WhatPutReturns(store.storage.entries, store.storage.records, key,
                   Some(TxnMetadata(txn.txnId, txn.writeTimestamp)), None);
    r := store.MvccPutRaw(key, None, Some(txn), value);
    if r.Stored? {
      var isDone := lockTable.Acquire(key, TxnMetadata(txn.txnId, txn.writeTimestamp));
      if !isDone {
        return Panicked;
      }
      txn.AppendLockSpan(key);
    }
  }

  /** The write timestamps after the locks of some keys have been told, one after the other, that a
      transaction is finished. */
  ghost function TimesAfterUpdates(locks: map<Key, LT.Lock>, keys: seq<Key>, update: LT.UpdateLock,
      times: map<TxnId, Timestamp>): map<TxnId, Timestamp>
  {
    if keys == [] then times
    else
      var n := |keys| - 1;
      var before := TimesAfterUpdates(locks, keys[..n], update, times);
      if keys[n] in locks then LT.TimesAfter(locks[keys[n]], LT.Op.Update(update), before) else before
  }

  /** Tells every lock of the transaction that it is finished, as `update_txn_locks` does. Returns
      false where the program panics, at a lock that is only reserved. */
  method UpdateTxnLocks(lockTable: LT.LockTable, keys: seq<Key>, update: LT.UpdateLock) returns (isDone: bool)
    requires lockTable.Valid() && NoDuplicates(keys)
    modifies lockTable.locks.Values, lockTable.txns
    ensures lockTable.Valid() && lockTable.locks == old(lockTable.locks)
    ensures isDone <==>
      forall k :: k in keys && k in lockTable.locks ==> LT.UpdateLocks(old(lockTable.LockOf(k)), update).Done?
    ensures isDone ==> forall k :: k in keys && k in lockTable.locks ==>
      lockTable.LockOf(k) == LT.UpdateLocks(old(lockTable.LockOf(k)), update).result.0
    ensures forall k :: k !in keys ==> lockTable.LockOf(k) == old(lockTable.LockOf(k))
    ensures isDone ==>
      lockTable.txns.writeTimestamps ==
        TimesAfterUpdates(old(lockTable.Snapshot()), keys, update, old(lockTable.txns.writeTimestamps))
  {
    hide LT.UpdateLocks, LT.Inv, LT.TimesAfter;
    ghost var locks, times := lockTable.Snapshot(), lockTable.txns.writeTimestamps;
    for i := 0 to |keys|
      invariant lockTable.Valid() && lockTable.locks == old(lockTable.locks)
      invariant forall k :: k in keys[..i] && k in lockTable.locks ==>
        LT.UpdateLocks(old(lockTable.LockOf(k)), update).Done? &&
        lockTable.LockOf(k) == LT.UpdateLocks(old(lockTable.LockOf(k)), update).result.0
      invariant forall k :: k !in keys[..i] ==> lockTable.LockOf(k) == old(lockTable.LockOf(k))
      invariant lockTable.txns.writeTimestamps == TimesAfterUpdates(locks, keys[..i], update, times)
    {
      assert keys[i] !in keys[..i] && keys[..i + 1] == keys[..i] + [keys[i]];
      assert keys[..i + 1][..i] == keys[..i];
      var r := lockTable.Update(keys[i], update);
      if r.Panic? {
        return false;
      }
    }
    assert keys[..|keys|] == keys;
    return true;
  }

  /** A committed transaction is not aborted any more. Otherwise its intents are removed, its locks
      released and those who wait for it woken, unless the program panics at a lock that is only
      reserved, before it wakes anybody. */
  method ExecuteAbort(store: KVStore, lockTable: LT.LockTable, txnWaitQueue: WQ.TxnWaitQueue, txn: Txn)
    returns (isDone: bool)
    requires ValidEntries(store.storage.entries) && lockTable.Valid() && NoDuplicates(txn.lockSpans)
    modifies store.storage, lockTable.locks.Values, lockTable.txns, txnWaitQueue`pushees
    ensures ValidEntries(store.storage.entries) && lockTable.Valid()
    ensures
      var records, id := old(store.storage.records), txn.txnId;
      if id in records && records[id].Committed? then
        store.storage.entries == old(store.storage.entries) && store.storage.records == records &&
        (forall k :: lockTable.LockOf(k) == old(lockTable.LockOf(k))) &&
        lockTable.txns.writeTimestamps == old(lockTable.txns.writeTimestamps) &&
        txnWaitQueue.GetState() == old(txnWaitQueue.GetState())
      else
        store.storage.entries == WithoutIntents(old(store.storage.entries), txn.lockSpans) &&
        store.storage.records == records[id := Aborted] &&
        (isDone <==> forall k :: k in txn.lockSpans && k in lockTable.locks ==>
          LT.UpdateLocks(old(lockTable.LockOf(k)), LT.Abort(id)).Done?) &&
        (isDone ==> forall k :: k in txn.lockSpans && k in lockTable.locks ==>
          lockTable.LockOf(k) == LT.UpdateLocks(old(lockTable.LockOf(k)), LT.Abort(id)).result.0) &&
        (forall k :: k !in txn.lockSpans ==> lockTable.LockOf(k) == old(lockTable.LockOf(k))) &&
        (isDone ==>
          lockTable.txns.writeTimestamps ==
            TimesAfterUpdates(old(lockTable.Snapshot()), txn.lockSpans, LT.Abort(id),
                              old(lockTable.txns.writeTimestamps))) &&
        txnWaitQueue.GetState() ==
          if isDone then WQ.Finalize(old(txnWaitQueue.GetState()), id) else old(txnWaitQueue.GetState())
  {
    hide LT.UpdateLocks, LT.Inv, WithoutIntents, ValidEntries, WQ.Finalize, TimesAfterUpdates;
    if txn.txnId in store.storage.records && store.storage.records[txn.txnId].Committed? {
      return true;
    }
    ghost var locks := lockTable.Snapshot();
    AbortInStore(store, txn.lockSpans, txn.txnId);
    assert lockTable.Valid() && lockTable.Snapshot() == locks;
    assert forall k :: lockTable.LockOf(k) == old(lockTable.LockOf(k));
    isDone := ReleaseTxn(lockTable, txnWaitQueue, txn.lockSpans, txn.txnId);
  }

  /** Releases the locks of an aborted transaction and wakes those who wait for it. */
  method ReleaseTxn(lockTable: LT.LockTable, txnWaitQueue: WQ.TxnWaitQueue, keys: seq<Key>, id: TxnId)
    returns (isDone: bool)
    requires lockTable.Valid() && NoDuplicates(keys)
    modifies lockTable.locks.Values, lockTable.txns, txnWaitQueue`pushees
    ensures lockTable.Valid() && lockTable.locks == old(lockTable.locks)
    ensures isDone <==>
      forall k :: k in keys && k in lockTable.locks ==> LT.UpdateLocks(old(lockTable.LockOf(k)), LT.Abort(id)).Done?
    ensures isDone ==> forall k :: k in keys && k in lockTable.locks ==>
      lockTable.LockOf(k) == LT.UpdateLocks(old(lockTable.LockOf(k)), LT.Abort(id)).result.0
    ensures forall k :: k !in keys ==> lockTable.LockOf(k) == old(lockTable.LockOf(k))
    ensures isDone ==>
      lockTable.txns.writeTimestamps ==
        TimesAfterUpdates(old(lockTable.Snapshot()), keys, LT.Abort(id), old(lockTable.txns.writeTimestamps))
    ensures txnWaitQueue.GetState() ==
      if isDone then WQ.Finalize(old(txnWaitQueue.GetState()), id) else old(txnWaitQueue.GetState())
  {
    hide LT.UpdateLocks, LT.Inv, WQ.Finalize, TimesAfterUpdates;
    isDone := UpdateTxnLocks(lockTable, keys, LT.Abort(id));
    if isDone {
      var _ := txnWaitQueue.FinalizeTxn(id);
    }
  }

  method AbortInStore(store: KVStore, keys: seq<Key>, id: TxnId)
    requires ValidEntries(store.storage.entries)
    modifies store.storage
    ensures ValidEntries(store.storage.entries)
    ensures store.storage.entries == WithoutIntents(old(store.storage.entries), keys)
    ensures store.storage.records == old(store.storage.records)[id := Aborted]
  {
    var storage := store.storage;
    storage.records := storage.records[id := Aborted];
    DeleteIntents(store, keys);
  }

  method DeleteIntents(store: KVStore, keys: seq<Key>)
    requires ValidEntries(store.storage.entries)
    modifies store.storage`entries
    ensures ValidEntries(store.storage.entries)
    ensures store.storage.entries == WithoutIntents(old(store.storage.entries), keys)
  {
    for i := 0 to |keys|
      invariant ValidEntries(store.storage.entries)
      invariant store.storage.entries == WithoutIntents(old(store.storage.entries), keys[..i])
    {
      store.MvccDelete(IntentKey(keys[i]));
      assert keys[..i + 1][..i] == keys[..i];
    }
    assert keys[..|keys|] == keys;
  }

  method ResolveIntentsForTxn(store: KVStore, txn: Txn)
    requires ValidEntries(store.storage.entries) && !txn.writeTimestamp.IsIntent()
    modifies store.storage`entries
    ensures ValidEntries(store.storage.entries)
    ensures store.storage.entries ==
      AllResolved(old(store.storage.entries), txn.lockSpans, txn.writeTimestamp, txn.txnId)
  {
    var storage := store.storage;
    ghost var entries := storage.entries;
    for i := 0 to |txn.lockSpans|
      invariant ValidEntries(storage.entries)
      invariant storage.entries == AllResolved(entries, txn.lockSpans[..i], txn.writeTimestamp, txn.txnId)
    {
      store.MvccResolveIntent(txn.lockSpans[i], txn.writeTimestamp, txn.txnId);
      assert txn.lockSpans[..i + 1][..i] == txn.lockSpans[..i];
    }
    assert txn.lockSpans[..|txn.lockSpans|] == txn.lockSpans;
  }

  datatype GetResult = Found(value: Option<(MVCCKey, Value)>) | WriteIntentError(intent: TxnIntent)

  /** What is promised: one's own provisional value, an error for another's intent that is not
      newer than the read, and otherwise, ignoring newer intents, the newest visible version. */
  ghost predicate IsPromisedRead(entries: seq<Entry>, id: TxnId, ts: Timestamp, key: Key, r: GetResult) {
    match Lookup(entries, IntentKey(key))
    case Some(Uncommitted(value, metadata)) =>
      if metadata.txnId == id then r == Found(Some((IntentKey(key), value)))
      else if metadata.writeTimestamp.Le(ts) then r == WriteIntentError(TxnIntent(metadata, key))
      else r.Found? && IsNewest(entries, key, ts, r.value)
    case _ => r.Found? && IsNewest(entries, key, ts, r.value)
  }

  /** Another's intent, newer than the read, lies above a version that the read should see. */
  ghost predicate IntentHidesVersion(entries: seq<Entry>, id: TxnId, ts: Timestamp, key: Key) {
    match Lookup(entries, IntentKey(key))
    case Some(Uncommitted(_, metadata)) =>
      metadata.txnId != id && !metadata.writeTimestamp.Le(ts) && !IsNewest(entries, key, ts, None)
    case _ => false
  }

  /** The key is not stored, and the read takes the last entry of the store for it: a visible
      version, or an intent unless it is another's and newer than the read. */
  predicate LastEntryMisleads(entries: seq<Entry>, id: TxnId, ts: Timestamp, key: Key) {
    !HasKey(entries, key) && entries != [] &&
    var last := entries[|entries| - 1];
    Visible(last, ts) && !Lt(key, last.key.key) &&
    match last.stored
    case Version(_) => true
    case Uncommitted(_, metadata) => metadata.txnId == id || metadata.writeTimestamp.Le(ts)
  }

  lemma NoneIsNewest(entries: seq<Entry>, key: Key, ts: Timestamp)
    requires ValidEntries(entries) && !HasKey(entries, key)
    ensures Lookup(entries, IntentKey(key)).None?
    ensures forall value :: IsNewest(entries, key, ts, value) <==> value == None
  {
    hide CompareFrom, Before, Visible;
    forall k: MVCCKey | k.key == key ensures Lookup(entries, k).None? {
      LookupFound(entries, k);
    }
    assert IsNewest(entries, key, ts, None);
    forall value | IsNewest(entries, key, ts, value) ensures value == None {
      NewestUnique(entries, key, ts, value, None);
    }
  }

  /** A key that is not stored has neither intent nor version; what is taken is the last entry. */
  lemma {:induction false} ReadOfNothing(entries: seq<Entry>, key: Key, ts: Timestamp)
    requires ValidEntries(entries) && !HasKey(entries, key)
    ensures Lookup(entries, IntentKey(key)).None?
    ensures forall value :: IsNewest(entries, key, ts, value) <==> value == None
    ensures
      var taken := Get(entries, key, ts);
      Inside(taken, |entries|) &&
      if entries != [] && Visible(entries[|entries| - 1], ts) && !Lt(key, entries[|entries| - 1].key.key) then
        var last := entries[|entries| - 1];
        First(Results(entries, taken)) == First(PushResult([], last)) &&
        First(Intents(entries, taken)) == First(PushIntent([], last))
      else First(Results(entries, taken)) == None && First(Intents(entries, taken)) == None
  {
    hide CompareFrom, Before, Visible, IsNewest, ValidEntries, Lookup, Get, HasKey;
    hide Results, Intents, PushResult, PushIntent;
    NoneIsNewest(entries, key, ts);
    GetOfMissingKey(entries, key, ts);
    NothingTaken(entries);
    if entries != [] {
      TakeOne(entries, [], |entries| - 1);
      assert [] + [|entries| - 1] == [|entries| - 1];
    }
  }

  /** A read returns what is promised exactly if no newer intent hides a version and the key, if it
      is not stored, is not mixed up with the last one. A hidden version is not replaced by another. */
  method ExecuteGet(store: KVStore, txn: Txn, key: Key) returns (r: GetResult)
    requires ValidEntries(store.storage.entries)
    modifies txn`readSet
    ensures
      var entries, id, ts := store.storage.entries, txn.txnId, txn.readTimestamp;
      (IsPromisedRead(entries, id, ts, key, r) <==>
        !IntentHidesVersion(entries, id, ts, key) && !LastEntryMisleads(entries, id, ts, key)) &&
      (IntentHidesVersion(entries, id, ts, key) ==> r == Found(None))
    ensures txn.readSet == if r.Found? then old(txn.readSet) + [key] else old(txn.readSet)
  {
    hide IsNewest, Get, HasKey, Results, Intents;
    ghost var entries := store.storage.entries;
    var value, intent := store.MvccGet(key, txn.readTimestamp, Some(txn.txnId));
    if !HasKey(entries, key) {
      ReadOfNothing(entries, key, txn.readTimestamp);
    }
    match intent {
      case Some((txnIntent, uncommittedValue)) =>
        if txn.txnId == txnIntent.txnMeta.txnId {
          value := Some((IntentKey(key), uncommittedValue));
        } else if txnIntent.txnMeta.writeTimestamp.Le(txn.readTimestamp) {
          return WriteIntentError(txnIntent);
        }
      case None =>
    }
    txn.AppendReadSets(key);
    return Found(value);
  }

  /** Such a read: the version lies below its timestamp, the intent does not. */
  lemma {:induction false} NewerIntentHidesVersions()
    ensures
      var intent := Entry(IntentKey([97]), Uncommitted([1], TxnMetadata(1, Timestamp(9, 0))));
      var version := Entry(MVCCKey([97], Timestamp(5, 0)), Version([2]));
      var entries, ts := [intent, version], Timestamp(7, 0);
      ValidEntries(entries) && IntentHidesVersion(entries, 2, ts, [97]) &&
      IsNewest(entries, [97], ts, Some((version.key, [2]))) && Get(entries, [97], ts) == [0]
  {
    var intent := Entry(IntentKey([97]), Uncommitted([1], TxnMetadata(1, Timestamp(9, 0))));
    var version := Entry(MVCCKey([97], Timestamp(5, 0)), Version([2]));
    var entries, ts := [intent, version], Timestamp(7, 0);
    assert entries[0] == intent && entries[1] == version;
    LookupFinds(entries, 1);
    SeekOfIntentKey(entries, [97]);
    forall t: Timestamp | !t.IsIntent() && Lookup(entries, MVCCKey([97], t)).Some? ensures t == Timestamp(5, 0) {
      LookupFound(entries, MVCCKey([97], t));
    }
  }
}

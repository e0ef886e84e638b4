/** A write request as a whole: the bump to the recorded reads, the intent, and what its commit
    does to those reads. */
module WriteRequests {
  import opened Keys
  import opened Timestamps
  import opened Txns
  import opened IntervalTrees
  import opened TimestampOracles
  import opened Executors
  import opened MvccKeys
  import opened Storages
  import opened MvccIterators
  import opened MvccReads
  import opened MvccAnswers
  import opened Mvccs
  import opened Requests
  import LT = LockTables

  /** The span of a put request. */
  function SpansOf(key: Key): seq<Range> {
    [Range(key, key)]
  }

  /** The reads that the bump of a put heeds are those of its key. */
  lemma SpanIsKey(read: Read, key: Key)
    requires Le(read.startKey, read.endKey)
    ensures ReadsSpan(read, SpansOf(key)) <==> Le(read.startKey, key) && Le(key, read.endKey)
  {
    hide CompareFrom;
    KeyOrder(read.startKey, key, read.startKey);
    KeyOrder(key, read.startKey, key);
    KeyOrder(read.endKey, key, read.endKey);
    KeyOrder(key, read.endKey, key);
    KeyOrder(key, read.startKey, read.endKey);
    var span := SpansOf(key)[0];
    assert Hit(read, span.startKey, span.endKey) <==> Le(read.startKey, key) && Le(key, read.endKey);
  }

  /** The intent carries a timestamp at or above every recorded read of its key, and the lock is
      taken. Unless the program panics at another's lock, a failed request changes neither store
      nor locks. */
  method ExecuteWriteRequest(executor: Executor, store: KVStore, lockTable: LT.LockTable, txn: Txn, key: Key,
      value: Value)
    returns (r: PutResult)
    requires executor.timestampOracle.Valid() && ValidEntries(store.storage.entries) && lockTable.Valid()
    modifies txn, store.storage`entries, lockTable, lockTable.locks.Values
    ensures ValidEntries(store.storage.entries) && lockTable.Valid()
    ensures old(txn.writeTimestamp).Le(txn.writeTimestamp)
    ensures PastReads(txn.writeTimestamp, executor.timestampOracle.recorded, SpansOf(key))
    ensures forall read ::
      read in executor.timestampOracle.recorded && Le(read.startKey, key) && Le(key, read.endKey) ==>
        read.value.timestamp.Le(txn.writeTimestamp)
    ensures AboveReads(txn.writeTimestamp, executor.timestampOracle.recorded, SpansOf(key)) <==>
      AboveReads(old(txn.writeTimestamp), executor.timestampOracle.recorded, SpansOf(key))
    ensures r.Stored? ==>
      var metadata := TxnMetadata(txn.txnId, txn.writeTimestamp);
      Lookup(store.storage.entries, IntentKey(key)) == Some(Uncommitted(value, metadata)) &&
      key in txn.lockSpans && lockTable.LockOf(key).holder == Some(metadata)
    ensures !r.Stored? ==> txn.lockSpans == old(txn.lockSpans) && lockTable.LockOf(key) == old(lockTable.LockOf(key))
    ensures
      var lock := LT.AcquireLock(old(lockTable.LockOf(key)), TxnMetadata(txn.txnId, txn.writeTimestamp));
      !r.Stored? && lock.Done? ==> store.storage.entries == old(store.storage.entries)
    ensures forall k :: k != key ==> lockTable.LockOf(k) == old(lockTable.LockOf(k))
    ensures forall k ::
      k != IntentKey(key) ==> Lookup(store.storage.entries, k) == Lookup(old(store.storage.entries), k)
    ensures r.Conflict? <==> IsBlocked(old(store.storage.entries), store.storage.records, key, txn.txnId)
    ensures r.Conflict? ==>
      r.intent.key == key && r.intent.txnMeta.txnId != txn.txnId && LiesIn(r.intent, old(store.storage.entries))
    ensures r.Panicked? <==>
      IsFatal(old(store.storage.entries), store.storage.records, key, Some(txn.txnId)) ||
      (!r.Conflict? &&
       LT.AcquireLock(old(lockTable.LockOf(key)), TxnMetadata(txn.txnId, txn.writeTimestamp)).Panic?)
  {
    hide PastReads, AboveReads, Attained, LT.Inv, LT.AcquireLock, CompareFrom, Before, PutEntry, IntentOn;
    hide IsBlocked, IsFatal, LiesIn;
    OneSpan(key);
    executor.BumpWriteTimestamp(txn, SpansOf(key));
    PastReadsOfKey(txn.writeTimestamp, executor.timestampOracle.recorded, key);
    assert lockTable.Valid() && forall k :: lockTable.LockOf(k) == old(lockTable.LockOf(k));
    PutKeeps(store.storage.entries, IntentKey(key), Uncommitted(value, TxnMetadata(txn.txnId, txn.writeTimestamp)));
    AcquiredLock(lockTable.LockOf(key), TxnMetadata(txn.txnId, txn.writeTimestamp));
    r := ExecutePut(store, lockTable, txn, key, value);
  }

  lemma PastReadsOfKey(t: Timestamp, recorded: seq<Read>, key: Key)
    requires PastReads(t, recorded, SpansOf(key))
    ensures forall read ::
      read in recorded && Le(read.startKey, key) && Le(key, read.endKey) ==> read.value.timestamp.Le(t)
  {
    hide CompareFrom;
    forall read | read in recorded && Le(read.startKey, key) && Le(key, read.endKey)
      ensures read.value.timestamp.Le(t)
    {
      KeyOrder(read.startKey, key, read.endKey);
      SpanIsKey(read, key);
    }
  }

  lemma AcquiredLock(l: LT.Lock, txn: TxnMetadata)
    ensures LT.AcquireLock(l, txn).Done? ==> LT.AcquireLock(l, txn).result.holder == Some(txn)
  {
  }

  lemma OneSpan(key: Key)
    ensures Executors.WellFormed(SpansOf(key))
  {
    KeyOrder(key, key, key);
  }

  // ---------- reads and later commits ----------

  /** The newest version of a key that is not newer than `ts`. */
  function Newest(entries: seq<Entry>, key: Key, ts: Timestamp): Option<(MVCCKey, Value)> {
    var at := FirstAnswer(entries, 0, MVCCKey(key, ts));
    if at < |entries| then Some((entries[at].key, entries[at].stored.value)) else None
  }

  lemma NewestIsNewest(entries: seq<Entry>, key: Key, ts: Timestamp)
    requires ValidEntries(entries) && !ts.IsIntent()
    ensures IsNewest(entries, key, ts, Newest(entries, key, ts))
  {
    hide CompareFrom, Before;
    var at := FirstAnswer(entries, 0, MVCCKey(key, ts));
    if at < |entries| {
      LookupFinds(entries, at);
    }
    forall t: Timestamp | !t.IsIntent() && t.Le(ts) && Lookup(entries, MVCCKey(key, t)).Some?
      ensures at < |entries| && t.Le(entries[at].key.timestamp)
    {
      EntryOf(entries, MVCCKey(key, t));
      var i :| 0 <= i < |entries| && entries[i].key == MVCCKey(key, t);
      assert Answers(entries[i].key, MVCCKey(key, ts)) && at <= i;
      if at < i {
        SameKey(entries, at, i);
      }
    }
  }

  /** A read of the key at `ts` gives the same before and after. */
  ghost predicate IsKept(entries: seq<Entry>, entries': seq<Entry>, key: Key, ts: Timestamp) {
    exists value :: IsNewest(entries, key, ts, value) && IsNewest(entries', key, ts, value)
  }

  /** A version that hides the one at `t` from a read at `ts`. */
  ghost predicate HasVersionBetween(entries: seq<Entry>, key: Key, t: Timestamp, ts: Timestamp) {
    exists u: Timestamp :: !u.IsIntent() && t.Lt(u) && u.Le(ts) && Lookup(entries, MVCCKey(key, u)).Some?
  }

  /** A new version leaves a read as it was exactly if the read is older than the version, if
      another version lies between them, or if the very same version was there before. */
  lemma {:induction false} ReadIsKeptIff(entries: seq<Entry>, key: Key, t: Timestamp, value: Value, ts: Timestamp)
    requires ValidEntries(entries) && !t.IsIntent() && !ts.IsIntent()
    ensures IsKept(entries, PutEntry(entries, MVCCKey(key, t), Version(value)), key, ts) <==>
      ts.Lt(t) || HasVersionBetween(entries, key, t, ts) || Lookup(entries, MVCCKey(key, t)) == Some(Version(value))
  {
    hide CompareFrom, Before, PutEntry, ValidEntries;
    var entries' := PutEntry(entries, MVCCKey(key, t), Version(value));
    PutKeeps(entries, MVCCKey(key, t), Version(value));
    TimestampOrder(t, ts, t);
    NewestIsNewest(entries, key, ts);
    NewestIsNewest(entries', key, ts);
    var before, after := Newest(entries, key, ts), Newest(entries', key, ts);
    if IsKept(entries, entries', key, ts) {
      var v :| IsNewest(entries, key, ts, v) && IsNewest(entries', key, ts, v);
      if t.Le(ts) {
        assert Lookup(entries', MVCCKey(key, t)).Some?;
        var u := v.value.0.timestamp;
        assert v.value.0 == MVCCKey(key, u);
        TimestampOrder(t, u, t);
      }
    }
    if ts.Lt(t) || Lookup(entries, MVCCKey(key, t)) == Some(Version(value)) {
      assert IsNewest(entries', key, ts, before);
    } else if HasVersionBetween(entries, key, t, ts) {
      var u: Timestamp :| !u.IsIntent() && t.Lt(u) && u.Le(ts) && Lookup(entries, MVCCKey(key, u)).Some?;
      var w := before.value.0.timestamp;
      TimestampOrder(t, u, w);
      TimestampOrder(w, u, w);
      TimestampOrder(w, t, w);
      assert before.value.0 == MVCCKey(key, w) && t.Le(w);
      assert IsNewest(entries', key, ts, before);
    }
  }

  /** A write at or above all recorded reads of its key changes, when it is committed, exactly
      the reads that were recorded at its own timestamp, unless its version was there before. */
  lemma CommittedWriteKeepsReads(entries: seq<Entry>, key: Key, t: Timestamp, value: Value, recorded: seq<Read>,
      read: Read)
    requires ValidEntries(entries) && !t.IsIntent() && !read.value.timestamp.IsIntent()
    requires PastReads(t, recorded, SpansOf(key)) && read in recorded && ReadsSpan(read, SpansOf(key))
    ensures IsKept(entries, PutEntry(entries, MVCCKey(key, t), Version(value)), key, read.value.timestamp) <==>
      read.value.timestamp != t || Lookup(entries, MVCCKey(key, t)) == Some(Version(value))
  {
    hide PutEntry, ValidEntries, ReadsSpan, IsKept;
    var ts := read.value.timestamp;
    ReadIsKeptIff(entries, key, t, value, ts);
    assert ts.Le(t);
    TimestampOrder(ts, t, ts);
    if HasVersionBetween(entries, key, t, ts) {
      var u: Timestamp :| t.Lt(u) && u.Le(ts);
      TimestampOrder(u, ts, t);
      TimestampOrder(t, u, t);
    }
  }

  // ---------- reads and the commit of a transaction ----------

  lemma NewestDependsOnVersions(a: seq<Entry>, b: seq<Entry>, key: Key, ts: Timestamp, value: Option<(MVCCKey, Value)>)
    requires forall t: Timestamp :: !t.IsIntent() ==> Lookup(a, MVCCKey(key, t)) == Lookup(b, MVCCKey(key, t))
    ensures IsNewest(a, key, ts, value) <==> IsNewest(b, key, ts, value)
  {
    if value.Some? && value.value.0.key == key {
      assert value.value.0 == MVCCKey(key, value.value.0.timestamp);
    }
  }

  /** Any puts of a transaction and then its commit at `t` leave a read at `ts` of a key as it was
      exactly if the key was not written, or the read is older than the commit, or a version lies
      between them, or the value written last was there at `t` before. */
  lemma {:induction false} CommitKeepsReadIff(entries: seq<Entry>, id: TxnId, ops: seq<PutOp>, t: Timestamp, key: Key,
      ts: Timestamp)
    requires Starts(entries, id, ops) && !t.IsIntent() && !ts.IsIntent()
    ensures
      var p := AfterPuts(entries, id, ops);
      var final := AllResolved(p.entries, p.lockSpans, t, id);
      IsKept(entries, final, key, ts) <==>
      match Effective(entries, ops, key)
      case None => true
      case Some(op) =>
        ts.Lt(t) || HasVersionBetween(entries, key, t, ts) ||
        Lookup(entries, MVCCKey(key, t)) == Some(Version(op.value))
  {
    hide CompareFrom, Before, ValidEntries, AfterPuts, AllResolved, IsNewest, HasVersionBetween, PutEntry;
    var p := AfterPuts(entries, id, ops);
    var final := AllResolved(p.entries, p.lockSpans, t, id);
    CommitPublishes(entries, id, ops, t);
    NewestIsNewest(entries, key, ts);
    match Effective(entries, ops, key) {
      case None =>
        NewestDependsOnVersions(entries, final, key, ts, Newest(entries, key, ts));
      case Some(op) =>
        var single := PutEntry(entries, MVCCKey(key, t), Version(op.value));
        PutKeeps(entries, MVCCKey(key, t), Version(op.value));
        ReadIsKeptIff(entries, key, t, op.value, ts);
        forall value ensures IsNewest(single, key, ts, value) <==> IsNewest(final, key, ts, value) {
          NewestDependsOnVersions(single, final, key, ts, value);
        }
    }
  }

  /** A transaction that commits at or above all recorded reads of the keys it has written changes,
      of these reads, exactly those recorded at its commit timestamp. */
  lemma {:induction false} CommitKeepsReads(entries: seq<Entry>, id: TxnId, ops: seq<PutOp>, t: Timestamp,
      recorded: seq<Read>,
    read: Read, key: Key)
    requires Starts(entries, id, ops) && !t.IsIntent() && !read.value.timestamp.IsIntent()
    requires forall k :: k in AfterPuts(entries, id, ops).lockSpans ==> PastReads(t, recorded, SpansOf(k))
    requires read in recorded && ReadsSpan(read, SpansOf(key))
    ensures
      var p := AfterPuts(entries, id, ops);
      var final := AllResolved(p.entries, p.lockSpans, t, id);
      var isKept := IsKept(entries, final, key, read.value.timestamp);
      match Effective(entries, ops, key)
      case None => isKept
      case Some(op) =>
        isKept <==> read.value.timestamp != t || Lookup(entries, MVCCKey(key, t)) == Some(Version(op.value))
  {
    hide CompareFrom, Before, ValidEntries, AfterPuts, AllResolved, IsKept, Effective, ReadsSpan;
    var ts := read.value.timestamp;
    PutsAreDone(entries, id, ops);
    CommitKeepsReadIff(entries, id, ops, t, key, ts);
    TimestampOrder(ts, t, ts);
    if HasVersionBetween(entries, key, t, ts) && key in AfterPuts(entries, id, ops).lockSpans {
      var u: Timestamp :| t.Lt(u) && u.Le(ts);
      TimestampOrder(u, ts, t);
      TimestampOrder(t, u, t);
    }
  }
}

/** The multi-version store: reads through scanners, writes of provisional and committed values. */
module Mvccs {
  import opened Keys
  import opened Timestamps
  import opened Txns
  import opened MvccKeys
  import opened Storages
  import opened MvccIterators
  import opened MvccReads
  import opened MvccScanners
  import opened MvccAnswers

  datatype PutResult = Stored(key: MVCCKey) | Conflict(intent: TxnIntent) | Panicked

  /** The intent on a key and the state of its transaction. The program panics if the
      transaction of an intent has no record. */
  datatype FoundIntent = NoIntent | FoundIntent(metadata: TxnMetadata, status: TxnStatus) | NoRecord

  function IntentOn(entries: seq<Entry>, records: map<TxnId, TxnStatus>, key: Key): FoundIntent {
    match Lookup(entries, IntentKey(key))
    case Some(Uncommitted(_, metadata)) =>
      if metadata.txnId in records then FoundIntent(metadata, records[metadata.txnId]) else NoRecord
    case _ => NoIntent
  }

  /** A put fails on the intent of another pending transaction, and panics on the intent of a
      finished one. */
  function PutOutcome(found: FoundIntent, key: Key, writer: Option<TxnMetadata>,
      timestamp: Option<Timestamp>): PutResult
  {
    if found.NoRecord? then Panicked
    else if found.FoundIntent? && writer.Some? && found.metadata.txnId != writer.value.txnId then
      if found.status.Pending? then Conflict(TxnIntent(found.metadata, key)) else Panicked
    else
      match writer
      case Some(metadata) => Stored(MVCCKey(key, metadata.writeTimestamp))
      case None => if timestamp.Some? then Stored(MVCCKey(key, timestamp.value)) else Panicked
  }

  /** The intent lies on its key. */
  predicate LiesIn(intent: TxnIntent, entries: seq<Entry>) {
    match Lookup(entries, IntentKey(intent.key))
    case Some(Uncommitted(_, metadata)) => metadata == intent.txnMeta
    case _ => false
  }

  /** Another transaction's intent lies on the key, and that transaction is pending. */
  ghost predicate IsBlocked(entries: seq<Entry>, records: map<TxnId, TxnStatus>, key: Key, id: TxnId) {
    exists m :: LiesIn(TxnIntent(m, key), entries) && m.txnId != id && m.txnId in records && records[m.txnId].Pending?
  }

  /** An intent whose transaction has no record, or another transaction's that is finished. */
  ghost predicate IsFatal(entries: seq<Entry>, records: map<TxnId, TxnStatus>, key: Key, id: Option<TxnId>) {
    exists m :: LiesIn(TxnIntent(m, key), entries) &&
      (m.txnId !in records || (id.Some? && m.txnId != id.value && !records[m.txnId].Pending?))
  }

  /** A put conflicts exactly with the intent of another pending transaction and names that intent,
      and panics exactly on other intents that are not its own, or without any timestamp. */
  lemma WhatPutReturns(entries: seq<Entry>, records: map<TxnId, TxnStatus>, key: Key, writer: Option<TxnMetadata>,
      timestamp: Option<Timestamp>)
    ensures
      var r := PutOutcome(IntentOn(entries, records, key), key, writer, timestamp);
      var id := if writer.Some? then Some(writer.value.txnId) else None;
      (r.Conflict? <==> writer.Some? && IsBlocked(entries, records, key, writer.value.txnId)) &&
      (r.Conflict? ==>
        r.intent.key == key && LiesIn(r.intent, entries) && r.intent.txnMeta.txnId != writer.value.txnId) &&
      (r.Panicked? <==> IsFatal(entries, records, key, id) || (writer.None? && timestamp.None?)) &&
      (r.Stored? ==> r.key == MVCCKey(key, if writer.Some? then writer.value.writeTimestamp else timestamp.value))
  {
    var found := IntentOn(entries, records, key);
    match Lookup(entries, IntentKey(key)) {
      case Some(Uncommitted(_, m)) =>
        assert LiesIn(TxnIntent(m, key), entries);
      case _ =>
    }
  }

  /** The entries after a successful put. */
  function Written(entries: seq<Entry>, key: Key, writer: Option<TxnMetadata>, timestamp: Option<Timestamp>,
      value: Value): seq<Entry>
    requires writer.Some? || timestamp.Some?
  {
    match writer
    case Some(metadata) => PutEntry(entries, IntentKey(key), Uncommitted(value, metadata))
    case None => PutEntry(entries, MVCCKey(key, timestamp.value), Version(value))
  }

  /** The entries after the intent of the transaction, if it has one here, is made a version. */
  function Resolved(entries: seq<Entry>, key: Key, commitTimestamp: Timestamp, txnId: TxnId): seq<Entry> {
    match Lookup(entries, IntentKey(key))
    case Some(Uncommitted(value, metadata)) =>
      if metadata.txnId != txnId then entries
      else PutEntry(DeleteEntry(entries, IntentKey(key)), MVCCKey(key, commitTimestamp), Version(value))
    case _ => entries
  }

  class KVStore {
    const storage: Storage

    constructor (storage: Storage)
      ensures this.storage == storage
    {
      this.storage := storage;
    }

    method MvccScan(startKey: Key, endKey: Key, timestamp: Timestamp, maxResultCount: nat, txn: Option<TxnId>)
      returns (results: seq<(MVCCKey, Value)>, intents: seq<(TxnIntent, Value)>)
      requires ValidEntries(storage.entries)
      ensures
        var taken := Scan(storage.entries, startKey, endKey, timestamp, maxResultCount);
        Inside(taken, |storage.entries|) &&
        results == Results(storage.entries, taken) && intents == Intents(storage.entries, taken)
      ensures AscendingResults(results) && AscendingIntents(intents) && |results| <= maxResultCount
      ensures IsScanAnswer(storage.entries, startKey, endKey, timestamp, maxResultCount, results, intents) <==>
        IsReliable(storage.entries, startKey, endKey, timestamp, maxResultCount)
    {
      hide Scan, Gathered, IsReliable, Results, Intents, IsScanAnswer, AscendingResults, AscendingIntents;
      ScanAnswersIff(storage.entries, startKey, endKey, timestamp, maxResultCount);
      var it := new MVCCIterator(storage.entries);
      var scanner := new MVCCScanner(it, startKey, Some(endKey), timestamp, maxResultCount, txn);
      scanner.Scan();
      return scanner.results, scanner.foundIntents;
    }

    method MvccGet(key: Key, timestamp: Timestamp, txn: Option<TxnId>)
      returns (value: Option<(MVCCKey, Value)>, intent: Option<(TxnIntent, Value)>)
      requires ValidEntries(storage.entries)
      ensures
        var taken := Get(storage.entries, key, timestamp);
        Inside(taken, |storage.entries|) &&
        value == First(Results(storage.entries, taken)) && intent == First(Intents(storage.entries, taken))
      ensures HasKey(storage.entries, key) ==> IsRightRead(storage.entries, key, timestamp, value, intent)
    {
      hide Scan, Results, Intents, IsExactRead, IsRightRead;
      var results, intents := MvccScan(key, key, timestamp, 1, txn);
      GetIsExactIff(storage.entries, key, timestamp);
      if HasKey(storage.entries, key) {
        ExactReadIsRight(storage.entries, key, timestamp, Get(storage.entries, key, timestamp));
      }
      return First(results), First(intents);
    }

    method MvccDelete(key: MVCCKey)
      requires ValidEntries(storage.entries)
      modifies storage`entries
      ensures storage.entries == DeleteEntry(old(storage.entries), key) && ValidEntries(storage.entries)
    {
      storage.DeleteMvcc(key);
    }

    /** The intent on the key, which an iterator has to find. */
    method MvccGetUncommitedValue(key: Key) returns (found: FoundIntent)
      requires ValidEntries(storage.entries)
      ensures found == IntentOn(storage.entries, storage.records, key)
    {
      hide CompareFrom, Before;
      var it := new MVCCIterator(storage.entries);
      ghost var entries := storage.entries;
      IntentIsSought(entries, key);
      var seekRes := it.SeekGe(IntentKey(key));
      if seekRes {
        var currKey := it.CurrentKey();
        if currKey.IsIntentKey() && currKey.key == key {
          var metadata := it.CurrentValue().txnMetadata;
          var id := metadata.txnId;
          return if id in storage.records then FoundIntent(metadata, storage.records[id]) else NoRecord;
        }
      }
      return NoIntent;
    }

    /** Writes a provisional value for a transaction or else a version. A plain write at (0, 0)
        ends up under an intent key, where later reads expect a provisional value. */
    method MvccPutRaw(key: Key, timestamp: Option<Timestamp>, txn: Option<Txn>, value: Value) returns (r: PutResult)
      requires ValidEntries(storage.entries)
      modifies storage`entries
      ensures txn.Some? || timestamp != Some(INTENT_TIMESTAMP) ==> ValidEntries(storage.entries)
      ensures
        var writer := if txn.Some? then Some(TxnMetadata(txn.value.txnId, txn.value.writeTimestamp)) else None;
        r == PutOutcome(IntentOn(old(storage.entries), storage.records, key), key, writer, timestamp) &&
        storage.entries == if r.Stored? then Written(old(storage.entries), key, writer, timestamp, value)
                           else old(storage.entries)
      ensures r.Conflict? <==> txn.Some? && IsBlocked(old(storage.entries), storage.records, key, txn.value.txnId)
      ensures r.Conflict? ==>
        r.intent.key == key && r.intent.txnMeta.txnId != txn.value.txnId && LiesIn(r.intent, old(storage.entries))
      ensures r.Stored? && (txn.Some? || timestamp != Some(INTENT_TIMESTAMP)) ==>
        r.key.key == key && forall k ::
          Lookup(storage.entries, k) ==
            if txn.None? && k == r.key then Some(Version(value))
            else if txn.Some? && k == IntentKey(key) then
              Some(Uncommitted(value, TxnMetadata(txn.value.txnId, r.key.timestamp)))
            else Lookup(old(storage.entries), k)
      ensures r.Stored? ==> timestamp.Some? || txn.Some?
      ensures r.Stored? ==> r.key.timestamp == if txn.Some? then txn.value.writeTimestamp else timestamp.value
    {
      hide IsBlocked, LiesIn, CompareFrom, Before;
      ghost var writer := if txn.Some? then Some(TxnMetadata(txn.value.txnId, txn.value.writeTimestamp)) else None;
      WhatPutReturns(storage.entries, storage.records, key, writer, timestamp);
      ghost var entries := storage.entries;
      var found := MvccGetUncommitedValue(key);
      match found {
        case NoRecord =>
          return Panicked;
        case FoundIntent(metadata, status) =>
          if txn.Some? && metadata.txnId != txn.value.txnId {
            match status {
              case Pending => return Conflict(TxnIntent(metadata, key));
              case Committed => return Panicked;
              case Aborted => return Panicked;
            }
          }
        case NoIntent =>
      }
      var writeTimestamp;
      match txn {
        case Some(transaction) =>
          writeTimestamp := transaction.writeTimestamp;
          PutKeeps(entries, IntentKey(key), Uncommitted(value, TxnMetadata(transaction.txnId, writeTimestamp)));
          storage.Put(IntentKey(key), Uncommitted(value, TxnMetadata(transaction.txnId, writeTimestamp)));
        case None =>
          if timestamp.None? {
            return Panicked;
          }
          writeTimestamp := timestamp.value;
          if writeTimestamp != INTENT_TIMESTAMP {
            PutKeeps(entries, MVCCKey(key, writeTimestamp), Version(value));
          }
          storage.Put(MVCCKey(key, writeTimestamp), Version(value));
      }
      return Stored(MVCCKey(key, writeTimestamp));
    }

    /** Makes the provisional value of a transaction a version. */
    method MvccResolveIntent(key: Key, commitTimestamp: Timestamp, txnId: TxnId)
      requires ValidEntries(storage.entries)
      modifies storage`entries
      ensures !commitTimestamp.IsIntent() ==> ValidEntries(storage.entries)
      ensures storage.entries == Resolved(old(storage.entries), key, commitTimestamp, txnId)
    {
      match Lookup(storage.entries, IntentKey(key)) {
        case Some(Uncommitted(value, metadata)) =>
          if metadata.txnId != txnId {
            return;
          }
          storage.DeleteMvcc(IntentKey(key));
          storage.Put(MVCCKey(key, commitTimestamp), Version(value));
        case Some(Version(_)) =>
          EntryOf(storage.entries, IntentKey(key));
          assert false;
        case None =>
      }
    }
  }

  /** The first entry of a key is its intent if it has one. */
  lemma {:induction false} IntentIsSought(entries: seq<Entry>, key: Key)
    requires ValidEntries(entries)
    ensures
      var at := FirstAnswer(entries, 0, IntentKey(key));
      match Lookup(entries, IntentKey(key))
      case Some(stored) => at < |entries| && entries[at] == Entry(IntentKey(key), stored) && stored.Uncommitted?
      case None => at < |entries| ==> !entries[at].key.IsIntentKey()
  {
    hide CompareFrom, Before;
    var at, intentKey := FirstAnswer(entries, 0, IntentKey(key)), IntentKey(key);
    LookupFound(entries, intentKey);
    if Lookup(entries, intentKey).Some? {
      EntryOf(entries, intentKey);
      var i :| 0 <= i < |entries| && entries[i] == Entry(intentKey, Lookup(entries, intentKey).value);
      assert Answers(entries[i].key, intentKey);
      if at < i {
        SameKey(entries, at, i);
      }
    }
  }
}

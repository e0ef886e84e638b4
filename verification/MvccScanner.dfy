/** The scanner: it drives an iterator over the keys of a range and collects what a reader sees. */
module MvccScanners {
  import opened Keys
  import opened Timestamps
  import opened Txns
  import opened MvccKeys
  import opened Storages
  import opened MvccIterators
  import opened MvccReads

  class MVCCScanner {
    const it: MVCCIterator
    const txn: Option<TxnId>
    const startKey: Key
    const endKey: Option<Key>
    const timestamp: Timestamp
    const maxRecordsCount: nat
    var foundIntents: seq<(TxnIntent, Value)>
    var results: seq<(MVCCKey, Value)>

    constructor (it: MVCCIterator, startKey: Key, endKey: Option<Key>, timestamp: Timestamp, maxRecordsCount: nat,
        txn: Option<TxnId>)
      ensures this.it == it && this.startKey == startKey && this.endKey == endKey && this.timestamp == timestamp
      ensures this.maxRecordsCount == maxRecordsCount && this.txn == txn
      ensures foundIntents == [] && results == []
    {
      this.it, this.startKey, this.endKey, this.timestamp := it, startKey, endKey, timestamp;
      this.maxRecordsCount, this.txn, foundIntents, results := maxRecordsCount, txn, [], [];
    }

    /** Without an end key, only the start key is scanned. */
    function End(): Key {
      match endKey
      case Some(key) => key
      case None => startKey
    }

    predicate Valid()
      reads this, it
    {
      it.Valid() && ValidEntries(it.entries)
    }

    method Scan()
      requires Valid() && it.At() == 0 && results == [] && foundIntents == []
      modifies this, it
      ensures
        var taken := MvccReads.Scan(it.entries, startKey, End(), timestamp, maxRecordsCount);
        Inside(taken, |it.entries|) &&
        results == Results(it.entries, taken) && foundIntents == Intents(it.entries, taken)
      ensures |results| <= maxRecordsCount
    {
      hide CompareFrom, Visible, Lt, Results, Intents, ScanFrom, Taken, NextKey, FirstAnswer;
      hide PushResult, PushIntent, ValidEntries, IsOnPlan;
      ghost var entries := it.entries;
      ghost var planned := MvccReads.Scan(entries, startKey, End(), timestamp, maxRecordsCount);
      ScanIncreasing(entries, SeekFrom(entries, 0, IntentKey(startKey)), End(), timestamp, maxRecordsCount);
      ghost var taken: seq<nat> := [];
      NothingTaken(entries);
      var _ := it.SeekGe(IntentKey(startKey));
      PlanBegins(entries, it.At(), End(), timestamp, maxRecordsCount);
      while true
        invariant Valid() && Inside(taken, |entries|) && |results| <= maxRecordsCount
        invariant results == Results(entries, taken) && foundIntents == Intents(entries, taken)
        invariant IsOnPlan(entries, planned, taken, it.At(), End(), timestamp, maxRecordsCount - |results|)
        decreases |entries| - it.At()
      {
        if |results| == maxRecordsCount || it.isDone || Lt(End(), it.CurrentKey().key) {
          PlanEnds(entries, planned, taken, it.At(), End(), timestamp, maxRecordsCount - |results|);
          return;
        }
        ghost var at, limit, before := it.At(), maxRecordsCount - |results|, results;
        PlanGoesOn(entries, planned, taken, at, End(), timestamp, limit);
        var _ := GetCurrentKey();
        AdvanceToNextKey();
        match Taken(entries, at, timestamp) {
          case Some(i) =>
            TakeOne(entries, taken, i);
            PushedCount(before, entries[i]);
            taken := taken + [i];
          case None =>
        }
      }
    }

    /** Takes the intent or the newest visible version of the current key. */
    method GetCurrentKey() returns (isAdded: bool)
      requires Valid() && !it.isDone
      modifies this, it
      ensures Valid() && !it.isDone
      ensures
        var at := old(it.At());
        match Taken(it.entries, at, timestamp)
        case Some(i) =>
          it.At() == i && results == PushResult(old(results), it.entries[i]) &&
          foundIntents == PushIntent(old(foundIntents), it.entries[i])
        case None =>
          it.At() == |it.entries| - 1 && results == old(results) && foundIntents == old(foundIntents)
      ensures isAdded <==> |results| > |old(results)|
    {
      var currentKey := it.CurrentKey();
      if currentKey.IsIntentKey() {
        var currentValue := it.CurrentValue();
        // One's own intents are collected like those of others.
        foundIntents := foundIntents + [(TxnIntent(currentValue.txnMetadata, currentKey.key), currentValue.value)];
        return false;
      }
      match timestamp.Compare(currentKey.timestamp) {
        case Less =>
          isAdded := SeekOlderVersion(currentKey.key, timestamp);
        case _ =>
          results := results + [(currentKey, it.CurrentValue().value)];
          isAdded := true;
      }
    }

    method SeekOlderVersion(key: Key, timestamp: Timestamp) returns (isAdded: bool)
      requires Valid() && !it.isDone && !it.CurrentKey().IsIntentKey() && key == it.CurrentKey().key
      modifies this, it
      ensures Valid() && !it.isDone && foundIntents == old(foundIntents)
      ensures
        var answer := FirstAnswer(it.entries, old(it.At()), MVCCKey(key, timestamp));
        if answer < |it.entries| then
          it.At() == answer && it.entries[answer].stored.Version? && isAdded &&
          results == old(results) + [(it.entries[answer].key, it.entries[answer].stored.value)]
        else it.At() == |it.entries| - 1 && !isAdded && results == old(results)
    {
      ghost var from := it.At();
      var isValid := it.SeekGe(MVCCKey(key, timestamp));
      if isValid {
        var currentKey := it.CurrentKey();
        if from < it.At() {
          SameKey(it.entries, from, it.At());
        }
        if currentKey.key == key {
          results := results + [(currentKey, it.CurrentValue().value)];
          return true;
        }
      }
      return false;
    }

    method AdvanceToNextKey()
      requires Valid()
      modifies it
      ensures Valid()
      ensures it.At() == if old(it.isDone) then |it.entries| else NextKey(it.entries, old(it.At()))
    {
      if it.isDone {
        return;
      }
      var currentKey := it.CurrentKey();
      ghost var at := it.At();
      while true
        invariant Valid() && !it.isDone && at <= it.At() < NextKey(it.entries, at)
        decreases |it.entries| - it.At()
      {
        var _ := it.Next();
        if it.isDone || it.CurrentKey().key != currentKey.key {
          break;
        }
      }
    }
  }

  /** What has been taken and what the scan takes from here on make up the plan. */
  predicate IsOnPlan(entries: seq<Entry>, planned: seq<nat>, taken: seq<nat>, at: nat, end: Key, ts: Timestamp,
      limit: nat)
    requires at <= |entries|
  {
    planned == taken + ScanFrom(entries, at, end, ts, limit)
  }

  lemma PlanBegins(entries: seq<Entry>, at: nat, end: Key, ts: Timestamp, limit: nat)
    requires at <= |entries|
    ensures IsOnPlan(entries, ScanFrom(entries, at, end, ts, limit), [], at, end, ts, limit)
  {
  }

  lemma PlanEnds(entries: seq<Entry>, planned: seq<nat>, taken: seq<nat>, at: nat, end: Key, ts: Timestamp, limit: nat)
    requires at <= |entries| && IsOnPlan(entries, planned, taken, at, end, ts, limit)
    requires limit == 0 || at == |entries| || Lt(end, entries[at].key.key)
    ensures planned == taken
  {
  }

  lemma PlanGoesOn(entries: seq<Entry>, planned: seq<nat>, taken: seq<nat>, at: nat, end: Key, ts: Timestamp,
      limit: nat)
    requires at < |entries| && IsOnPlan(entries, planned, taken, at, end, ts, limit)
    requires limit > 0 && !Lt(end, entries[at].key.key) && ValidEntries(entries)
    ensures
      match Taken(entries, at, ts)
      case Some(i) =>
        var limit' := if entries[i].stored.Version? then limit - 1 else limit;
        IsOnPlan(entries, planned, taken + [i], NextKey(entries, i), end, ts, limit')
      case None => IsOnPlan(entries, planned, taken, NextKey(entries, |entries| - 1), end, ts, limit)
  {
    match Taken(entries, at, ts) {
      case Some(i) =>
        var rest := ScanFrom(entries, NextKey(entries, i), end, ts, Remaining(entries[i], limit));
        assert taken + ([i] + rest) == taken + [i] + rest;
      case None =>
    }
  }

  lemma PushedCount(results: seq<(MVCCKey, Value)>, e: Entry)
    ensures |PushResult(results, e)| == if e.stored.Version? then |results| + 1 else |results|
  {
  }

  lemma NothingTaken(entries: seq<Entry>)
    ensures Results(entries, []) == [] && Intents(entries, []) == []
  {
  }

  lemma TakeOne(entries: seq<Entry>, taken: seq<nat>, i: nat)
    requires Inside(taken, |entries|) && i < |entries|
    ensures Inside(taken + [i], |entries|)
    ensures Results(entries, taken + [i]) == PushResult(Results(entries, taken), entries[i])
    ensures Intents(entries, taken + [i]) == PushIntent(Intents(entries, taken), entries[i])
  {
    assert (taken + [i])[..|taken|] == taken;
  }
}

/** A transaction as the server keeps it while it runs. */
module Txns {
  import opened Keys
  import opened Timestamps

  type TxnId = nat

  datatype TxnMetadata = TxnMetadata(txnId: TxnId, writeTimestamp: Timestamp)

  datatype TxnIntent = TxnIntent(txnMeta: TxnMetadata, key: Key)

  datatype TxnStatus = Pending | Committed | Aborted

  class Txn {
    const txnId: TxnId
    const readTimestamp: Timestamp
    var writeTimestamp: Timestamp
    var lockSpans: seq<Key>  // the keys for which the transaction has laid an intent
    var readSet: seq<Key>

    constructor (txnId: TxnId, timestamp: Timestamp)
      ensures this.txnId == txnId && readTimestamp == writeTimestamp == timestamp && lockSpans == readSet == []
    {
      this.txnId, readTimestamp, writeTimestamp, lockSpans, readSet := txnId, timestamp, timestamp, [], [];
    }

    /** A key is listed once, however often it is locked. */
    method AppendLockSpan(key: Key)
      modifies `lockSpans
      ensures lockSpans == WithSpan(old(lockSpans), key) && key in lockSpans && old(lockSpans) <= lockSpans
      ensures NoDuplicates(old(lockSpans)) ==> NoDuplicates(lockSpans)
    {
      if key !in lockSpans {
        lockSpans := lockSpans + [key];
      }
    }

    method AppendReadSets(key: Key)
      modifies `readSet
      ensures readSet == old(readSet) + [key]
    {
      readSet := readSet + [key];
    }
  }

  function WithSpan(spans: seq<Key>, key: Key): (r: seq<Key>)
    ensures spans <= r && forall k :: k in r <==> k in spans || k == key
    ensures NoDuplicates(spans) ==> NoDuplicates(r)
  {
    if key in spans then spans else spans + [key]
  }
}

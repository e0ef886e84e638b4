/** `TimestampOracle`: for every interval of keys the greatest timestamp at which it was read. */
module TimestampOracles {
  import opened Keys
  import opened Timestamps
  import opened RedBlackShapes
  import opened RedBlackArena
  import opened IntervalTrees
  import opened Txns

  datatype OracleValue = OracleValue(timestamp: Timestamp, txnId: Option<TxnId>)

  /** A recorded read of all keys of an interval. */
  type Read = Entry<OracleValue>

  type MaxRead = Option<(Timestamp, Option<TxnId>)>

  /** `x` is the only one among the reads that happened at `t`. */
  ghost predicate OnlyReadAt(seen: multiset<Read>, t: Timestamp, x: Read) {
    seen[x] == 1 && x.value.timestamp == t && forall y :: y in seen && y.value.timestamp == t ==> y == x
  }

  /** `r` is the greatest timestamp of some reads, with the transaction if it is attained once. */
  ghost predicate IsMaxRead(seen: multiset<Read>, r: MaxRead) {
    match r
    case None => seen == multiset{}
    case Some((t, id)) =>
      (exists x :: x in seen && x.value.timestamp == t) &&
      (forall x :: x in seen ==> x.value.timestamp.Le(t)) &&
      (forall x :: OnlyReadAt(seen, t, x) ==> id == x.value.txnId) &&
      ((forall x :: !OnlyReadAt(seen, t, x)) ==> id == None)
  }

  /** The specification leaves no choice. */
  lemma MaxReadUnique(seen: multiset<Read>, r1: MaxRead, r2: MaxRead)
    requires IsMaxRead(seen, r1) && IsMaxRead(seen, r2)
    ensures r1 == r2
  {
    if r1.Some? && r2.Some? {
      TimestampOrder(r1.value.0, r2.value.0, r1.value.0);
    }
  }

  /** One round of the loop in `get_max_timestamp`. */
  function NextMax(max: MaxRead, read: Read): MaxRead {
    match max
    case None => Some((read.value.timestamp, read.value.txnId))
    case Some((t, _)) =>
      match t.Compare(read.value.timestamp)
      case Less => Some((read.value.timestamp, read.value.txnId))
      case Equal => Some((read.value.timestamp, None))
      case Greater => max
  }

  lemma {:induction false} NextMaxCorrect(seen: multiset<Read>, max: MaxRead, read: Read)
    requires IsMaxRead(seen, max)
    ensures IsMaxRead(seen + multiset{read}, NextMax(max, read))
  {
    var seen' := seen + multiset{read};
    var next := NextMax(max, read);
    var t := next.value.0;
    assert read in seen' && forall x :: x in seen' <==> x in seen || x == read;
    forall x | x in seen' ensures x.value.timestamp.Le(t) {
      if max.Some? {
        TimestampOrder(x.value.timestamp, max.value.0, t);
        TimestampOrder(max.value.0, read.value.timestamp, t);
      }
    }
    if max.None? || max.value.0.Compare(read.value.timestamp).Less? {
      assert OnlyReadAt(seen', t, read) by {
        forall y | y in seen && y.value.timestamp == t ensures false {
          TimestampOrder(y.value.timestamp, max.value.0, t);
          TimestampOrder(max.value.0, t, t);
        }
      }
    } else if max.value.0.Compare(read.value.timestamp).Equal? {
      var z :| z in seen && z.value.timestamp == t;
      forall x ensures !OnlyReadAt(seen', t, x) {
        assert z in seen' && read in seen';
      }
    } else {
      forall x ensures OnlyReadAt(seen', t, x) <==> OnlyReadAt(seen, t, x) {
        TimestampOrder(t, read.value.timestamp, t);
      }
    }
  }

  // ---------- which transaction is named ----------

  /** What the comment on `get_max_timestamp` says: the transaction to which all reads at the
      maximum belong, if there is such a one. */
  ghost predicate IsPromisedId(seen: multiset<Read>, t: Timestamp, id: Option<TxnId>) {
    match id
    case Some(txn) => AllOfOne(seen, t, txn)
    case None => forall txn :: !AllOfOne(seen, t, txn)
  }

  ghost predicate AllOfOne(seen: multiset<Read>, t: Timestamp, txn: TxnId) {
    forall x :: x in seen && x.value.timestamp == t ==> x.value.txnId == Some(txn)
  }

  ghost predicate TwoReadsAt(seen: multiset<Read>, t: Timestamp) {
    exists x, y :: x in seen && y in seen && x.value.timestamp == y.value.timestamp == t && (x != y || seen[x] > 1)
  }

  /** The code keeps the comment's promise unless several reads share the maximum and all belong
      to one transaction. */
  lemma IdIsPromisedIff(seen: multiset<Read>, t: Timestamp, id: Option<TxnId>)
    requires IsMaxRead(seen, Some((t, id)))
    ensures IsPromisedId(seen, t, id) <==> !(TwoReadsAt(seen, t) && exists txn :: AllOfOne(seen, t, txn))
  {
    var x :| x in seen && x.value.timestamp == t;
    if TwoReadsAt(seen, t) {
      forall y ensures !OnlyReadAt(seen, t, y) {
      }
    } else {
      assert OnlyReadAt(seen, t, x);
    }
  }

  /** One transaction reads a key twice at the same timestamp, and is not named. */
  lemma OneTransactionTwice()
    ensures
      var t := Timestamp(5, 0);
      var read := Entry([97], [97], OracleValue(t, Some(1)));
      var max := NextMax(NextMax(None, read), read);
      max == Some((t, None)) && IsMaxRead(multiset{read, read}, max) && !IsPromisedId(multiset{read, read}, t, None)
  {
    var t := Timestamp(5, 0);
    var read := Entry([97], [97], OracleValue(t, Some(1)));
    NothingRead();
    NextMaxCorrect(multiset{}, None, read);
    NextMaxCorrect(multiset{} + multiset{read}, NextMax(None, read), read);
    assert multiset{} + multiset{read} + multiset{read} == multiset{read, read};
    assert AllOfOne(multiset{read, read}, t, 1);
  }

  // ---------- the order of the list does not matter ----------

  lemma {:induction false} HitsCount<V>(s: seq<Entry<V>>, startKey: Key, endKey: Key, x: Entry<V>)
    ensures multiset(Hits(s, startKey, endKey))[x] == if Hit(x, startKey, endKey) then multiset(s)[x] else 0
  {
    if s != [] {
      HitsCount(s[1..], startKey, endKey, x);
      assert s == [s[0]] + s[1..];
    }
  }

  lemma {:induction false} HitsPermute<V(!new)>(s: seq<Entry<V>>, s': seq<Entry<V>>, startKey: Key, endKey: Key)
    requires multiset(s) == multiset(s')
    ensures multiset(Hits(s, startKey, endKey)) == multiset(Hits(s', startKey, endKey))
  {
    forall x: Entry<V>
      ensures multiset(Hits(s, startKey, endKey))[x] == multiset(Hits(s', startKey, endKey))[x]
    {
      HitsCount(s, startKey, endKey, x);
      HitsCount(s', startKey, endKey, x);
    }
  }

  /** The reads of one transaction on several spans. */
  ghost function ReadsOf(timestamp: Timestamp, txnId: TxnId, spans: seq<Range>): (r: seq<Read>)
    ensures |r| == |spans|
    ensures forall i :: 0 <= i < |spans| ==>
      r[i] == Entry(spans[i].startKey, spans[i].endKey, OracleValue(timestamp, Some(txnId)))
  {
    if spans == [] then []
    else
      var last := spans[|spans| - 1];
      ReadsOf(timestamp, txnId, spans[..|spans| - 1]) +
      [Entry(last.startKey, last.endKey, OracleValue(timestamp, Some(txnId)))]
  }

  class TimestampOracle {
    const tree: IntervalTree<OracleValue>
    ghost var recorded: seq<Read>  // all recorded reads, in the order of their arrival

    ghost predicate Valid()
      reads this, tree, tree.rbtree
    {
      tree.Valid() && multiset(tree.Contents()) == multiset(recorded)
    }

    constructor ()
      ensures Valid() && recorded == [] && fresh(tree.rbtree)
    {
      tree := new IntervalTree<OracleValue>();
      recorded := [];
    }

    method Add(timestamp: Timestamp, startKey: Key, endKey: Key, txnId: Option<TxnId>)
      requires Valid() && |recorded| < NIL
      modifies `recorded, tree.rbtree
      ensures Valid() && recorded == old(recorded) + [Entry(startKey, endKey, OracleValue(timestamp, txnId))]
    {
      ghost var e := Entry(startKey, endKey, OracleValue(timestamp, txnId));
      ghost var before := tree.Contents();
      assert |before| == |multiset(before)| == |multiset(recorded)| == |recorded|;
      InsertBeforeElements(before, e);
      tree.Insert(startKey, endKey, OracleValue(timestamp, txnId));
      recorded := recorded + [e];
    }

    /** Records that a transaction has read the spans of a request at its read timestamp. */
    method UpdateCache(readTimestamp: Timestamp, txnId: TxnId, spans: seq<Range>)
      requires Valid() && |recorded| + |spans| <= NIL
      modifies `recorded, tree.rbtree
      ensures Valid()
      ensures recorded == old(recorded) + ReadsOf(readTimestamp, txnId, spans)
      ensures forall i :: 0 <= i < |spans| ==>
        recorded[|old(recorded)| + i] ==
          Entry(spans[i].startKey, spans[i].endKey, OracleValue(readTimestamp, Some(txnId)))
    {
      hide Zip, RedBlack, Sorted, Covers, InOrder, ReadsOf;
      for i := 0 to |spans|
        invariant Valid()
        invariant recorded == old(recorded) + ReadsOf(readTimestamp, txnId, spans[..i])
        invariant |recorded| == old(|recorded|) + i
      {
        Add(readTimestamp, spans[i].startKey, spans[i].endKey, Some(txnId));
      }
      assert spans[..|spans|] == spans;
    }

    method GetMaxTimestamp(startKey: Key, endKey: Key) returns (max: MaxRead)
      requires Valid()
      ensures IsMaxRead(multiset(Walk(tree.Contents(), startKey, endKey)), max)
      ensures Le(startKey, endKey) ==> IsMaxRead(multiset(Hits(recorded, startKey, endKey)), max)
    {
      hide IsMaxRead, Walk, Hits, Le, Zip, RedBlack, Sorted, Covers, InOrder;
      var overlaps := tree.GetOverlap(startKey, endKey);
      max := None;
      NothingRead();
      for i := 0 to |overlaps|
        invariant IsMaxRead(multiset(overlaps[..i]), max)
      {
        var read := overlaps[i];
        NextMaxCorrect(multiset(overlaps[..i]), max, read);
        assert overlaps[..i + 1] == overlaps[..i] + [read];
        match max {
          case Some((current, _)) =>
            match current.Compare(read.value.timestamp) {
              case Less => max := Some((read.value.timestamp, read.value.txnId));
              case Equal => max := Some((read.value.timestamp, None));
              case Greater =>
            }
          case None => max := Some((read.value.timestamp, read.value.txnId));
        }
      }
      assert overlaps[..|overlaps|] == overlaps;
      HitsPermute(tree.Contents(), recorded, startKey, endKey);
    }
  }

  lemma NothingRead()
    ensures IsMaxRead(multiset{}, None)
  {
  }
}

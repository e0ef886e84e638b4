/** The timestamp side of `Executor::execute_write_request`: before a transaction writes, its
    write timestamp is raised to at least all recorded reads of the keys it is going to write. */
module Executors {
  import opened Keys
  import opened Timestamps
  import opened RedBlackShapes
  import opened RedBlackArena
  import opened IntervalTrees
  import opened TimestampOracles
  import opened Txns

  /** `read` is a recorded read of one of the spans. */
  ghost predicate ReadsSpan(read: Read, spans: seq<Range>) {
    exists i :: 0 <= i < |spans| && Hit(read, spans[i].startKey, spans[i].endKey)
  }

  ghost predicate WellFormed(spans: seq<Range>) {
    forall i :: 0 <= i < |spans| ==> Le(spans[i].startKey, spans[i].endKey)
  }

  /** Greatest of some timestamps, as `Iterator::max` computes it. */
  function MaxTimestamp(ts: seq<Timestamp>): (r: Option<Timestamp>)
    ensures r.None? <==> ts == []
    ensures r.Some? ==> r.value in ts && forall t :: t in ts ==> t.Le(r.value)
  {
    if ts == [] then None
    else
      var last := ts[|ts| - 1];
      match MaxTimestamp(ts[..|ts| - 1])
      case None => Some(last)
      case Some(t) =>
        TimestampOrder(t, last, t);
        assert forall x :: x in ts[..|ts| - 1] ==> x.Le(t);
        assert forall x :: x in ts ==> x in ts[..|ts| - 1] || x == last;
        if t.Compare(last).Greater? then Some(t) else
          assert forall x :: x in ts[..|ts| - 1] ==> x.Le(last) by {
            forall x | x in ts[..|ts| - 1] ensures x.Le(last) {
              TimestampOrder(x, t, last);
            }
          }
          Some(last)
  }

  /** Some timestamp of the list is at or above that of the read. */
  ghost predicate Dominated(read: Read, ts: seq<Timestamp>) {
    exists t :: t in ts && read.value.timestamp.Le(t)
  }

  /** The timestamp is that of some recorded read of the spans. */
  ghost predicate Attained(t: Timestamp, recorded: seq<Read>, spans: seq<Range>) {
    exists read :: read in recorded && ReadsSpan(read, spans) && read.value.timestamp == t
  }

  /** The timestamps are those of reads of the spans, and no such read lies above all of them. */
  ghost predicate Summarizes(ts: seq<Timestamp>, recorded: seq<Read>, spans: seq<Range>) {
    (forall read :: read in recorded && ReadsSpan(read, spans) ==> Dominated(read, ts)) &&
    (forall t :: t in ts ==> Attained(t, recorded, spans))
  }

  lemma ReadsSpanNext(read: Read, spans: seq<Range>, i: nat)
    requires i < |spans|
    ensures ReadsSpan(read, spans[..i + 1]) <==>
      ReadsSpan(read, spans[..i]) || Hit(read, spans[i].startKey, spans[i].endKey)
  {
    hide Hit;
    var s, s' := spans[..i], spans[..i + 1];
    assert s'[i] == spans[i];
    if j :| 0 <= j < |s| && Hit(read, s[j].startKey, s[j].endKey) {
      assert s'[j] == s[j];
    }
    if j :| 0 <= j < |s'| && Hit(read, s'[j].startKey, s'[j].endKey) {
      assert j < i ==> s[j] == s'[j];
    }
  }

  lemma AttainedStill(t: Timestamp, recorded: seq<Read>, spans: seq<Range>, i: nat)
    requires i < |spans| && Attained(t, recorded, spans[..i])
    ensures Attained(t, recorded, spans[..i + 1])
  {
    hide ReadsSpan;
    var read :| read in recorded && ReadsSpan(read, spans[..i]) && read.value.timestamp == t;
    ReadsSpanNext(read, spans, i);
  }

  lemma {:induction false} SummarizeNext(ts: seq<Timestamp>, recorded: seq<Read>, spans: seq<Range>, i: nat,
      max: MaxRead)
    requires i < |spans| && Summarizes(ts, recorded, spans[..i])
    requires IsMaxRead(multiset(Hits(recorded, spans[i].startKey, spans[i].endKey)), max)
    ensures Summarizes(if max.Some? then ts + [max.value.0] else ts, recorded, spans[..i + 1])
  {
    hide ReadsSpan, Hit, Hits, Timestamp.Le;
    var ts' := if max.Some? then ts + [max.value.0] else ts;
    var hits := multiset(Hits(recorded, spans[i].startKey, spans[i].endKey));
    forall read: Read
      ensures read in hits <==> read in recorded && Hit(read, spans[i].startKey, spans[i].endKey)
      ensures ReadsSpan(read, spans[..i + 1]) <==>
        ReadsSpan(read, spans[..i]) || Hit(read, spans[i].startKey, spans[i].endKey)
    {
      HitsCount(recorded, spans[i].startKey, spans[i].endKey, read);
      ReadsSpanNext(read, spans, i);
    }
    forall read | read in recorded && ReadsSpan(read, spans[..i + 1]) ensures Dominated(read, ts') {
      if ReadsSpan(read, spans[..i]) {
        var t :| t in ts && read.value.timestamp.Le(t);
        assert t in ts';
      } else {
        assert read in hits && max.value.0 in ts';
      }
    }
    forall t | t in ts' ensures Attained(t, recorded, spans[..i + 1]) {
      if t in ts {
        AttainedStill(t, recorded, spans, i);
      } else {
        var read :| read in hits && read.value.timestamp == t;
        assert ReadsSpan(read, spans[..i + 1]);
      }
    }
  }

  /** The write timestamp is at or above every recorded read of the spans. */
  ghost predicate PastReads(writeTimestamp: Timestamp, recorded: seq<Read>, spans: seq<Range>) {
    forall read :: read in recorded && ReadsSpan(read, spans) ==> read.value.timestamp.Le(writeTimestamp)
  }

  lemma {:induction false} BumpPastReads(ts: seq<Timestamp>, recorded: seq<Read>, spans: seq<Range>,
      before: Timestamp, after: Timestamp)
    requires Summarizes(ts, recorded, spans)
    requires after ==
      match MaxTimestamp(ts)
      case Some(max) => (if before.Lt(max) then max else before)
      case None => before
    ensures PastReads(after, recorded, spans) && before.Le(after)
    ensures after != before ==> Attained(after, recorded, spans)
  {
    TimestampOrder(before, after, before);
    forall read | read in recorded && ReadsSpan(read, spans) ensures read.value.timestamp.Le(after) {
      var t :| t in ts && read.value.timestamp.Le(t);
      var max := MaxTimestamp(ts).value;
      TimestampOrder(read.value.timestamp, t, max);
      TimestampOrder(before, max, max);
      TimestampOrder(read.value.timestamp, max, before);
    }
  }

  /** The write timestamp is above every recorded read of the spans. */
  ghost predicate AboveReads(writeTimestamp: Timestamp, recorded: seq<Read>, spans: seq<Range>) {
    forall read :: read in recorded && ReadsSpan(read, spans) ==> read.value.timestamp.Lt(writeTimestamp)
  }

  /** The bump goes up to the reads, not beyond: the new timestamp is above all reads only if the
      old one was. */
  lemma {:induction false} BumpAboveReadsIff(ts: seq<Timestamp>, recorded: seq<Read>, spans: seq<Range>,
      before: Timestamp,
      after: Timestamp)
    requires Summarizes(ts, recorded, spans)
    requires after ==
      match MaxTimestamp(ts)
      case Some(max) => (if before.Lt(max) then max else before)
      case None => before
    ensures AboveReads(after, recorded, spans) <==> AboveReads(before, recorded, spans)
  {
    if after != before {
      BumpPastReads(ts, recorded, spans, before, after);
      var read :| read in recorded && ReadsSpan(read, spans) && read.value.timestamp == after;
      TimestampOrder(after, after, after);
      TimestampOrder(after, before, after);
      assert !read.value.timestamp.Lt(after) && !read.value.timestamp.Lt(before);
    }
  }

  /** A transaction writes a key that was read at its own timestamp: the bump leaves it there. */
  lemma BumpStopsAtTheRead()
    ensures
      var t := Timestamp(5, 0);
      var recorded, spans := [Entry([97], [97], OracleValue(t, Some(1)))], [Range([97], [97])];
      Summarizes([t], recorded, spans) && MaxTimestamp([t]) == Some(t) && !t.Lt(t) && !AboveReads(t, recorded, spans)
  {
    var t := Timestamp(5, 0);
    var recorded, spans := [Entry([97], [97], OracleValue(t, Some(1)))], [Range([97], [97])];
    var read := recorded[0];
    assert Hit(read, spans[0].startKey, spans[0].endKey) && ReadsSpan(read, spans);
    assert t in [t] && Dominated(read, [t]);
  }

  class Executor {
    const timestampOracle: TimestampOracle

    constructor (timestampOracle: TimestampOracle)
      ensures this.timestampOracle == timestampOracle
    {
      this.timestampOracle := timestampOracle;
    }

    /** The write timestamp ends up at or above every recorded read of the spans, is never
        lowered, and is raised only to the timestamp of such a read. */
    method BumpWriteTimestamp(txn: Txn, spans: seq<Range>)
      requires timestampOracle.Valid() && WellFormed(spans)
      modifies txn`writeTimestamp
      ensures PastReads(txn.writeTimestamp, timestampOracle.recorded, spans)
      ensures old(txn.writeTimestamp).Le(txn.writeTimestamp)
      ensures txn.writeTimestamp != old(txn.writeTimestamp) ==>
        Attained(txn.writeTimestamp, timestampOracle.recorded, spans)
      ensures AboveReads(txn.writeTimestamp, timestampOracle.recorded, spans) <==>
        AboveReads(old(txn.writeTimestamp), timestampOracle.recorded, spans)
    {
      hide Summarizes, PastReads, Attained, AboveReads;
      var timestamps := CollectMaxTimestamps(spans);
      ghost var before := txn.writeTimestamp;
      match MaxTimestamp(timestamps) {
        case Some(max) =>
          if txn.writeTimestamp.Lt(max) {
            txn.writeTimestamp := max;
          }
        case None =>
      }
      BumpPastReads(timestamps, timestampOracle.recorded, spans, before, txn.writeTimestamp);
      BumpAboveReadsIff(timestamps, timestampOracle.recorded, spans, before, txn.writeTimestamp);
    }

    /** For every span that was ever read, the greatest timestamp of such a read. */
    method CollectMaxTimestamps(spans: seq<Range>) returns (timestamps: seq<Timestamp>)
      requires timestampOracle.Valid() && WellFormed(spans)
      ensures Summarizes(timestamps, timestampOracle.recorded, spans)
    {
      hide Walk, Hits, Le, Zip, RedBlack, Sorted, Covers, InOrder, Summarizes, IsMaxRead;
      timestamps := [];
      NoSpans(timestampOracle.recorded);
      for i := 0 to |spans|
        invariant Summarizes(timestamps, timestampOracle.recorded, spans[..i])
      {
        var max := timestampOracle.GetMaxTimestamp(spans[i].startKey, spans[i].endKey);
        SummarizeNext(timestamps, timestampOracle.recorded, spans, i, max);
        match max {
          case Some((timestamp, _)) => timestamps := timestamps + [timestamp];
          case None =>
        }
      }
      assert spans[..|spans|] == spans;
    }
  }

  lemma NoSpans(recorded: seq<Read>)
    ensures Summarizes([], recorded, [])
  {
  }
}

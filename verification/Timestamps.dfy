/** Hybrid-logical-clock timestamps with their order, in which the intent timestamp (0, 0) is greatest. */
module Timestamps {
  import opened Keys

  type U64 = x: int | 0 <= x < 0x1_0000_0000_0000_0000

  type U32 = x: int | 0 <= x < 0x1_0000_0000

  datatype Timestamp = Timestamp(wallTime: U64, logicalTime: U32) {
    predicate IsIntent() {
      wallTime == 0 && logicalTime == 0
    }

    function Compare(other: Timestamp): Ordering {
      if IsIntent() && other.IsIntent() then Equal
      else if IsIntent() then Greater
      else if other.IsIntent() then Less
      else if wallTime > other.wallTime then Greater
      else if wallTime < other.wallTime then Less
      else CompareInt(logicalTime, other.logicalTime)
    }

    predicate Lt(other: Timestamp) {
      Compare(other).Less?
    }

    predicate Le(other: Timestamp) {
      !Compare(other).Greater?
    }
  }

  /** The order is total, and only identical timestamps compare as equal. */
  lemma TimestampOrder(a: Timestamp, b: Timestamp, c: Timestamp)
    ensures a.Compare(b).Equal? <==> a == b
    ensures b.Compare(a) == a.Compare(b).Reverse()
    ensures a.Le(b) && b.Le(c) ==> a.Le(c)
  {
  }

  const INTENT_TIMESTAMP := Timestamp(0, 0)

  /** The intent timestamp is greater than all others; these are ordered by wall time and, at the
      same wall time, by logical time. */
  lemma TimestampMeaning(a: Timestamp, b: Timestamp)
    ensures a.IsIntent() <==> a == Timestamp(0, 0)
    ensures a.Lt(b) <==>
      a != Timestamp(0, 0) &&
      (b == Timestamp(0, 0) || a.wallTime < b.wallTime || (a.wallTime == b.wallTime && a.logicalTime < b.logicalTime))
    ensures a.Le(b) <==> a == b || a.Lt(b)
  {
  }

  const MAX_LOGICAL := 0xFFFF_FFFF

  /** `logical_time + 1` in 32 bits. */
  function NextLogical(t: Timestamp): Timestamp {
    Timestamp(t.wallTime, (t.logicalTime + 1) % 0x1_0000_0000)
  }

  /** The next timestamp: nothing lies between the two. At the last logical time the increment wraps
      around to the first one of the same wall time. After the greatest timestamp there is nothing to
      come, and the increment leads to the least. */
  lemma NextLogicalIsNext(t: Timestamp)
    ensures !t.IsIntent() && t.logicalTime < MAX_LOGICAL ==>
      t.Lt(NextLogical(t)) && forall u: Timestamp :: t.Lt(u) ==> NextLogical(t).Le(u)
    ensures t.logicalTime == MAX_LOGICAL ==>
      NextLogical(t) == Timestamp(t.wallTime, 0) && (t.Lt(NextLogical(t)) <==> t.wallTime == 0)
    ensures t.IsIntent() ==> forall u: Timestamp :: NextLogical(t).Le(u)
  {
  }
}

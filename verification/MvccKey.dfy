/** Versioned keys, their byte encoding and the order in which the storage keeps them. */
module MvccKeys {
  import opened Keys
  import opened Timestamps

  datatype MVCCKey = MVCCKey(key: Key, timestamp: Timestamp) {
    predicate IsIntentKey() {
      timestamp.IsIntent()
    }
  }

  function IntentKey(key: Key): MVCCKey {
    MVCCKey(key, INTENT_TIMESTAMP)
  }

  // ---------- little-endian integers ----------

  function Pow256(n: nat): nat {
    if n == 0 then 1 else 256 * Pow256(n - 1)
  }

  function ToLittleEndian(x: nat, n: nat): (bytes: Key)
    ensures |bytes| == n
  {
    if n == 0 then [] else [x % 256] + ToLittleEndian(x / 256, n - 1)
  }

  function FromLittleEndian(bytes: Key): (x: nat)
    ensures x < Pow256(|bytes|)
  {
    if bytes == [] then 0 else bytes[0] + 256 * FromLittleEndian(bytes[1..])
  }

  lemma {:induction false} IntegerRoundTrip(x: nat, n: nat)
    requires x < Pow256(n)
    ensures FromLittleEndian(ToLittleEndian(x, n)) == x
  {
    if n > 0 {
      IntegerRoundTrip(x / 256, n - 1);
      assert ToLittleEndian(x, n)[1..] == ToLittleEndian(x / 256, n - 1);
    }
  }

  lemma {:induction false} BytesRoundTrip(bytes: Key)
    ensures ToLittleEndian(FromLittleEndian(bytes), |bytes|) == bytes
  {
    if bytes != [] {
      BytesRoundTrip(bytes[1..]);
      var x := FromLittleEndian(bytes[1..]);
      assert (bytes[0] + 256 * x) % 256 == bytes[0] && (bytes[0] + 256 * x) / 256 == x;
    }
  }

  /** The byte at `i` counts 256 to the power of `i`: the least significant one comes first. */
  lemma {:induction false} ByteWeight(bytes: Key, i: nat, b: Byte)
    requires i < |bytes|
    ensures FromLittleEndian(bytes[i := b]) == FromLittleEndian(bytes) + (b - bytes[i]) * Pow256(i)
  {
    var changed := bytes[i := b];
    if i == 0 {
      assert changed[1..] == bytes[1..];
    } else {
      ByteWeight(bytes[1..], i - 1, b);
      assert changed[1..] == bytes[1..][i - 1 := b];
      Scaled(b - bytes[i], Pow256(i - 1));
    }
  }

  lemma Scaled(d: int, p: nat)
    ensures 256 * (d * p) == d * (256 * p)
  {
  }

  // ---------- encoding ----------

  /** "mvcc" */
  const SUFFIX: Key := [109, 118, 99, 99]

  function EncodeTimestamp(t: Timestamp): (bytes: Key)
    ensures |bytes| == 12
  {
    ToLittleEndian(t.wallTime, 8) + ToLittleEndian(t.logicalTime, 4)
  }

  function DecodeTimestamp(bytes: Key): Timestamp
    requires |bytes| == 12
  {
    Timestamp(FromLittleEndian(bytes[..8]), FromLittleEndian(bytes[8..]))
  }

  function Encode(k: MVCCKey): Key {
    k.key + EncodeTimestamp(k.timestamp) + SUFFIX
  }

  function Decode(bytes: Key): Option<MVCCKey> {
    if |bytes| < 16 || bytes[|bytes| - 4..] != SUFFIX then None
    else
      var keyEnd := |bytes| - 16;
      Some(MVCCKey(bytes[..keyEnd], DecodeTimestamp(bytes[keyEnd..keyEnd + 12])))
  }

  /** Where the parts of a key go: its own bytes, 8 for the wall time, 4 for the logical time, and
      the suffix "mvcc". */
  lemma EncodedParts(k: MVCCKey)
    ensures
      var bytes, n := Encode(k), |k.key|;
      |bytes| == n + 16 && bytes[..n] == k.key && FromLittleEndian(bytes[n..n + 8]) == k.timestamp.wallTime &&
      FromLittleEndian(bytes[n + 8..n + 12]) == k.timestamp.logicalTime && bytes[n + 12..] == [109, 118, 99, 99]
  {
    var wall, logical := ToLittleEndian(k.timestamp.wallTime, 8), ToLittleEndian(k.timestamp.logicalTime, 4);
    IntegerRoundTrip(k.timestamp.wallTime, 8);
    IntegerRoundTrip(k.timestamp.logicalTime, 4);
    PartsOf(k.key, wall, logical, SUFFIX);
  }

  lemma PartsOf(a: Key, b: Key, c: Key, d: Key)
    requires |b| == 8 && |c| == 4
    ensures
      var bytes, n := a + (b + c) + d, |a|;
      bytes[..n] == a && bytes[n..n + 8] == b && bytes[n + 8..n + 12] == c && bytes[n + 12..] == d
  {
    var bytes, n := a + (b + c) + d, |a|;
    assert bytes[n..n + 12] == b + c;
  }

  lemma TimestampRoundTrip(t: Timestamp)
    ensures DecodeTimestamp(EncodeTimestamp(t)) == t
  {
    IntegerRoundTrip(t.wallTime, 8);
    IntegerRoundTrip(t.logicalTime, 4);
    var wall, logical := ToLittleEndian(t.wallTime, 8), ToLittleEndian(t.logicalTime, 4);
    assert (wall + logical)[..8] == wall && (wall + logical)[8..] == logical;
  }

  /** Decoding gives back every key that was encoded. */
  lemma DecodeEncode(k: MVCCKey)
    ensures Decode(Encode(k)) == Some(k)
  {
    var bytes := Encode(k);
    TimestampRoundTrip(k.timestamp);
    assert bytes[..|bytes| - 16] == k.key;
    assert bytes[|bytes| - 16..|bytes| - 4] == EncodeTimestamp(k.timestamp);
    assert bytes[|bytes| - 4..] == SUFFIX;
  }

  /** A byte string decodes only if it is the encoding of what it decodes to. */
  lemma EncodeDecode(bytes: Key)
    ensures Decode(bytes).Some? <==> exists k :: Encode(k) == bytes
    ensures Decode(bytes).Some? ==> Encode(Decode(bytes).value) == bytes
  {
    hide ToLittleEndian, FromLittleEndian, Pow256;
    if Decode(bytes).Some? {
      var k, at := Decode(bytes).value, |bytes| - 16;
      var stamp := bytes[at..at + 12];
      BytesRoundTrip(stamp[..8]);
      BytesRoundTrip(stamp[8..]);
      assert stamp == stamp[..8] + stamp[8..];
      assert bytes == bytes[..at] + stamp + bytes[at + 12..];
      assert Encode(k) == bytes;
    }
    if k :| Encode(k) == bytes {
      DecodeEncode(k);
    }
  }

  // ---------- order ----------

  /** The comparator of the storage. */
  function StorageCompare(first: Key, second: Key): Ordering {
    match (Decode(first), Decode(second))
    case (Some(a), Some(b)) =>
      (match Compare(a.key, b.key)
       case Less => Less
       case Greater => Greater
       case Equal =>
         if a.IsIntentKey() then (if b.IsIntentKey() then Equal else Less)
         else if b.IsIntentKey() then Greater
         else b.timestamp.Compare(a.timestamp))
    case _ => Compare(first, second)
  }

  /** Keys ascend; of one key, the intent comes first and then the versions from new to old. */
  predicate Before(a: MVCCKey, b: MVCCKey) {
    Lt(a.key, b.key) || (a.key == b.key && b.timestamp.Lt(a.timestamp))
  }

  /** The comparator puts encoded keys into that order, and only equal bytes are equal for it. */
  lemma StorageOrder(first: Key, second: Key)
    requires Decode(first).Some? && Decode(second).Some?
    ensures
      var a, b := Decode(first).value, Decode(second).value;
      (StorageCompare(first, second).Less? <==> Before(a, b)) &&
      (StorageCompare(first, second).Greater? <==> Before(b, a)) &&
      (StorageCompare(first, second).Equal? <==> first == second)
  {
    hide CompareFrom, Encode;
    var a, b := Decode(first).value, Decode(second).value;
    EncodeDecode(first);
    EncodeDecode(second);
    CompareDual(a.key, b.key);
    TimestampOrder(a.timestamp, b.timestamp, a.timestamp);
  }

  /** Other byte strings are compared byte by byte. For any two the comparator reverses when they
      are swapped. */
  lemma StorageOrderOfOthers(first: Key, second: Key)
    ensures Decode(first).None? || Decode(second).None? ==>
      (StorageCompare(first, second).Less? <==> Lt(first, second)) &&
      (StorageCompare(first, second).Equal? <==> first == second)
    ensures StorageCompare(second, first) == StorageCompare(first, second).Reverse()
  {
    hide CompareFrom, Decode;
    CompareDual(first, second);
    match (Decode(first), Decode(second)) {
      case (Some(a), Some(b)) =>
        CompareDual(a.key, b.key);
        TimestampOrder(a.timestamp, b.timestamp, a.timestamp);
      case _ =>
    }
  }

  /** A strict total order. */
  lemma BeforeOrder(a: MVCCKey, b: MVCCKey, c: MVCCKey)
    ensures !Before(a, a)
    ensures a != b ==> (Before(a, b) <==> !Before(b, a))
    ensures Before(a, b) && Before(b, c) ==> Before(a, c)
  {
    hide CompareFrom;
    KeyOrder(a.key, a.key, a.key);
    KeyOrder(a.key, b.key, a.key);
    KeyOrder(b.key, a.key, b.key);
    KeyOrder(a.key, b.key, c.key);
    KeyOrder(b.key, c.key, c.key);
    TimestampOrder(a.timestamp, b.timestamp, a.timestamp);
    TimestampOrder(a.timestamp, a.timestamp, a.timestamp);
    TimestampOrder(c.timestamp, b.timestamp, a.timestamp);
    TimestampOrder(b.timestamp, c.timestamp, a.timestamp);
    TimestampOrder(a.timestamp, c.timestamp, a.timestamp);
  }
}

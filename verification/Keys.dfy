/** Byte-string keys (`Key = Vec<u8>`) and the lexicographic order that Rust's `Ord` gives them. */
module Keys {

  type Byte = x: int | 0 <= x < 256

  type Key = seq<Byte>

  type Value = seq<Byte>

  /** An interval of keys, both ends inclusive. */
  datatype Range = Range(startKey: Key, endKey: Key)

  datatype Option<+T> = None | Some(value: T)

  predicate NoDuplicates(keys: seq<Key>) {
    forall i, j :: 0 <= i < j < |keys| ==> keys[i] != keys[j]
  }

  datatype Ordering = Less | Equal | Greater {
    function Reverse(): Ordering {
      match this
      case Less => Greater
      case Equal => Equal
      case Greater => Less
    }
  }

  function CompareInt(a: int, b: int): Ordering {
    if a < b then Less else if a == b then Equal else Greater
  }

  /** Compares two byte strings that agree on their first `i` bytes. */
  function CompareFrom(a: Key, b: Key, i: nat): Ordering
    requires i <= |a| && i <= |b|
    decreases |a| - i
  {
    if i == |a| || i == |b| then CompareInt(|a|, |b|)
    else if a[i] != b[i] then CompareInt(a[i], b[i])
    else CompareFrom(a, b, i + 1)
  }

  function Compare(a: Key, b: Key): Ordering {
    CompareFrom(a, b, 0)
  }

  predicate Lt(a: Key, b: Key) {
    Compare(a, b).Less?
  }

  predicate Le(a: Key, b: Key) {
    !Compare(a, b).Greater?
  }

  /** `Equal` is reserved for identical keys, and swapping the arguments reverses the answer. */
  lemma {:induction false} CompareFromDual(a: Key, b: Key, i: nat)
    requires i <= |a| && i <= |b|
    requires a[..i] == b[..i]
    ensures CompareFrom(a, b, i).Equal? <==> a == b
    ensures CompareFrom(b, a, i) == CompareFrom(a, b, i).Reverse()
    decreases |a| - i
  {
    if i == |a| || i == |b| {
      if |a| == |b| {
        assert a == a[..i] == b[..i] == b;
      }
    } else if a[i] == b[i] {
      assert a[..i + 1] == a[..i] + [a[i]] == b[..i + 1];
      CompareFromDual(a, b, i + 1);
    }
  }

  lemma CompareDual(a: Key, b: Key)
    ensures Compare(a, b).Equal? <==> a == b
    ensures Compare(b, a) == Compare(a, b).Reverse()
  {
    CompareFromDual(a, b, 0);
  }

  lemma {:induction false} LtTransitiveFrom(a: Key, b: Key, c: Key, i: nat)
    requires i <= |a| && i <= |b| && i <= |c|
    requires CompareFrom(a, b, i).Less? && CompareFrom(b, c, i).Less?
    ensures CompareFrom(a, c, i).Less?
    decreases |a| - i
  {
    if i < |a| && i < |b| && i < |c| && a[i] == b[i] == c[i] {
      LtTransitiveFrom(a, b, c, i + 1);
    }
  }

  /** The order facts the index proofs rely on, for three keys at a time. */
  lemma KeyOrder(a: Key, b: Key, c: Key)
    ensures Le(a, b) <==> a == b || Lt(a, b)
    ensures Lt(a, b) <==> !Le(b, a)
    ensures Le(a, b) && Le(b, c) ==> Le(a, c)
    ensures Lt(a, b) && Le(b, c) ==> Lt(a, c)
    ensures Le(a, b) && Lt(b, c) ==> Lt(a, c)
  {
    CompareDual(a, b);
    CompareDual(b, c);
    if Lt(a, b) && Lt(b, c) {
      LtTransitiveFrom(a, b, c, 0);
    }
  }

  /** Two keys agree up to `at`, where the first one ends or has a smaller byte. */
  predicate SmallerAt(a: Key, b: Key, at: nat) {
    at <= |a| && at < |b| && a[..at] == b[..at] && (at == |a| || a[at] < b[at])
  }

  /** The order is that of a dictionary: a proper prefix comes first, and otherwise the first
      difference decides. */
  lemma LtMeaning(a: Key, b: Key)
    ensures Lt(a, b) <==> exists at :: SmallerAt(a, b, at)
  {
    LtMeaningFrom(a, b, 0);
    if at :| SmallerAt(a, b, at) {
      assert SmallerAt(a, b, at) && at >= 0;
    }
  }

  lemma {:induction false} LtMeaningFrom(a: Key, b: Key, i: nat)
    requires i <= |a| && i <= |b| && a[..i] == b[..i]
    ensures CompareFrom(a, b, i).Less? <==> exists at :: at >= i && SmallerAt(a, b, at)
    decreases |a| - i
  {
    if i == |a| || i == |b| {
      if i < |b| {
        assert SmallerAt(a, b, i);
      }
    } else if a[i] != b[i] {
      if a[i] < b[i] {
        assert SmallerAt(a, b, i);
      }
      forall at | at >= i && SmallerAt(a, b, at) ensures a[i] < b[i] {
        assert at > i ==> a[..at][i] == b[..at][i];
      }
    } else {
      assert a[..i + 1] == a[..i] + [a[i]] == b[..i + 1];
      LtMeaningFrom(a, b, i + 1);
      assert !SmallerAt(a, b, i);
    }
  }
}

/** The column family of versioned entries: a sequence sorted by the storage's comparator. */
module Storages {
  import opened Keys
  import opened Txns
  import opened MvccKeys

  /** A committed version, or the provisional value of a transaction. */
  datatype Stored = Version(value: Value) | Uncommitted(value: Value, txnMetadata: TxnMetadata)

  datatype Entry = Entry(key: MVCCKey, stored: Stored)

  /** Entries are sorted; provisional values lie under intent keys, and nothing else does. */
  predicate ValidEntries(entries: seq<Entry>) {
    (forall i, j :: 0 <= i < j < |entries| ==> Before(entries[i].key, entries[j].key)) &&
    (forall i :: 0 <= i < |entries| ==> Fits(entries[i].key, entries[i].stored))
  }

  predicate Fits(key: MVCCKey, stored: Stored) {
    stored.Uncommitted? <==> key.IsIntentKey()
  }

  function Lookup(entries: seq<Entry>, key: MVCCKey): Option<Stored> {
    if entries == [] then None
    else if entries[0].key == key then Some(entries[0].stored)
    else Lookup(entries[1..], key)
  }

  function PutEntry(entries: seq<Entry>, key: MVCCKey, stored: Stored): seq<Entry> {
    if entries == [] then [Entry(key, stored)]
    else if entries[0].key == key then [Entry(key, stored)] + entries[1..]
    else if Before(key, entries[0].key) then [Entry(key, stored)] + entries
    else [entries[0]] + PutEntry(entries[1..], key, stored)
  }

  function DeleteEntry(entries: seq<Entry>, key: MVCCKey): seq<Entry> {
    if entries == [] then []
    else if entries[0].key == key then entries[1..]
    else [entries[0]] + DeleteEntry(entries[1..], key)
  }

  lemma {:induction false} LookupFinds(entries: seq<Entry>, i: nat)
    requires ValidEntries(entries) && i < |entries|
    ensures Lookup(entries, entries[i].key) == Some(entries[i].stored)
  {
    hide Before;
    if i > 0 {
      BeforeOrder(entries[i].key, entries[i].key, entries[i].key);
      assert Before(entries[0].key, entries[i].key);
      LookupFinds(entries[1..], i - 1);
    }
  }

  lemma {:induction false} LookupFound(entries: seq<Entry>, key: MVCCKey)
    ensures Lookup(entries, key).Some? ==> Entry(key, Lookup(entries, key).value) in entries
    ensures Lookup(entries, key).None? ==> forall e :: e in entries ==> e.key != key
  {
    if entries != [] {
      LookupFound(entries[1..], key);
      assert entries == [entries[0]] + entries[1..];
    }
  }

  lemma Uncons(entries: seq<Entry>)
    requires ValidEntries(entries) && entries != []
    ensures ValidEntries(entries[1..]) && Fits(entries[0].key, entries[0].stored)
    ensures forall e :: e in entries[1..] ==> Before(entries[0].key, e.key)
  {
    hide Before, Fits;
  }

  lemma Cons(head: Entry, rest: seq<Entry>)
    requires ValidEntries(rest) && Fits(head.key, head.stored)
    requires forall e :: e in rest ==> Before(head.key, e.key)
    ensures ValidEntries([head] + rest)
  {
    hide Before, Fits;
  }

  lemma {:induction false} PutKeeps(entries: seq<Entry>, key: MVCCKey, stored: Stored)
    requires ValidEntries(entries) && Fits(key, stored)
    ensures ValidEntries(PutEntry(entries, key, stored))
    ensures forall e :: e in PutEntry(entries, key, stored) ==> e in entries || e == Entry(key, stored)
    ensures forall k ::
      Lookup(PutEntry(entries, key, stored), k) == if k == key then Some(stored) else Lookup(entries, k)
  {
    hide Before, Fits, ValidEntries;
    if entries == [] {
      Single(Entry(key, stored));
    } else {
      var head, rest := entries[0], entries[1..];
      assert entries == [head] + rest;
      Uncons(entries);
      BeforeOrder(key, head.key, key);
      if head.key == key {
        Cons(Entry(key, stored), rest);
      } else if Before(key, head.key) {
        forall e | e in entries ensures Before(key, e.key) {
          BeforeOrder(key, head.key, e.key);
        }
        Cons(Entry(key, stored), entries);
      } else {
        PutKeeps(rest, key, stored);
        Cons(head, PutEntry(rest, key, stored));
      }
    }
  }

  lemma Single(e: Entry)
    requires Fits(e.key, e.stored)
    ensures ValidEntries([e])
  {
  }

  lemma {:induction false} DeleteKeeps(entries: seq<Entry>, key: MVCCKey)
    requires ValidEntries(entries)
    ensures ValidEntries(DeleteEntry(entries, key))
    ensures forall e :: e in DeleteEntry(entries, key) ==> e in entries
    ensures forall k :: Lookup(DeleteEntry(entries, key), k) == if k == key then None else Lookup(entries, k)
  {
    hide Before;
    if entries != [] {
      var head, rest := entries[0], entries[1..];
      assert entries == [head] + rest;
      assert forall e :: e in rest ==> Before(head.key, e.key);
      if head.key == key {
        LookupFound(rest, key);
        BeforeOrder(key, key, key);
      } else {
        DeleteKeeps(rest, key);
      }
    }
  }

  lemma HeadOnce(entries: seq<Entry>)
    requires ValidEntries(entries) && entries != []
    ensures Lookup(entries[1..], entries[0].key).None?
  {
    hide Before;
    var key := entries[0].key;
    LookupFound(entries[1..], key);
    BeforeOrder(key, key, key);
  }

  /** Stores in which every key leads to the same are the same. */
  lemma {:induction false} SameStore(a: seq<Entry>, b: seq<Entry>)
    requires ValidEntries(a) && ValidEntries(b)
    requires forall k :: Lookup(a, k) == Lookup(b, k)
    ensures a == b
    decreases |a|
  {
    hide Before;
    assert a != [] ==> Lookup(a, a[0].key).Some?;
    assert b != [] ==> Lookup(b, b[0].key).Some?;
    if a != [] && b != [] {
      FirstIsFirst(a, b);
      FirstIsFirst(b, a);
      BeforeOrder(a[0].key, b[0].key, a[0].key);
      assert a[0] == b[0];
      HeadOnce(a);
      HeadOnce(b);
      forall k ensures Lookup(a[1..], k) == Lookup(b[1..], k) {
        assert Lookup(a, k) == Lookup(b, k);
      }
      SameStore(a[1..], b[1..]);
    }
  }

  /** The first key of a store is not before the keys of a store that knows it. */
  lemma {:induction false} FirstIsFirst(a: seq<Entry>, b: seq<Entry>)
    requires ValidEntries(b) && a != [] && b != [] && Lookup(b, a[0].key).Some?
    ensures !Before(a[0].key, b[0].key)
  {
    hide Before;
    var key := a[0].key;
    LookupFound(b, key);
    var i :| 0 <= i < |b| && b[i].key == key;
    BeforeOrder(key, b[0].key, key);
  }

  class Storage {
    var entries: seq<Entry>
    var records: map<TxnId, TxnStatus>  // the transaction records

    constructor ()
      ensures entries == [] && records == map[]
    {
      entries, records := [], map[];
    }

    method Put(key: MVCCKey, stored: Stored)
      requires ValidEntries(entries)
      modifies `entries
      ensures entries == PutEntry(old(entries), key, stored) && (Fits(key, stored) ==> ValidEntries(entries))
    {
      if Fits(key, stored) {
        PutKeeps(entries, key, stored);
      }
      entries := PutEntry(entries, key, stored);
    }

    method DeleteMvcc(key: MVCCKey)
      requires ValidEntries(entries)
      modifies `entries
      ensures entries == DeleteEntry(old(entries), key) && ValidEntries(entries)
    {
      DeleteKeeps(entries, key);
      entries := DeleteEntry(entries, key);
    }
  }
}

/** What a scan takes from the sorted entries, what it should take, and when the two agree. */
module MvccReads {
  import opened Keys
  import opened Timestamps
  import opened Txns
  import opened MvccKeys
  import opened Storages
  import opened MvccIterators

  // ---------- what a scan should take ----------

  predicate Visible(e: Entry, ts: Timestamp) {
    e.key.IsIntentKey() || e.key.timestamp.Le(ts)
  }

  /** What a reader is to see of a key: the first visible entry. */
  predicate IsReading(entries: seq<Entry>, i: nat, ts: Timestamp) {
    i < |entries| && Visible(entries[i], ts) &&
    forall j :: 0 <= j < i && entries[j].key.key == entries[i].key.key ==> !Visible(entries[j], ts)
  }

  predicate InRange(e: Entry, start: Key, end: Key) {
    Le(start, e.key.key) && Le(e.key.key, end)
  }

  /** The readings of the keys in the range, in key order, until `limit` versions are found. */
  function Gathered(entries: seq<Entry>, from: nat, start: Key, end: Key, ts: Timestamp, limit: nat): seq<nat>
    requires from <= |entries|
    decreases |entries| - from
  {
    if from == |entries| || limit == 0 then []
    else if InRange(entries[from], start, end) && IsReading(entries, from, ts) then
      [from] + Gathered(entries, from + 1, start, end, ts, Remaining(entries[from], limit))
    else Gathered(entries, from + 1, start, end, ts, limit)
  }

  /** Intents do not count towards the limit. */
  function Remaining(e: Entry, limit: nat): nat
    requires limit > 0
  {
    if e.key.IsIntentKey() then limit else limit - 1
  }

  // ---------- what a scan takes ----------

  /** Where the next key begins. */
  function NextKey(entries: seq<Entry>, at: nat): (next: nat)
    requires at < |entries|
    ensures at < next <= |entries|
    ensures forall i :: at <= i < next ==> entries[i].key.key == entries[at].key.key
    ensures next < |entries| ==> entries[next].key.key != entries[at].key.key
    decreases |entries| - at
  {
    if at + 1 < |entries| && entries[at + 1].key.key == entries[at].key.key then NextKey(entries, at + 1) else at + 1
  }

  /** The entry taken for the key at `at`: the current one or else the answer to a seek. */
  function Taken(entries: seq<Entry>, at: nat, ts: Timestamp): (taken: Option<nat>)
    requires at < |entries|
    ensures taken.Some? ==> at <= taken.value < |entries|
  {
    if Visible(entries[at], ts) then Some(at)
    else
      var answer := FirstAnswer(entries, at, MVCCKey(entries[at].key.key, ts));
      if answer < |entries| then Some(answer) else None
  }

  /** The entries that a scan takes from `at` on. A seek without an answer has left the iterator
      at the last entry. */
  function ScanFrom(entries: seq<Entry>, at: nat, end: Key, ts: Timestamp, limit: nat): seq<nat>
    requires at <= |entries|
    decreases |entries| - at
  {
    if limit == 0 || at == |entries| || Lt(end, entries[at].key.key) then []
    else
      match Taken(entries, at, ts)
      case Some(i) => [i] + ScanFrom(entries, NextKey(entries, i), end, ts, Remaining(entries[i], limit))
      case None => ScanFrom(entries, NextKey(entries, |entries| - 1), end, ts, limit)
  }

  function Scan(entries: seq<Entry>, start: Key, end: Key, ts: Timestamp, limit: nat): seq<nat> {
    ScanFrom(entries, SeekFrom(entries, 0, IntentKey(start)), end, ts, limit)
  }

  // ---------- readings ----------

  lemma KeysAscend(entries: seq<Entry>, i: nat, j: nat)
    requires ValidEntries(entries) && i <= j < |entries|
    ensures Le(entries[i].key.key, entries[j].key.key)
  {
    hide CompareFrom;
    KeyOrder(entries[i].key.key, entries[j].key.key, entries[j].key.key);
  }

  /** Entries of one key stand together, newest first and the intent before all. */
  lemma SameKey(entries: seq<Entry>, i: nat, j: nat)
    requires ValidEntries(entries) && i < j < |entries| && entries[i].key.key == entries[j].key.key
    ensures entries[j].key.timestamp.Lt(entries[i].key.timestamp) && !entries[j].key.IsIntentKey()
    ensures forall h :: i <= h <= j ==> entries[h].key.key == entries[i].key.key
  {
    hide CompareFrom;
    var key := entries[i].key.key;
    assert Before(entries[i].key, entries[j].key);
    KeyOrder(key, key, key);
    forall h | i <= h <= j ensures entries[h].key.key == key {
      KeysAscend(entries, i, h);
      KeysAscend(entries, h, j);
      KeyOrder(key, entries[h].key.key, key);
      KeyOrder(entries[h].key.key, key, key);
    }
  }

  /** The reading of a key is its intent or, if it has none, its newest version that is not
      newer than the timestamp. */
  lemma ReadingMeaning(entries: seq<Entry>, i: nat, ts: Timestamp)
    requires ValidEntries(entries) && i < |entries|
    ensures IsReading(entries, i, ts) <==>
      entries[i].key.IsIntentKey() ||
      (Lookup(entries, IntentKey(entries[i].key.key)).None? && entries[i].key.timestamp.Le(ts) &&
       forall j :: 0 <= j < |entries| && entries[j].key.key == entries[i].key.key && entries[j].key.timestamp.Le(ts) ==>
         entries[j].key.timestamp.Le(entries[i].key.timestamp))
  {
    hide CompareFrom;
    var e, intent := entries[i], IntentKey(entries[i].key.key);
    LookupFound(entries, intent);
    forall j | 0 <= j < |entries| && entries[j].key.key == e.key.key
      ensures j < i ==> e.key.timestamp.Lt(entries[j].key.timestamp) && !e.key.IsIntentKey()
      ensures j > i ==> entries[j].key.timestamp.Lt(e.key.timestamp) && !entries[j].key.IsIntentKey()
      ensures entries[j].key.IsIntentKey() ==> Lookup(entries, intent).Some?
    {
      if j < i {
        SameKey(entries, j, i);
      } else if j > i {
        SameKey(entries, i, j);
      }
      LookupFinds(entries, j);
    }
    if Lookup(entries, intent).Some? {
      var j :| 0 <= j < |entries| && entries[j].key == intent;
      assert Visible(entries[j], ts);
    }
  }

  predicate StartsKey(entries: seq<Entry>, at: nat) {
    at < |entries| && (at == 0 || entries[at - 1].key.key != entries[at].key.key)
  }

  /** From the first entry of a key, a scan takes the reading of the key if there is one. */
  lemma {:induction false} TakenIsReading(entries: seq<Entry>, at: nat, ts: Timestamp)
    requires ValidEntries(entries) && StartsKey(entries, at)
    ensures
      var next := NextKey(entries, at);
      match Taken(entries, at, ts)
      case Some(i) =>
        at <= i < next && IsReading(entries, i, ts) && NextKey(entries, i) == next &&
        forall j :: at <= j < next && j != i ==> !IsReading(entries, j, ts)
      case None => forall j :: at <= j < next ==> !Visible(entries[j], ts)
  {
    hide CompareFrom;
    var next, key := NextKey(entries, at), entries[at].key.key;
    forall j | 0 <= j < |entries| && entries[j].key.key == key ensures at <= j < next {
      if j < at {
        SameKey(entries, j, at);
      } else if j >= next {
        SameKey(entries, at, j);
      }
    }
    forall j | at < j < next ensures !entries[j].key.IsIntentKey() {
      SameKey(entries, at, j);
    }
  }

  // ---------- scans ----------

  lemma {:induction false} GatheredBounds(entries: seq<Entry>, from: nat, start: Key, end: Key, ts: Timestamp,
      limit: nat)
    requires from <= |entries|
    ensures forall i :: i in Gathered(entries, from, start, end, ts, limit) ==>
      from <= i < |entries| && InRange(entries[i], start, end) && IsReading(entries, i, ts)
    decreases |entries| - from
  {
    hide InRange, IsReading;
    if from < |entries| && limit > 0 {
      if InRange(entries[from], start, end) && IsReading(entries, from, ts) {
        GatheredBounds(entries, from + 1, start, end, ts, Remaining(entries[from], limit));
      } else {
        GatheredBounds(entries, from + 1, start, end, ts, limit);
      }
    }
  }

  lemma {:induction false} GatheredSkip(entries: seq<Entry>, from: nat, to: nat,
    start: Key, end: Key, ts: Timestamp, limit: nat)
    requires from <= to <= |entries|
    requires forall i :: from <= i < to ==> !(InRange(entries[i], start, end) && IsReading(entries, i, ts))
    ensures Gathered(entries, from, start, end, ts, limit) == Gathered(entries, to, start, end, ts, limit)
    decreases |entries| - from
  {
    hide InRange, IsReading;
    if from < to {
      GatheredSkip(entries, from + 1, to, start, end, ts, limit);
    }
  }

  /** A key none of whose entries is visible. */
  predicate IsHidden(entries: seq<Entry>, h: nat, ts: Timestamp)
    requires h < |entries|
  {
    forall j :: 0 <= j < |entries| && entries[j].key.key == entries[h].key.key ==> !Visible(entries[j], ts)
  }

  /** No hidden key in the range comes before a reading that should be taken. */
  ghost predicate NoneHidden(entries: seq<Entry>, from: nat, start: Key, end: Key, ts: Timestamp, limit: nat)
    requires from <= |entries|
  {
    forall i, h ::
      i in Gathered(entries, from, start, end, ts, limit) && from <= h < i && h < |entries| &&
      InRange(entries[h], start, end) ==>
        !IsHidden(entries, h, ts)
  }

  /** The first key of the rest of a scan: all its entries but the reading are passed over. */
  lemma OneKey(entries: seq<Entry>, at: nat, start: Key, end: Key, ts: Timestamp, limit: nat)
    requires ValidEntries(entries) && StartsKey(entries, at) && InRange(entries[at], start, end) && limit > 0
    ensures
      var next := NextKey(entries, at);
      Gathered(entries, at, start, end, ts, limit) ==
      match Taken(entries, at, ts)
      case Some(i) => [i] + Gathered(entries, next, start, end, ts, Remaining(entries[i], limit))
      case None => Gathered(entries, next, start, end, ts, limit)
  {
    hide CompareFrom, IsReading, Visible, Taken, ValidEntries, InRange, Gathered;
    var next := NextKey(entries, at);
    TakenIsReading(entries, at, ts);
    match Taken(entries, at, ts) {
      case Some(i) =>
        GatheredSkip(entries, at, i, start, end, ts, limit);
        SameInRange(entries[at], entries[i], start, end);
        GatheredHere(entries, i, start, end, ts, limit);
        GatheredSkip(entries, i + 1, next, start, end, ts, Remaining(entries[i], limit));
      case None =>
        forall j | at <= j < next ensures !IsReading(entries, j, ts) {
          ReadingsAreVisible(entries, j, ts);
        }
        GatheredSkip(entries, at, next, start, end, ts, limit);
    }
  }

  lemma GatheredHere(entries: seq<Entry>, i: nat, start: Key, end: Key, ts: Timestamp, limit: nat)
    requires i < |entries| && InRange(entries[i], start, end) && IsReading(entries, i, ts) && limit > 0
    ensures Gathered(entries, i, start, end, ts, limit) ==
      [i] + Gathered(entries, i + 1, start, end, ts, Remaining(entries[i], limit))
  {
  }

  lemma SameInRange(a: Entry, b: Entry, start: Key, end: Key)
    requires a.key.key == b.key.key
    ensures InRange(a, start, end) <==> InRange(b, start, end)
  {
  }

  lemma ReadingsAreVisible(entries: seq<Entry>, i: nat, ts: Timestamp)
    ensures IsReading(entries, i, ts) ==> Visible(entries[i], ts) && !IsHidden(entries, i, ts)
  {
  }

  /** A scan that stands at the first entry of a key takes a prefix of what it should take, and
      takes all of it if and only if it meets no hidden key before the end of it. */
  lemma {:induction false} ScanFromIsExactIff(entries: seq<Entry>, at: nat, start: Key, end: Key, ts: Timestamp,
      limit: nat)
    requires ValidEntries(entries) && at <= |entries|
    requires at < |entries| ==> StartsKey(entries, at) && Le(start, entries[at].key.key)
    ensures ScanFrom(entries, at, end, ts, limit) <= Gathered(entries, at, start, end, ts, limit)
    ensures ScanFrom(entries, at, end, ts, limit) == Gathered(entries, at, start, end, ts, limit) <==>
      NoneHidden(entries, at, start, end, ts, limit)
    decreases |entries| - at
  {
    hide CompareFrom, IsReading, Visible, IsHidden, StartsKey;
    var gathered := Gathered(entries, at, start, end, ts, limit);
    if at < |entries| && limit > 0 {
      var key, next := entries[at].key.key, NextKey(entries, at);
      if Lt(end, key) {
        BeyondTheEnd(entries, at, start, end, ts, limit);
      } else {
        KeyOrder(key, end, key);
        KeyOrder(end, key, end);
        OneKey(entries, at, start, end, ts, limit);
        TakenIsReading(entries, at, ts);
        if next < |entries| {
          NextStartsKey(entries, at, start);
        }
        match Taken(entries, at, ts) {
          case Some(i) =>
            var limit' := Remaining(entries[i], limit);
            ScanFromIsExactIff(entries, next, start, end, ts, limit');
            GatheredBounds(entries, next, start, end, ts, limit');
            forall h | at <= h < next ensures !IsHidden(entries, h, ts) {
              ReadingsAreVisible(entries, i, ts);
              SameHidden(entries, h, i, ts);
            }
            TailNoneHidden(entries, at, i, next, start, end, ts, limit);
          case None =>
            GatheredBounds(entries, at, start, end, ts, limit);
            HiddenKey(entries, at, ts);
            ReadingsAreVisible(entries, at, ts);
            assert ScanFrom(entries, at, end, ts, limit) == [];
            if gathered != [] {
              assert gathered[0] in gathered && at < gathered[0] && IsHidden(entries, at, ts);
            }
        }
      }
    }
  }

  lemma SameHidden(entries: seq<Entry>, h: nat, i: nat, ts: Timestamp)
    requires h < |entries| && i < |entries| && entries[h].key.key == entries[i].key.key
    ensures IsHidden(entries, h, ts) <==> IsHidden(entries, i, ts)
  {
  }

  lemma HiddenKey(entries: seq<Entry>, at: nat, ts: Timestamp)
    requires ValidEntries(entries) && StartsKey(entries, at) && Taken(entries, at, ts).None?
    ensures IsHidden(entries, at, ts)
  {
    hide CompareFrom;
    TakenIsReading(entries, at, ts);
    var next := NextKey(entries, at);
    forall j | 0 <= j < |entries| && entries[j].key.key == entries[at].key.key ensures at <= j < next {
      if j < at {
        SameKey(entries, j, at);
      } else if j >= next {
        SameKey(entries, at, j);
      }
    }
  }

  lemma NextStartsKey(entries: seq<Entry>, at: nat, start: Key)
    requires ValidEntries(entries) && at < |entries| && NextKey(entries, at) < |entries|
    requires Le(start, entries[at].key.key)
    ensures StartsKey(entries, NextKey(entries, at)) && Le(start, entries[NextKey(entries, at)].key.key)
  {
    hide CompareFrom;
    var next := NextKey(entries, at);
    KeysAscend(entries, at, next);
    KeyOrder(start, entries[at].key.key, entries[next].key.key);
  }

  lemma BeyondTheEnd(entries: seq<Entry>, at: nat, start: Key, end: Key, ts: Timestamp, limit: nat)
    requires ValidEntries(entries) && at < |entries| && Lt(end, entries[at].key.key)
    ensures Gathered(entries, at, start, end, ts, limit) == []
  {
    hide CompareFrom, IsReading;
    forall i | at <= i < |entries| ensures !InRange(entries[i], start, end) {
      KeysAscend(entries, at, i);
      KeyOrder(end, entries[at].key.key, entries[i].key.key);
      KeyOrder(end, entries[i].key.key, end);
    }
    GatheredSkip(entries, at, |entries|, start, end, ts, limit);
  }

  /** The first key is not hidden, so what matters is the rest. */
  lemma TailNoneHidden(entries: seq<Entry>, at: nat, i: nat, next: nat, start: Key, end: Key, ts: Timestamp, limit: nat)
    requires at <= i < next <= |entries| && limit > 0
    requires forall h :: at <= h < next ==> !IsHidden(entries, h, ts)
    requires
      var limit' := Remaining(entries[i], limit);
      Gathered(entries, at, start, end, ts, limit) == [i] + Gathered(entries, next, start, end, ts, limit')
    requires forall j :: j in Gathered(entries, next, start, end, ts, Remaining(entries[i], limit)) ==> next <= j
    ensures NoneHidden(entries, at, start, end, ts, limit) <==>
      NoneHidden(entries, next, start, end, ts, Remaining(entries[i], limit))
  {
    hide IsHidden, InRange, Gathered;
    var all := Gathered(entries, at, start, end, ts, limit);
    var tail := Gathered(entries, next, start, end, ts, Remaining(entries[i], limit));
    assert forall j :: j in all <==> j == i || j in tail;
  }

  // ---------- whole scans ----------

  predicate HasKey(entries: seq<Entry>, key: Key) {
    exists i :: 0 <= i < |entries| && entries[i].key.key == key
  }

  /** What a caller would have to know for a scan to be right. If the start key is stored, no key
      with only newer versions may come before a reading. If it is not, the scan sees nothing but
      the last entry of the store. */
  ghost predicate IsReliable(entries: seq<Entry>, start: Key, end: Key, ts: Timestamp, limit: nat) {
    if HasKey(entries, start) then NoneHidden(entries, 0, start, end, ts, limit)
    else
      limit == 0 || entries == [] ||
      (var last := entries[|entries| - 1];
       (Visible(last, ts) && Le(last.key.key, end) ==> Le(start, last.key.key)) &&
       forall i :: 0 <= i < |entries| - 1 && InRange(entries[i], start, end) ==> !Visible(entries[i], ts))
  }

  /** A scan takes exactly the readings of its range under that condition and no other. */
  lemma ScanIsExactIff(entries: seq<Entry>, start: Key, end: Key, ts: Timestamp, limit: nat)
    requires ValidEntries(entries)
    ensures Scan(entries, start, end, ts, limit) == Gathered(entries, 0, start, end, ts, limit) <==>
      IsReliable(entries, start, end, ts, limit)
  {
    if HasKey(entries, start) {
      ScanOfStoredKey(entries, start, end, ts, limit);
    } else if limit > 0 && entries != [] {
      ScanOfMissingKey(entries, start, end, ts, limit);
    }
  }

  lemma SeekOfIntentKey(entries: seq<Entry>, start: Key)
    ensures
      var at := SeekFrom(entries, 0, IntentKey(start));
      if HasKey(entries, start) then
        at < |entries| && entries[at].key.key == start && forall i :: 0 <= i < at ==> entries[i].key.key != start
      else at == if entries == [] then 0 else |entries| - 1
  {
    forall i | 0 <= i < |entries|
      ensures Answers(entries[i].key, IntentKey(start)) <==> entries[i].key.key == start
    {
    }
  }

  lemma {:induction false} ScanOfStoredKey(entries: seq<Entry>, start: Key, end: Key, ts: Timestamp, limit: nat)
    requires ValidEntries(entries) && HasKey(entries, start)
    ensures Scan(entries, start, end, ts, limit) <= Gathered(entries, 0, start, end, ts, limit)
    ensures Scan(entries, start, end, ts, limit) == Gathered(entries, 0, start, end, ts, limit) <==>
      NoneHidden(entries, 0, start, end, ts, limit)
  {
    hide CompareFrom, IsReading, Visible, IsHidden, Gathered, ScanFrom;
    var at := SeekFrom(entries, 0, IntentKey(start));
    SeekOfIntentKey(entries, start);
    KeyOrder(start, start, start);
    forall i | 0 <= i < at ensures !InRange(entries[i], start, end) {
      KeysAscend(entries, i, at);
      KeyOrder(entries[i].key.key, start, start);
      KeyOrder(start, entries[i].key.key, start);
    }
    GatheredSkip(entries, 0, at, start, end, ts, limit);
    ScanFromIsExactIff(entries, at, start, end, ts, limit);
    GatheredBounds(entries, at, start, end, ts, limit);
  }

  lemma ScanOfMissingKey(entries: seq<Entry>, start: Key, end: Key, ts: Timestamp, limit: nat)
    requires ValidEntries(entries) && !HasKey(entries, start) && limit > 0 && entries != []
    ensures Scan(entries, start, end, ts, limit) == Gathered(entries, 0, start, end, ts, limit) <==>
      IsReliable(entries, start, end, ts, limit)
  {
    hide CompareFrom, IsReading, Visible, Gathered;
    var n := |entries| - 1;
    var last := entries[n];
    SeekOfIntentKey(entries, start);
    OnlyTheLast(entries, end, ts, limit);
    KeyOrder(last.key.key, end, last.key.key);
    KeyOrder(end, last.key.key, end);
    LastGathered(entries, start, end, ts, limit);
    ReadingsAreVisible(entries, n, ts);
    if i :| 0 <= i < n && InRange(entries[i], start, end) && Visible(entries[i], ts) {
      FirstVisible(entries, i, start, end, ts, limit);
    } else {
      forall i | 0 <= i < n ensures !(InRange(entries[i], start, end) && IsReading(entries, i, ts)) {
        ReadingsAreVisible(entries, i, ts);
      }
      GatheredSkip(entries, 0, n, start, end, ts, limit);
      if InRange(last, start, end) && Visible(last, ts) {
        LastIsReading(entries, start, end, ts);
      }
    }
  }

  /** A scan that starts at the last entry. */
  lemma OnlyTheLast(entries: seq<Entry>, end: Key, ts: Timestamp, limit: nat)
    requires entries != [] && limit > 0
    ensures
      var n := |entries| - 1;
      ScanFrom(entries, n, end, ts, limit) ==
      if Visible(entries[n], ts) && !Lt(end, entries[n].key.key) then [n] else []
  {
    var n := |entries| - 1;
    if !Visible(entries[n], ts) {
      assert FirstAnswer(entries, n, MVCCKey(entries[n].key.key, ts)) == |entries|;
    }
  }

  lemma LastGathered(entries: seq<Entry>, start: Key, end: Key, ts: Timestamp, limit: nat)
    requires entries != [] && limit > 0
    ensures
      var n := |entries| - 1;
      Gathered(entries, n, start, end, ts, limit) ==
      if InRange(entries[n], start, end) && IsReading(entries, n, ts) then [n] else []
  {
    hide InRange, IsReading;
  }

  lemma LastIsReading(entries: seq<Entry>, start: Key, end: Key, ts: Timestamp)
    requires entries != []
    requires
      var n := |entries| - 1;
      InRange(entries[n], start, end) && Visible(entries[n], ts) &&
      forall i :: 0 <= i < n && InRange(entries[i], start, end) ==> !Visible(entries[i], ts)
    ensures IsReading(entries, |entries| - 1, ts)
  {
    hide InRange, Visible;
    var n := |entries| - 1;
    forall j | 0 <= j < n && entries[j].key.key == entries[n].key.key ensures !Visible(entries[j], ts) {
      SameInRange(entries[j], entries[n], start, end);
    }
  }

  /** A visible entry of the range means that something at or before it should be taken. */
  lemma {:induction false} FirstVisible(entries: seq<Entry>, i: nat, start: Key, end: Key, ts: Timestamp, limit: nat)
    requires i < |entries| && InRange(entries[i], start, end) && Visible(entries[i], ts) && limit > 0
    ensures
      var gathered := Gathered(entries, 0, start, end, ts, limit);
      gathered != [] && gathered[0] <= i
  {
    hide InRange, Visible, Gathered;
    if !IsReading(entries, i, ts) {
      var j :| 0 <= j < i && entries[j].key.key == entries[i].key.key && Visible(entries[j], ts);
      SameInRange(entries[i], entries[j], start, end);
      FirstVisible(entries, j, start, end, ts, limit);
    } else {
      FirstReading(entries, 0, i, start, end, ts, limit);
    }
  }

  lemma {:induction false} FirstReading(entries: seq<Entry>, from: nat, i: nat, start: Key, end: Key, ts: Timestamp,
      limit: nat)
    requires from <= i < |entries| && InRange(entries[i], start, end) && IsReading(entries, i, ts) && limit > 0
    ensures
      var gathered := Gathered(entries, from, start, end, ts, limit);
      gathered != [] && gathered[0] <= i
    decreases i - from
  {
    hide InRange, IsReading;
    if from < i && !(InRange(entries[from], start, end) && IsReading(entries, from, ts)) {
      FirstReading(entries, from + 1, i, start, end, ts, limit);
    }
  }

  // ---------- single keys ----------

  /** A read of one key, for which the scan has a limit of one and the same start and end. */
  function Get(entries: seq<Entry>, key: Key, ts: Timestamp): seq<nat> {
    Scan(entries, key, key, ts, 1)
  }

  /** The reading of the key, if it has one, and nothing else. */
  predicate IsExactRead(entries: seq<Entry>, key: Key, ts: Timestamp, taken: seq<nat>) {
    if taken == [] then forall i :: 0 <= i < |entries| && entries[i].key.key == key ==> !IsReading(entries, i, ts)
    else |taken| == 1 && taken[0] < |entries| && entries[taken[0]].key.key == key && IsReading(entries, taken[0], ts)
  }

  lemma {:induction false} GatheredOneKey(entries: seq<Entry>, from: nat, key: Key, ts: Timestamp, limit: nat)
    requires from <= |entries| && limit > 0
    ensures
      var taken := Gathered(entries, from, key, key, ts, limit);
      if taken == [] then forall i :: from <= i < |entries| && entries[i].key.key == key ==> !IsReading(entries, i, ts)
      else |taken| == 1 && taken[0] < |entries| && entries[taken[0]].key.key == key && IsReading(entries, taken[0], ts)
    decreases |entries| - from
  {
    hide CompareFrom, Visible;
    if from < |entries| {
      forall i | 0 <= i < |entries| ensures InRange(entries[i], key, key) <==> entries[i].key.key == key {
        KeyOrder(key, entries[i].key.key, key);
        KeyOrder(entries[i].key.key, key, key);
      }
      GatheredOneKey(entries, from + 1, key, ts, limit);
      if InRange(entries[from], key, key) && IsReading(entries, from, ts) {
        GatheredSkip(entries, from + 1, |entries|, key, key, ts, Remaining(entries[from], limit));
      }
    }
  }

  /** A read of a key is exact if and only if the key is stored, the store is empty, or the last
      entry of the store belongs to a greater key or is a version that is too new to be seen. */
  lemma GetIsExactIff(entries: seq<Entry>, key: Key, ts: Timestamp)
    requires ValidEntries(entries)
    ensures IsExactRead(entries, key, ts, Get(entries, key, ts)) <==>
      HasKey(entries, key) || entries == [] ||
      Lt(key, entries[|entries| - 1].key.key) || !Visible(entries[|entries| - 1], ts)
  {
    hide CompareFrom, Visible, IsReading, ScanFrom, Gathered;
    var gathered := Gathered(entries, 0, key, key, ts, 1);
    GatheredOneKey(entries, 0, key, ts, 1);
    if IsExactRead(entries, key, ts, Get(entries, key, ts)) {
    }
    ScanIsExactIff(entries, key, key, ts, 1);
    if HasKey(entries, key) {
      forall i, h | i in gathered && 0 <= h < i && h < |entries| && InRange(entries[h], key, key)
        ensures !IsHidden(entries, h, ts)
      {
        KeyOrder(key, entries[h].key.key, key);
        KeyOrder(entries[h].key.key, key, key);
        SameHidden(entries, h, i, ts);
        ReadingsAreVisible(entries, i, ts);
      }
    } else if entries != [] {
      var last := entries[|entries| - 1];
      KeyOrder(key, last.key.key, key);
      KeyOrder(last.key.key, key, last.key.key);
      forall i | 0 <= i < |entries| ensures !InRange(entries[i], key, key) {
        KeyOrder(key, entries[i].key.key, key);
        KeyOrder(entries[i].key.key, key, key);
      }
    }
  }

  /** A read of a key that is not stored takes the last entry, if it can see it. */
  lemma GetOfMissingKey(entries: seq<Entry>, key: Key, ts: Timestamp)
    requires !HasKey(entries, key)
    ensures Get(entries, key, ts) ==
      if entries != [] && Visible(entries[|entries| - 1], ts) && !Lt(key, entries[|entries| - 1].key.key)
      then [|entries| - 1] else []
  {
    SeekOfIntentKey(entries, key);
    if entries != [] {
      OnlyTheLast(entries, key, ts, 1);
    }
  }

  /** A read of a key that is not stored can return the value of another key. */
  lemma ReadOfMissingKey()
    ensures
      var entries := [Entry(MVCCKey([97], Timestamp(5, 0)), Version([1]))];
      ValidEntries(entries) && !HasKey(entries, [98]) && Get(entries, [98], Timestamp(9, 0)) == [0]
  {
    var entries := [Entry(MVCCKey([97], Timestamp(5, 0)), Version([1]))];
    SeekOfIntentKey(entries, [98]);
    OnlyTheLast(entries, [98], Timestamp(9, 0), 1);
  }

  /** A scan can miss a key that comes after one with only newer versions. */
  lemma {:induction false} ScanPastHiddenKey()
    ensures
      var entries := [
        Entry(MVCCKey([97], Timestamp(9, 0)), Version([1])), Entry(MVCCKey([98], Timestamp(5, 0)), Version([2]))];
      ValidEntries(entries) && HasKey(entries, [97]) &&
      Gathered(entries, 0, [97], [98], Timestamp(7, 0), 10) == [1] &&
      Scan(entries, [97], [98], Timestamp(7, 0), 10) == []
  {
    var entries := [
      Entry(MVCCKey([97], Timestamp(9, 0)), Version([1])), Entry(MVCCKey([98], Timestamp(5, 0)), Version([2]))];
    var ts := Timestamp(7, 0);
    assert entries[0].key.key == [97];
    SeekOfIntentKey(entries, [97]);
    assert FirstAnswer(entries, 0, MVCCKey([97], ts)) == 2;
    LastGathered(entries, [97], [98], ts, 10);
    GatheredSkip(entries, 0, 1, [97], [98], ts, 10);
  }

  // ---------- what a scan returns ----------

  function PushResult(results: seq<(MVCCKey, Value)>, e: Entry): seq<(MVCCKey, Value)> {
    if e.stored.Version? then results + [(e.key, e.stored.value)] else results
  }

  function PushIntent(intents: seq<(TxnIntent, Value)>, e: Entry): seq<(TxnIntent, Value)> {
    if e.stored.Uncommitted? then intents + [(TxnIntent(e.stored.txnMetadata, e.key.key), e.stored.value)] else intents
  }

  predicate Inside(taken: seq<nat>, bound: nat) {
    forall j :: 0 <= j < |taken| ==> taken[j] < bound
  }

  function Results(entries: seq<Entry>, taken: seq<nat>): seq<(MVCCKey, Value)>
    requires Inside(taken, |entries|)
  {
    if taken == [] then []
    else
      var n := |taken| - 1;
      PushResult(Results(entries, taken[..n]), entries[taken[n]])
  }

  function Intents(entries: seq<Entry>, taken: seq<nat>): seq<(TxnIntent, Value)>
    requires Inside(taken, |entries|)
  {
    if taken == [] then []
    else
      var n := |taken| - 1;
      PushIntent(Intents(entries, taken[..n]), entries[taken[n]])
  }

  predicate Increasing(taken: seq<nat>, bound: nat) {
    (forall i, j :: 0 <= i < j < |taken| ==> taken[i] < taken[j]) && Inside(taken, bound)
  }

  lemma {:induction false} OutputSources(entries: seq<Entry>, taken: seq<nat>)
    requires Inside(taken, |entries|)
    ensures |Results(entries, taken)| + |Intents(entries, taken)| == |taken|
    ensures forall r :: r in Results(entries, taken) ==> exists i :: i in taken && entries[i].key == r.0
    ensures forall r :: r in Intents(entries, taken) ==>
      exists i :: i in taken && entries[i].key.key == r.0.key && entries[i].stored.Uncommitted?
  {
    if taken != [] {
      var n := |taken| - 1;
      OutputSources(entries, taken[..n]);
      assert taken == taken[..n] + [taken[n]];
    }
  }

  /** What a scan returns tells which entries it took. */
  lemma {:induction false} OutputTells(entries: seq<Entry>, a: seq<nat>, b: seq<nat>)
    requires ValidEntries(entries) && Increasing(a, |entries|) && Increasing(b, |entries|)
    requires Results(entries, a) == Results(entries, b) && Intents(entries, a) == Intents(entries, b)
    ensures a == b
    decreases |a|
  {
    hide Before, PushResult, PushIntent;
    OutputSources(entries, a);
    OutputSources(entries, b);
    if a != [] {
      var n := |a| - 1;
      assert |b| == |a|;
      if a[n] < b[n] {
        LastOutput(entries, a, b);
      } else if b[n] < a[n] {
        LastOutput(entries, b, a);
      } else {
        var a', b' := a[..n], b[..n];
        PushInjective(Results(entries, a'), Results(entries, b'),
                      Intents(entries, a'), Intents(entries, b'), entries[a[n]]);
        OutputTells(entries, a[..n], b[..n]);
        assert a == a[..n] + [a[n]] && b == b[..n] + [b[n]];
      }
    }
  }

  lemma PushInjective(r1: seq<(MVCCKey, Value)>, r2: seq<(MVCCKey, Value)>,
    i1: seq<(TxnIntent, Value)>, i2: seq<(TxnIntent, Value)>, e: Entry)
    requires PushResult(r1, e) == PushResult(r2, e) && PushIntent(i1, e) == PushIntent(i2, e)
    ensures r1 == r2 && i1 == i2
  {
    var r, i := PushResult(r1, e), PushIntent(i1, e);
    if e.stored.Version? {
      assert r[..|r| - 1] == r1 && r[..|r| - 1] == r2;
    } else {
      assert i[..|i| - 1] == i1 && i[..|i| - 1] == i2;
    }
  }

  lemma {:induction false} LastOutput(entries: seq<Entry>, a: seq<nat>, b: seq<nat>)
    requires ValidEntries(entries) && Increasing(a, |entries|) && Increasing(b, |entries|)
    requires a != [] && b != [] && a[|a| - 1] < b[|b| - 1]
    ensures Results(entries, a) != Results(entries, b) || Intents(entries, a) != Intents(entries, b)
  {
    hide Before;
    var i := b[|b| - 1];
    var e := entries[i];
    forall j | j in a
      ensures j < i && entries[j].key != e.key && (e.stored.Uncommitted? ==> entries[j].key.key != e.key.key)
    {
      DistinctKeys(entries, j, i);
    }
    OutputSources(entries, a);
    hide Results, Intents, ValidEntries;
  }

  lemma DistinctKeys(entries: seq<Entry>, i: nat, j: nat)
    requires ValidEntries(entries) && i < j < |entries|
    ensures entries[i].key != entries[j].key
    ensures entries[j].stored.Uncommitted? ==> entries[i].key.key != entries[j].key.key
  {
    hide CompareFrom;
    BeforeOrder(entries[j].key, entries[j].key, entries[j].key);
    if entries[i].key.key == entries[j].key.key {
      SameKey(entries, i, j);
    }
  }

  lemma {:induction false} GatheredIncreasing(entries: seq<Entry>, from: nat, start: Key, end: Key, ts: Timestamp,
      limit: nat)
    requires from <= |entries|
    ensures
      var gathered := Gathered(entries, from, start, end, ts, limit);
      Increasing(gathered, |entries|) && forall j :: 0 <= j < |gathered| ==> from <= gathered[j]
    decreases |entries| - from
  {
    hide InRange, IsReading;
    if from < |entries| && limit > 0 {
      if InRange(entries[from], start, end) && IsReading(entries, from, ts) {
        GatheredIncreasing(entries, from + 1, start, end, ts, Remaining(entries[from], limit));
      } else {
        GatheredIncreasing(entries, from + 1, start, end, ts, limit);
      }
    }
  }

  lemma {:induction false} ScanIncreasing(entries: seq<Entry>, at: nat, end: Key, ts: Timestamp, limit: nat)
    requires at <= |entries|
    ensures
      var taken := ScanFrom(entries, at, end, ts, limit);
      Increasing(taken, |entries|) && forall j :: 0 <= j < |taken| ==> at <= taken[j]
    decreases |entries| - at
  {
    if limit > 0 && at < |entries| && !Lt(end, entries[at].key.key) {
      match Taken(entries, at, ts) {
        case Some(i) => ScanIncreasing(entries, NextKey(entries, i), end, ts, Remaining(entries[i], limit));
        case None => ScanIncreasing(entries, NextKey(entries, |entries| - 1), end, ts, limit);
      }
    }
  }

  /** A scan returns the readings of the range if and only if it is reliable. */
  lemma {:induction false} ScanReturnsReadingsIff(entries: seq<Entry>, start: Key, end: Key, ts: Timestamp, limit: nat)
    requires ValidEntries(entries)
    ensures
      var taken, gathered := Scan(entries, start, end, ts, limit), Gathered(entries, 0, start, end, ts, limit);
      Increasing(taken, |entries|) && Increasing(gathered, |entries|) &&
      (IsReliable(entries, start, end, ts, limit) <==>
        Results(entries, taken) == Results(entries, gathered) && Intents(entries, taken) == Intents(entries, gathered))
  {
    hide ScanFrom, Gathered, IsReliable, Results, Intents;
    var taken, gathered := Scan(entries, start, end, ts, limit), Gathered(entries, 0, start, end, ts, limit);
    ScanIncreasing(entries, SeekFrom(entries, 0, IntentKey(start)), end, ts, limit);
    GatheredIncreasing(entries, 0, start, end, ts, limit);
    ScanIsExactIff(entries, start, end, ts, limit);
    if Results(entries, taken) == Results(entries, gathered) && Intents(entries, taken) == Intents(entries, gathered) {
      OutputTells(entries, taken, gathered);
    }
  }
}

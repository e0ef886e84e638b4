/** What reads and scans should return, said of the store alone, and when they do. */
module MvccAnswers {
  import opened Keys
  import opened Timestamps
  import opened Txns
  import opened MvccKeys
  import opened Storages
  import opened MvccIterators
  import opened MvccReads
  import opened MvccScanners

  /** `value` is the newest version of the key that is not newer than `ts`. */
  ghost predicate IsNewest(entries: seq<Entry>, key: Key, ts: Timestamp, value: Option<(MVCCKey, Value)>) {
    match value
    case Some((k, v)) =>
      k.key == key && !k.IsIntentKey() && k.timestamp.Le(ts) && Lookup(entries, k) == Some(Version(v)) &&
      forall t: Timestamp :: !t.IsIntent() && t.Le(ts) && Lookup(entries, MVCCKey(key, t)).Some? ==> t.Le(k.timestamp)
    case None =>
      forall t: Timestamp :: !t.IsIntent() && t.Le(ts) ==> Lookup(entries, MVCCKey(key, t)).None?
  }

  lemma NewestUnique(entries: seq<Entry>, key: Key, ts: Timestamp, a: Option<(MVCCKey, Value)>,
      b: Option<(MVCCKey, Value)>)
    requires IsNewest(entries, key, ts, a) && IsNewest(entries, key, ts, b)
    ensures a == b
  {
    assert a.Some? ==> a.value.0 == MVCCKey(key, a.value.0.timestamp);
    assert b.Some? ==> b.value.0 == MVCCKey(key, b.value.0.timestamp);
    if a.Some? && b.Some? {
      TimestampOrder(a.value.0.timestamp, b.value.0.timestamp, a.value.0.timestamp);
    }
  }

  /** What a read of a key should return: its intent or else its newest visible version. */
  ghost predicate IsRightRead(entries: seq<Entry>, key: Key, ts: Timestamp,
    value: Option<(MVCCKey, Value)>, intent: Option<(TxnIntent, Value)>)
  {
    match Lookup(entries, IntentKey(key))
    case Some(Uncommitted(v, metadata)) => value.None? && intent == Some((TxnIntent(metadata, key), v))
    case _ => intent.None? && IsNewest(entries, key, ts, value)
  }

  function First<T>(s: seq<T>): Option<T> {
    if s == [] then None else Some(s[0])
  }

  lemma EntryOf(entries: seq<Entry>, key: MVCCKey)
    requires ValidEntries(entries) && Lookup(entries, key).Some?
    ensures exists i :: 0 <= i < |entries| && entries[i] == Entry(key, Lookup(entries, key).value)
    ensures Fits(key, Lookup(entries, key).value)
  {
    hide Before;
    LookupFound(entries, key);
  }

  /** An exact read returns the intent or the newest visible version. */
  lemma {:induction false} ExactReadIsRight(entries: seq<Entry>, key: Key, ts: Timestamp, taken: seq<nat>)
    requires ValidEntries(entries) && IsExactRead(entries, key, ts, taken)
    ensures Inside(taken, |entries|)
    ensures IsRightRead(entries, key, ts, First(Results(entries, taken)), First(Intents(entries, taken)))
  {
    hide CompareFrom, Before, Visible, IsReading;
    NothingTaken(entries);
    if taken != [] {
      assert taken == [] + taken;
      TakeOne(entries, [], taken[0]);
      assert [] + [taken[0]] == taken;
      ReadingIsRight(entries, key, ts, taken[0]);
    } else {
      NoReading(entries, key, ts);
    }
  }

  lemma {:induction false} ReadingIsRight(entries: seq<Entry>, key: Key, ts: Timestamp, i: nat)
    requires ValidEntries(entries) && i < |entries| && entries[i].key.key == key && IsReading(entries, i, ts)
    ensures IsRightRead(entries, key, ts, First(PushResult([], entries[i])), First(PushIntent([], entries[i])))
  {
    hide CompareFrom, Before, Visible, IsReading;
    var e := entries[i];
    ReadingMeaning(entries, i, ts);
    LookupFinds(entries, i);
    if e.key.IsIntentKey() {
      assert e.key == IntentKey(key);
    } else {
      forall t: Timestamp | !t.IsIntent() && t.Le(ts) && Lookup(entries, MVCCKey(key, t)).Some?
        ensures t.Le(e.key.timestamp)
      {
        EntryOf(entries, MVCCKey(key, t));
      }
    }
  }

  lemma NoReading(entries: seq<Entry>, key: Key, ts: Timestamp)
    requires ValidEntries(entries)
    requires forall i :: 0 <= i < |entries| && entries[i].key.key == key ==> !IsReading(entries, i, ts)
    ensures IsRightRead(entries, key, ts, None, None)
  {
    hide CompareFrom, Before;
    if Lookup(entries, IntentKey(key)).Some? {
      EntryOf(entries, IntentKey(key));
      var i :| 0 <= i < |entries| && entries[i].key == IntentKey(key);
      ReadingMeaning(entries, i, ts);
    }
    forall t: Timestamp | !t.IsIntent() && t.Le(ts) ensures Lookup(entries, MVCCKey(key, t)).None? {
      if Lookup(entries, MVCCKey(key, t)).Some? {
        EntryOf(entries, MVCCKey(key, t));
        var i :| 0 <= i < |entries| && entries[i].key == MVCCKey(key, t);
        SomeReading(entries, i, ts);
      }
    }
  }

  /** A key with a visible entry has a reading. */
  lemma {:induction false} SomeReading(entries: seq<Entry>, i: nat, ts: Timestamp)
    requires i < |entries| && Visible(entries[i], ts)
    ensures exists j :: 0 <= j < |entries| && entries[j].key.key == entries[i].key.key && IsReading(entries, j, ts)
  {
    hide Visible;
    if !IsReading(entries, i, ts) {
      var j :| 0 <= j < i && entries[j].key.key == entries[i].key.key && Visible(entries[j], ts);
      SomeReading(entries, j, ts);
    }
  }

  // ---------- scans ----------

  predicate AscendingResults(results: seq<(MVCCKey, Value)>) {
    forall i, j :: 0 <= i < j < |results| ==> Lt(results[i].0.key, results[j].0.key)
  }

  predicate AscendingIntents(intents: seq<(TxnIntent, Value)>) {
    forall i, j :: 0 <= i < j < |intents| ==> Lt(intents[i].0.key, intents[j].0.key)
  }

  predicate InKeys(key: Key, start: Key, end: Key) {
    Le(start, key) && Le(key, end)
  }

  /** The limit is reached before the key. */
  predicate IsCut(results: seq<(MVCCKey, Value)>, limit: nat, key: Key) {
    |results| == limit && forall r :: r in results ==> Lt(r.0.key, key)
  }

  /** A committed reading of a key: it has no intent, and this is its newest visible version. */
  ghost predicate IsCommittedReading(entries: seq<Entry>, key: Key, ts: Timestamp, r: (MVCCKey, Value)) {
    Lookup(entries, IntentKey(key)).None? && IsNewest(entries, key, ts, Some(r))
  }

  predicate IsIntentThere(entries: seq<Entry>, x: (TxnIntent, Value)) {
    Lookup(entries, IntentKey(x.0.key)) == Some(Uncommitted(x.1, x.0.txnMeta))
  }

  /** In key order, the committed readings of the keys in the range and the intents on others, until
      the limit is reached. */
  ghost predicate IsScanAnswer(entries: seq<Entry>, start: Key, end: Key, ts: Timestamp, limit: nat,
      results: seq<(MVCCKey, Value)>, intents: seq<(TxnIntent, Value)>)
  {
    AscendingResults(results) && AscendingIntents(intents) && |results| <= limit &&
    (forall r :: r in results ==> InKeys(r.0.key, start, end) && IsCommittedReading(entries, r.0.key, ts, r)) &&
    (forall x :: x in intents ==>
      InKeys(x.0.key, start, end) && IsIntentThere(entries, x) && !IsCut(results, limit, x.0.key)) &&
    (forall r: (MVCCKey, Value) :: InKeys(r.0.key, start, end) && IsCommittedReading(entries, r.0.key, ts, r) ==>
      r in results || IsCut(results, limit, r.0.key)) &&
    (forall x: (TxnIntent, Value) :: InKeys(x.0.key, start, end) && IsIntentThere(entries, x) ==>
      x in intents || IsCut(results, limit, x.0.key))
  }

  // ---------- at most one answer ----------

  function ResultKey(r: (MVCCKey, Value)): Key {
    r.0.key
  }

  function IntentOf(x: (TxnIntent, Value)): Key {
    x.0.key
  }

  ghost predicate Ascending<T>(s: seq<T>, key: T -> Key) {
    forall i, j :: 0 <= i < j < |s| ==> Lt(key(s[i]), key(s[j]))
  }

  lemma LastIsGreatest<T>(a: seq<T>, b: seq<T>, key: T -> Key)
    requires Ascending(b, key) && a != [] && b != [] && forall r :: r in a ==> r in b
    ensures Le(key(a[|a| - 1]), key(b[|b| - 1]))
  {
    hide CompareFrom;
    assert a[|a| - 1] in b;
    var i :| 0 <= i < |b| && b[i] == a[|a| - 1];
    KeyOrder(key(b[i]), key(b[|b| - 1]), key(b[i]));
  }

  lemma SameLast<T>(a: seq<T>, b: seq<T>, key: T -> Key)
    requires Ascending(a, key) && Ascending(b, key) && (forall r :: r in a <==> r in b) && a != [] && b != []
    ensures a[|a| - 1] == b[|b| - 1]
  {
    hide CompareFrom;
    var m, n := |a| - 1, |b| - 1;
    LastIsGreatest(a, b, key);
    LastIsGreatest(b, a, key);
    KeyOrder(key(a[m]), key(b[n]), key(a[m]));
    assert a[m] in b;
    var i :| 0 <= i < |b| && b[i] == a[m];
    KeyOrder(key(b[n]), key(b[n]), key(b[n]));
  }

  lemma ButLast<T>(a: seq<T>, b: seq<T>, key: T -> Key, r: T)
    requires Ascending(a, key) && a != [] && b != [] && a[|a| - 1] == b[|b| - 1]
    requires r in a[..|a| - 1] && r in b
    ensures r in b[..|b| - 1]
  {
    hide CompareFrom;
    var last := a[|a| - 1];
    KeyOrder(key(last), key(last), key(last));
    assert b == b[..|b| - 1] + [last];
  }

  lemma HasMember<T>(s: seq<T>)
    ensures s != [] ==> exists r :: r in s
  {
    if s != [] {
      assert s[0] in s;
    }
  }

  /** Ascending lists with the same members are the same. */
  lemma {:induction false} SameList<T>(a: seq<T>, b: seq<T>, key: T -> Key)
    requires Ascending(a, key) && Ascending(b, key) && forall r :: r in a <==> r in b
    ensures a == b
    decreases |a|
  {
    hide CompareFrom;
    if a == [] {
      HasMember(b);
    } else {
      HasMember(a);
      var a', b' := a[..|a| - 1], b[..|b| - 1];
      SameLast(a, b, key);
      assert a == a' + [a[|a| - 1]] && b == b' + [b[|b| - 1]];
      forall r | r in a' ensures r in b' {
        ButLast(a, b, key, r);
      }
      forall r | r in b' ensures r in a' {
        ButLast(b, a, key, r);
      }
      hide *;
      SameList(a', b', key);
    }
  }

  /** Ascending lists have as many elements as members. */
  lemma {:induction false} FewerMembers<T>(a: seq<T>, b: seq<T>, key: T -> Key, extra: T)
    requires Ascending(a, key) && Ascending(b, key)
    requires (forall r :: r in b ==> r in a) && extra in a && extra !in b
    ensures |b| < |a|
    decreases |b|
  {
    hide CompareFrom;
    if b != [] {
      var n := |b| - 1;
      assert b[n] in a;
      var i :| 0 <= i < |a| && a[i] == b[n];
      var a' := a[..i] + a[i + 1..];
      assert a == a[..i] + [a[i]] + a[i + 1..];
      forall j, k | 0 <= j < k < |a'| ensures Lt(key(a'[j]), key(a'[k])) {
        assert a'[j] == (if j < i then a[j] else a[j + 1]) && a'[k] == if k < i then a[k] else a[k + 1];
      }
      forall r | r in b[..n] ensures r in a' {
        var j :| 0 <= j < n && b[j] == r;
        KeyOrder(key(b[n]), key(b[n]), key(b[n]));
        assert r != b[n] && r in a;
      }
      FewerMembers(a', b[..n], key, extra);
    }
  }

  lemma {:induction false} ResultsAreMembers(entries: seq<Entry>, start: Key, end: Key, ts: Timestamp, limit: nat,
      r1: seq<(MVCCKey, Value)>, i1: seq<(TxnIntent, Value)>, r2: seq<(MVCCKey, Value)>, i2: seq<(TxnIntent, Value)>,
      r: (MVCCKey, Value))
    requires IsScanAnswer(entries, start, end, ts, limit, r1, i1)
    requires IsScanAnswer(entries, start, end, ts, limit, r2, i2)
    requires r in r1
    ensures r in r2
  {
    hide CompareFrom, IsCommittedReading, InKeys, IsIntentThere;
    if r !in r2 {
      assert IsCut(r2, limit, r.0.key);
      forall q | q in r2 ensures q in r1 {
        assert Lt(q.0.key, r.0.key);
        if IsCut(r1, limit, q.0.key) {
          KeyOrder(q.0.key, r.0.key, q.0.key);
        }
      }
      FewerMembers(r1, r2, ResultKey, r);
    }
  }

  lemma {:induction false} AnswerIsUnique(entries: seq<Entry>, start: Key, end: Key, ts: Timestamp, limit: nat,
      r1: seq<(MVCCKey, Value)>, i1: seq<(TxnIntent, Value)>, r2: seq<(MVCCKey, Value)>, i2: seq<(TxnIntent, Value)>)
    requires IsScanAnswer(entries, start, end, ts, limit, r1, i1)
    requires IsScanAnswer(entries, start, end, ts, limit, r2, i2)
    ensures r1 == r2 && i1 == i2
  {
    forall r ensures r in r1 <==> r in r2 {
      if r in r1 {
        ResultsAreMembers(entries, start, end, ts, limit, r1, i1, r2, i2, r);
      }
      if r in r2 {
        ResultsAreMembers(entries, start, end, ts, limit, r2, i2, r1, i1, r);
      }
    }
    hide CompareFrom, IsCommittedReading, InKeys, IsIntentThere, IsCut;
    SameList(r1, r2, ResultKey);
    SameList(i1, i2, IntentOf);
  }

  // ---------- the readings are an answer ----------

  /** What is pushed comes from the entries taken, in their order. */
  lemma {:induction false} OutputMembers(entries: seq<Entry>, taken: seq<nat>)
    requires Inside(taken, |entries|)
    ensures forall r: (MVCCKey, Value) :: r in Results(entries, taken) <==>
      exists i :: i in taken && entries[i] == Entry(r.0, Version(r.1))
    ensures forall x: (TxnIntent, Value) :: x in Intents(entries, taken) <==>
      exists i :: i in taken && entries[i].key.key == x.0.key && entries[i].stored == Uncommitted(x.1, x.0.txnMeta)
  {
    if taken != [] {
      var n := |taken| - 1;
      var last := entries[taken[n]];
      OutputMembers(entries, taken[..n]);
      assert taken == taken[..n] + [taken[n]];
    }
  }

  predicate KeysAscending(entries: seq<Entry>, taken: seq<nat>)
    requires Inside(taken, |entries|)
  {
    forall i, j :: 0 <= i < j < |taken| ==> Lt(entries[taken[i]].key.key, entries[taken[j]].key.key)
  }

  lemma {:induction false} OutputBelow(entries: seq<Entry>, taken: seq<nat>, key: Key)
    requires Inside(taken, |entries|) && forall i :: i in taken ==> Lt(entries[i].key.key, key)
    ensures forall r :: r in Results(entries, taken) ==> Lt(r.0.key, key)
    ensures forall x :: x in Intents(entries, taken) ==> Lt(x.0.key, key)
  {
    hide Lt;
    if taken != [] {
      var n := |taken| - 1;
      assert taken == taken[..n] + [taken[n]];
      OutputBelow(entries, taken[..n], key);
    }
  }

  lemma {:induction false} OutputAscends(entries: seq<Entry>, taken: seq<nat>)
    requires Inside(taken, |entries|) && KeysAscending(entries, taken)
    ensures AscendingResults(Results(entries, taken)) && AscendingIntents(Intents(entries, taken))
  {
    hide CompareFrom;
    if taken != [] {
      var n := |taken| - 1;
      OutputAscends(entries, taken[..n]);
      OutputBelow(entries, taken[..n], entries[taken[n]].key.key);
    }
  }

  lemma {:induction false} ResultsCons(entries: seq<Entry>, i: nat, rest: seq<nat>)
    requires i < |entries| && Inside(rest, |entries|)
    ensures Inside([i] + rest, |entries|)
    ensures |Results(entries, [i] + rest)| == |Results(entries, rest)| + if entries[i].stored.Version? then 1 else 0
  {
    var all := [i] + rest;
    if rest == [] {
      assert all == [] + [i];
      NothingTaken(entries);
      TakeOne(entries, [], i);
    } else {
      var n := |rest| - 1;
      ResultsCons(entries, i, rest[..n]);
      assert all[..|all| - 1] == [i] + rest[..n] && all[|all| - 1] == rest[n];
    }
  }

  /** The results do not exceed the limit, and when they reach it, nothing follows the last version. */
  ghost predicate FillsUp(entries: seq<Entry>, g: seq<nat>, limit: nat) {
    Inside(g, |entries|) && |Results(entries, g)| <= limit &&
    (|Results(entries, g)| == limit && g != [] ==> entries[g[|g| - 1]].stored.Version?)
  }

  lemma ConsFillsUp(entries: seq<Entry>, i: nat, rest: seq<nat>, limit: nat)
    requires i < |entries| && limit > 0 && Fits(entries[i].key, entries[i].stored)
    requires FillsUp(entries, rest, Remaining(entries[i], limit))
    ensures FillsUp(entries, [i] + rest, limit)
  {
    ResultsCons(entries, i, rest);
    hide Results;
    NothingTaken(entries);
    assert rest != [] ==> ([i] + rest)[|rest|] == rest[|rest| - 1];
  }

  lemma {:induction false} GatheredFillsUp(entries: seq<Entry>, from: nat, start: Key, end: Key, ts: Timestamp,
      limit: nat)
    requires ValidEntries(entries) && from <= |entries|
    ensures FillsUp(entries, Gathered(entries, from, start, end, ts, limit), limit)
    decreases |entries| - from
  {
    hide InRange, IsReading, CompareFrom, Before, FillsUp;
    NothingFillsUp(entries, limit);
    if from < |entries| && limit > 0 {
      if InRange(entries[from], start, end) && IsReading(entries, from, ts) {
        var limit' := Remaining(entries[from], limit);
        GatheredIncreasing(entries, from + 1, start, end, ts, limit');
        GatheredFillsUp(entries, from + 1, start, end, ts, limit');
        ConsFillsUp(entries, from, Gathered(entries, from + 1, start, end, ts, limit'), limit);
      } else {
        GatheredFillsUp(entries, from + 1, start, end, ts, limit);
      }
    }
  }

  lemma NothingFillsUp(entries: seq<Entry>, limit: nat)
    ensures FillsUp(entries, [], limit)
  {
    NothingTaken(entries);
  }

  /** A reading of the range is left out only behind the limit. */
  lemma {:induction false} LeftOut(entries: seq<Entry>, from: nat, start: Key, end: Key, ts: Timestamp, limit: nat,
      i: nat)
    requires ValidEntries(entries) && from <= i < |entries| && InRange(entries[i], start, end)
    requires IsReading(entries, i, ts) && i !in Gathered(entries, from, start, end, ts, limit)
    ensures
      var g := Gathered(entries, from, start, end, ts, limit);
      Inside(g, |entries|) && |Results(entries, g)| == limit && forall j :: j in g ==> j < i
    decreases i - from
  {
    hide InRange, IsReading, CompareFrom, Before, Results;
    NothingTaken(entries);
    if limit > 0 && from < i {
      if InRange(entries[from], start, end) && IsReading(entries, from, ts) {
        var limit' := Remaining(entries[from], limit);
        LeftOut(entries, from + 1, start, end, ts, limit', i);
        ResultsCons(entries, from, Gathered(entries, from + 1, start, end, ts, limit'));
      } else {
        LeftOut(entries, from + 1, start, end, ts, limit, i);
      }
    }
  }

  // ---------- readings and what they are ----------

  /** The readings in the store are the committed readings and the intents. */
  lemma {:induction false} ReadingIsThere(entries: seq<Entry>, i: nat, ts: Timestamp)
    requires ValidEntries(entries) && i < |entries| && IsReading(entries, i, ts)
    ensures
      var e := entries[i];
      match e.stored
      case Version(value) => IsCommittedReading(entries, e.key.key, ts, (e.key, value))
      case Uncommitted(value, metadata) => IsIntentThere(entries, (TxnIntent(metadata, e.key.key), value))
  {
    hide CompareFrom, Before, Visible, IsReading;
    var e := entries[i];
    ReadingIsRight(entries, e.key.key, ts, i);
    LookupFinds(entries, i);
    if e.stored.Uncommitted? {
      assert e.key == IntentKey(e.key.key);
    } else if Lookup(entries, IntentKey(e.key.key)).Some? {
      EntryOf(entries, IntentKey(e.key.key));
    }
  }

  lemma {:induction false} CommittedIsReading(entries: seq<Entry>, ts: Timestamp, r: (MVCCKey, Value)) returns (i: nat)
    requires ValidEntries(entries) && IsCommittedReading(entries, r.0.key, ts, r)
    ensures i < |entries| && entries[i] == Entry(r.0, Version(r.1)) && IsReading(entries, i, ts)
  {
    hide CompareFrom, Before, Visible, IsReading;
    EntryOf(entries, r.0);
    i :| 0 <= i < |entries| && entries[i] == Entry(r.0, Lookup(entries, r.0).value);
    ReadingMeaning(entries, i, ts);
    forall j | 0 <= j < |entries| && entries[j].key.key == r.0.key && entries[j].key.timestamp.Le(ts)
      ensures entries[j].key.timestamp.Le(r.0.timestamp)
    {
      LookupFinds(entries, j);
      assert entries[j].key == MVCCKey(r.0.key, entries[j].key.timestamp);
    }
  }

  lemma {:induction false} IntentIsReading(entries: seq<Entry>, ts: Timestamp, x: (TxnIntent, Value)) returns (i: nat)
    requires ValidEntries(entries) && IsIntentThere(entries, x)
    ensures i < |entries| && IsReading(entries, i, ts)
    ensures entries[i] == Entry(IntentKey(x.0.key), Uncommitted(x.1, x.0.txnMeta))
  {
    hide CompareFrom, Before, Visible, IsReading;
    EntryOf(entries, IntentKey(x.0.key));
    i :| 0 <= i < |entries| && entries[i] == Entry(IntentKey(x.0.key), Lookup(entries, IntentKey(x.0.key)).value);
    ReadingMeaning(entries, i, ts);
  }

  /** No key has two readings. */
  lemma {:induction false} ReadingsAscend(entries: seq<Entry>, i: nat, j: nat, ts: Timestamp)
    requires ValidEntries(entries) && i < j < |entries| && IsReading(entries, i, ts) && IsReading(entries, j, ts)
    ensures Lt(entries[i].key.key, entries[j].key.key)
  {
    hide CompareFrom;
    KeysAscend(entries, i, j);
    KeyOrder(entries[i].key.key, entries[j].key.key, entries[i].key.key);
  }

  lemma {:induction false} GatheredAscends(entries: seq<Entry>, start: Key, end: Key, ts: Timestamp, limit: nat)
    requires ValidEntries(entries)
    ensures
      var g := Gathered(entries, 0, start, end, ts, limit);
      Inside(g, |entries|) && KeysAscending(entries, g)
  {
    hide InRange, IsReading, Gathered, CompareFrom, ValidEntries;
    var g := Gathered(entries, 0, start, end, ts, limit);
    GatheredBounds(entries, 0, start, end, ts, limit);
    GatheredIncreasing(entries, 0, start, end, ts, limit);
    forall i, j | 0 <= i < j < |g| ensures Lt(entries[g[i]].key.key, entries[g[j]].key.key) {
      assert g[i] in g && g[j] in g;
      ReadingsAscend(entries, g[i], g[j], ts);
    }
  }

  /** A scan takes entries of ascending keys, reliable or not. */
  lemma {:induction false} ScanAscends(entries: seq<Entry>, at: nat, end: Key, ts: Timestamp, limit: nat)
    requires ValidEntries(entries) && at <= |entries|
    ensures
      var taken := ScanFrom(entries, at, end, ts, limit);
      Inside(taken, |entries|) && KeysAscending(entries, taken)
    decreases |entries| - at
  {
    hide CompareFrom, Before, Taken;
    ScanIncreasing(entries, at, end, ts, limit);
    if limit > 0 && at < |entries| && !Lt(end, entries[at].key.key) {
      match Taken(entries, at, ts) {
        case Some(i) =>
          var next, limit' := NextKey(entries, i), Remaining(entries[i], limit);
          var rest := ScanFrom(entries, next, end, ts, limit');
          ScanAscends(entries, next, end, ts, limit');
          ScanIncreasing(entries, next, end, ts, limit');
          forall j | 0 <= j < |rest| ensures Lt(entries[i].key.key, entries[rest[j]].key.key) {
            KeysAscend(entries, i, next);
            KeysAscend(entries, next, rest[j]);
            KeyOrder(entries[i].key.key, entries[next].key.key, entries[i].key.key);
            KeyOrder(entries[i].key.key, entries[next].key.key, entries[rest[j]].key.key);
          }
          assert ScanFrom(entries, at, end, ts, limit) == [i] + rest;
        case None =>
          ScanAscends(entries, NextKey(entries, |entries| - 1), end, ts, limit);
      }
    }
  }

  /** Only committed readings and intents of the range are gathered. */
  lemma {:induction false} GatheredIsThere(entries: seq<Entry>, start: Key, end: Key, ts: Timestamp, limit: nat)
    requires ValidEntries(entries)
    ensures
      var g := Gathered(entries, 0, start, end, ts, limit);
      Inside(g, |entries|) &&
      (forall r :: r in Results(entries, g) ==>
        InKeys(r.0.key, start, end) && IsCommittedReading(entries, r.0.key, ts, r)) &&
      forall x :: x in Intents(entries, g) ==> InKeys(x.0.key, start, end) && IsIntentThere(entries, x)
  {
    hide CompareFrom, Before, Visible, IsReading, Gathered, Results, Intents, IsCommittedReading, IsIntentThere;
    hide ValidEntries;
    var g := Gathered(entries, 0, start, end, ts, limit);
    GatheredBounds(entries, 0, start, end, ts, limit);
    GatheredIncreasing(entries, 0, start, end, ts, limit);
    OutputMembers(entries, g);
    forall i | i in g
      ensures
        var e := entries[i];
        InKeys(e.key.key, start, end) &&
        match e.stored
        case Version(value) => IsCommittedReading(entries, e.key.key, ts, (e.key, value))
        case Uncommitted(value, metadata) => IsIntentThere(entries, (TxnIntent(metadata, e.key.key), value))
    {
      ReadingIsThere(entries, i, ts);
    }
  }

  /** No intent behind the limit is gathered. */
  lemma {:induction false} GatheredIsNotCut(entries: seq<Entry>, start: Key, end: Key, ts: Timestamp, limit: nat,
      i: nat)
    requires ValidEntries(entries) && i in Gathered(entries, 0, start, end, ts, limit)
    ensures
      var g := Gathered(entries, 0, start, end, ts, limit);
      Inside(g, |entries|) && !IsCut(Results(entries, g), limit, entries[i].key.key)
  {
    hide CompareFrom, Before, Gathered, Results, ValidEntries;
    var g := Gathered(entries, 0, start, end, ts, limit);
    GatheredIncreasing(entries, 0, start, end, ts, limit);
    GatheredFillsUp(entries, 0, start, end, ts, limit);
    if |Results(entries, g)| == limit {
      var j := g[|g| - 1];
      var k :| 0 <= k < |g| && g[k] == i;
      OutputMembers(entries, g);
      var r := (entries[j].key, entries[j].stored.value);
      assert entries[j] == Entry(r.0, Version(r.1)) && r in Results(entries, g);
      KeysAscend(entries, i, j);
      KeyOrder(entries[i].key.key, entries[j].key.key, entries[i].key.key);
    }
  }

  /** What is not gathered lies behind the limit. */
  lemma {:induction false} LeftOutIsCut(entries: seq<Entry>, start: Key, end: Key, ts: Timestamp, limit: nat, i: nat)
    requires ValidEntries(entries) && i < |entries| && InRange(entries[i], start, end) && IsReading(entries, i, ts)
    requires i !in Gathered(entries, 0, start, end, ts, limit)
    ensures
      var g := Gathered(entries, 0, start, end, ts, limit);
      Inside(g, |entries|) && IsCut(Results(entries, g), limit, entries[i].key.key)
  {
    hide CompareFrom, Before, Gathered, Results, ValidEntries, IsReading, InRange;
    var g := Gathered(entries, 0, start, end, ts, limit);
    GatheredIncreasing(entries, 0, start, end, ts, limit);
    GatheredBounds(entries, 0, start, end, ts, limit);
    LeftOut(entries, 0, start, end, ts, limit, i);
    OutputMembers(entries, g);
    forall r | r in Results(entries, g) ensures Lt(r.0.key, entries[i].key.key) {
      var j :| j in g && entries[j] == Entry(r.0, Version(r.1));
      ReadingsAscend(entries, j, i, ts);
    }
  }

  /** The readings of the range up to the limit are an answer, and so the only one. */
  lemma {:induction false} GatheredIsAnswer(entries: seq<Entry>, start: Key, end: Key, ts: Timestamp, limit: nat)
    requires ValidEntries(entries)
    ensures
      var g := Gathered(entries, 0, start, end, ts, limit);
      Inside(g, |entries|) && IsScanAnswer(entries, start, end, ts, limit, Results(entries, g), Intents(entries, g))
  {
    hide CompareFrom, Before, Gathered, Results, Intents, ValidEntries, IsReading, IsCommittedReading, IsIntentThere;
    hide IsCut;
    var g := Gathered(entries, 0, start, end, ts, limit);
    GatheredAscends(entries, start, end, ts, limit);
    OutputAscends(entries, g);
    GatheredFillsUp(entries, 0, start, end, ts, limit);
    GatheredIsThere(entries, start, end, ts, limit);
    OutputMembers(entries, g);
    var results, intents := Results(entries, g), Intents(entries, g);
    forall x | x in intents ensures !IsCut(results, limit, x.0.key) {
      var i :| i in g && entries[i].key.key == x.0.key && entries[i].stored == Uncommitted(x.1, x.0.txnMeta);
      GatheredIsNotCut(entries, start, end, ts, limit, i);
    }
    forall r: (MVCCKey, Value) | InKeys(r.0.key, start, end) && IsCommittedReading(entries, r.0.key, ts, r)
      ensures r in results || IsCut(results, limit, r.0.key)
    {
      var i := CommittedIsReading(entries, ts, r);
      if i !in g {
        LeftOutIsCut(entries, start, end, ts, limit, i);
      }
    }
    forall x: (TxnIntent, Value) | InKeys(x.0.key, start, end) && IsIntentThere(entries, x)
      ensures x in intents || IsCut(results, limit, x.0.key)
    {
      var i := IntentIsReading(entries, ts, x);
      if i !in g {
        LeftOutIsCut(entries, start, end, ts, limit, i);
      }
    }
  }

  /** What a scan returns ascends, and is the answer if and only if the scan is reliable. */
  lemma {:induction false} ScanAnswersIff(entries: seq<Entry>, start: Key, end: Key, ts: Timestamp, limit: nat)
    requires ValidEntries(entries)
    ensures
      var taken := Scan(entries, start, end, ts, limit);
      Inside(taken, |entries|) &&
      var results, intents := Results(entries, taken), Intents(entries, taken);
      AscendingResults(results) && AscendingIntents(intents) &&
      (IsScanAnswer(entries, start, end, ts, limit, results, intents) <==> IsReliable(entries, start, end, ts, limit))
  {
    hide CompareFrom, Gathered, ScanFrom, Results, Intents, ValidEntries, IsScanAnswer, IsReliable;
    var taken, g := Scan(entries, start, end, ts, limit), Gathered(entries, 0, start, end, ts, limit);
    ScanAscends(entries, SeekFrom(entries, 0, IntentKey(start)), end, ts, limit);
    OutputAscends(entries, taken);
    ScanReturnsReadingsIff(entries, start, end, ts, limit);
    GatheredIsAnswer(entries, start, end, ts, limit);
    if IsScanAnswer(entries, start, end, ts, limit, Results(entries, taken), Intents(entries, taken)) {
      AnswerIsUnique(entries, start, end, ts, limit, Results(entries, taken), Intents(entries, taken),
                     Results(entries, g), Intents(entries, g));
    }
  }
}

/** How many latches the latch manager's tree can hold: runs in which it fails with five of them, and
    none with fewer. */
module LatchFives {
  import opened Keys
  import opened LatchTrees
  import opened LatchLines
  import opened LatchRows
  import opened LatchDeletes
  import opened LatchTreeDeletes
  import opened LatchManagers
  import opened LatchLimits

  function K(n: Byte): Key {
    [n]
  }

  /** A leaf whose ranges are single keys. */
  function L(keys: seq<Key>): Tree {
    Leaf(keys, keys)
  }

  function R(n: Byte): Range {
    Range(K(n), K(n))
  }

  // The tree after 0, 1, 2, 3 and 4 have been latched in this order.
  const ONE := L([K(0)])
  const TWO := L([K(0), K(1)])
  const THREE := Inner([K(1)], [L([K(0)]), L([K(1), K(2)])])
  const FOUR := Inner([K(1), K(2)], [L([K(0)]), L([K(1)]), L([K(2), K(3)])])
  const LOWER := Inner([K(1)], [L([K(0)]), L([K(1)])])
  const UPPER := Inner([K(3)], [L([K(2)]), L([K(3), K(4)])])
  const FIVE := Inner([K(2)], [LOWER, UPPER])

  /** The release of 3 has written 4 into the root, to the left of 2. */
  const ASTRAY := Inner([K(4)], [LOWER, Inner([K(3)], [L([K(2)]), L([K(4)])])])

  /** The same after a second request has latched 2. */
  const DOUBLE := Inner([K(4)], [Inner([K(1)], [L([K(0)]), L([K(1), K(2)])]), Inner([K(3)], [L([K(2)]), L([K(4)])])])

  /** Instead of that, 4 is released and latched again. */
  const MERGED := Inner([K(1), K(4)], [L([K(0)]), L([K(1)]), L([K(2)])])
  const DEAD_END := Inner([K(1), K(4)], [L([K(0)]), L([K(1)]), L([K(2), K(4)])])

  lemma OneByte(a: Byte, b: Byte)
    ensures Lt(K(a), K(b)) <==> a < b
    ensures K(a) == K(b) <==> a == b
  {
    assert K(a)[0] == a && K(b)[0] == b;
    assert CompareFrom(K(a), K(b), 1) == Equal;
  }

  lemma AmongOne(a: Byte, n: Byte)
    ensures Position([K(a)], K(n)) == if n < a then 0 else 1
    ensures K(n) in [K(a)] <==> n == a
  {
    OneByte(n, a);
    PositionUnique([K(a)], K(n), if n < a then 0 else 1);
  }

  lemma AmongTwo(a: Byte, b: Byte, n: Byte)
    requires a < b
    ensures Position([K(a), K(b)], K(n)) == if n < a then 0 else if n < b then 1 else 2
    ensures K(n) in [K(a), K(b)] <==> n == a || n == b
  {
    OneByte(n, a);
    OneByte(n, b);
    PositionUnique([K(a), K(b)], K(n), if n < a then 0 else if n < b then 1 else 2);
  }

  // ---------- insertions ----------

  lemma LeafGrows(a: Byte, b: Byte)
    requires a < b
    ensures TreeInsert(L([K(a)]), R(b), ORDER) == Inserted(true, L([K(a), K(b)]), None)
  {
    AmongOne(a, b);
    assert InsertAt([K(a)], 1, K(b)) == [K(a), K(b)];
  }

  lemma LeafSplits(a: Byte, b: Byte, c: Byte)
    requires a < b < c
    ensures TreeInsert(L([K(a), K(b)]), R(c), ORDER) == Inserted(true, L([K(a)]), Some((K(b), L([K(b), K(c)]))))
  {
    AmongTwo(a, b, c);
    var s := [K(a), K(b), K(c)];
    assert InsertAt([K(a), K(b)], 2, K(c)) == s;
    assert s[..1] == [K(a)] && s[1..] == [K(b), K(c)];
  }

  lemma InsertOne()
    ensures TreeInsert(Leaf([], []), R(0), ORDER) == Inserted(true, ONE, None)
  {
    assert InsertAt([], 0, K(0)) == [K(0)];
  }

  lemma InsertFour()
    ensures Shaped(THREE) && TreeInsert(THREE, R(3), ORDER) == Inserted(true, FOUR, None)
  {
    hide Lt, Position;
    AmongOne(1, 3);
    LeafSplits(1, 2, 3);
    AmongOne(1, 2);
    assert InsertAt([K(1)], 1, K(2)) == FOUR.keys;
    assert InsertAt(THREE.kids[1 := L([K(1)])], 2, L([K(2), K(3)])) == FOUR.kids;
  }

  lemma InsertFive()
    ensures Shaped(FOUR) && TreeInsert(FOUR, R(4), ORDER) == Inserted(true, LOWER, Some((K(2), UPPER)))
  {
    hide Lt, Position;
    AmongTwo(1, 2, 4);
    LeafSplits(2, 3, 4);
    AmongTwo(1, 2, 3);
    var keys, kids := [K(1), K(2), K(3)], [L([K(0)]), L([K(1)]), L([K(2)]), L([K(3), K(4)])];
    assert InsertAt([K(1), K(2)], 2, K(3)) == keys;
    assert InsertAt(FOUR.kids[2 := L([K(2)])], 3, L([K(3), K(4)])) == kids;
    assert keys[..1] == LOWER.keys && keys[2..] == UPPER.keys;
    assert kids[..2] == LOWER.kids && kids[2..] == UPPER.kids;
  }

  lemma InsertDouble()
    ensures Shaped(ASTRAY) && TreeInsert(ASTRAY, R(2), ORDER) == Inserted(true, DOUBLE, None)
  {
    hide Lt, Position;
    AmongOne(4, 2);
    AmongOne(1, 2);
    LeafGrows(1, 2);
    var lower := DOUBLE.kids[0];
    assert LOWER.kids[1 := L([K(1), K(2)])] == lower.kids;
    assert TreeInsert(LOWER, R(2), ORDER) == Inserted(true, lower, None);
    assert ASTRAY.kids[0 := lower] == DOUBLE.kids;
  }

  lemma InsertDeadEnd()
    ensures Shaped(MERGED) && TreeInsert(MERGED, R(4), ORDER) == Inserted(true, DEAD_END, None)
  {
    hide Lt, Position;
    AmongTwo(1, 4, 4);
    LeafGrows(2, 4);
    assert MERGED.kids[2 := L([K(2), K(4)])] == DEAD_END.kids;
  }

  // ---------- deletions ----------

  lemma LeafShrinks(a: Byte, b: Byte)
    requires a < b
    ensures LeafWithout(L([K(a), K(b)]), K(a)) == L([K(b)]) && LeafWithout(L([K(a), K(b)]), K(b)) == L([K(a)])
  {
    AmongTwo(a, b, a);
    AmongTwo(a, b, b);
    OneByte(a, b);
    assert IndexOf([K(a), K(b)], K(b)) == 1;
    assert RemoveAt([K(a), K(b)], 0) == [K(b)] && RemoveAt([K(a), K(b)], 1) == [K(a)];
  }

  /** Deleting the only key of a right leaf whose left neighbour has no key to spare. */
  lemma LeavesJoin(sep: Byte, a: Byte, b: Byte)
    ensures
      var t := Inner([K(sep)], [L([K(a)]), L([K(b)])]);
      Shaped(t) && DeleteFromLeaf(t, 1, K(b), ORDER) == Done(Inner([], [L([K(a)])]), None)
  {
    hide Lt, Position;
    var t := Inner([K(sep)], [L([K(a)]), L([K(b)])]);
    assert RemoveAt([K(b)], 0) == [];
    assert LeafWithout(L([K(b)]), K(b)) == L([]);
    var p := WithKid(t, 1, L([]));
    assert p == Inner([K(sep)], [L([K(a)]), L([])]);
    assert [K(a)] + [] == [K(a)];
    assert RemoveAt([K(sep)], 0) == [] && RemoveAt(p.kids, 1)[0 := L([K(a)])] == [L([K(a)])];
  }

  /** With five latches the release of 1 waits for itself. */
  lemma DeleteHangs()
    ensures Shaped(FIVE) && TreeDelete(FIVE, K(1), ORDER).Hangs?
  {
    hide Lt, Position, DeleteFromLeaf;
    AmongOne(2, 1);
    AmongOne(1, 1);
    OneByte(1, 2);
    LeavesJoin(1, 0, 1);
    assert DeleteUnder(LOWER, 1, K(1), ORDER, false) == Done(Inner([], [L([K(0)])]), None);
    assert DeleteUnder(FIVE, 0, K(1), ORDER, true).Hangs?;
  }

  lemma DeleteThreeBelow(upper: Tree)
    requires upper == Inner([K(3)], [L([K(2)]), L([K(4)])])
    ensures DeleteUnder(UPPER, 1, K(3), ORDER, false) == Done(upper, Some(K(4)))
  {
    hide Lt, Position;
    AmongOne(3, 3);
    AmongOne(4, 3);
    LeafShrinks(3, 4);
    assert WithKid(UPPER, 1, L([K(4)])) == upper;
    assert DeleteFromLeaf(UPPER, 1, K(3), ORDER) == Done(upper, Some(K(4)));
  }

  lemma DeleteThree()
    ensures Shaped(FIVE) && TreeDelete(FIVE, K(3), ORDER) == Done(ASTRAY, Some(K(4)))
  {
    hide Lt, Position, DeleteFromLeaf;
    AmongOne(2, 3);
    AmongOne(3, 3);
    OneByte(2, 3);
    var upper := Inner([K(3)], [L([K(2)]), L([K(4)])]);
    DeleteThreeBelow(upper);
    assert Inner([K(2)][0 := K(4)], FIVE.kids[1 := upper]) == ASTRAY;
    assert BackUp(WithKid(FIVE, 1, upper), 1, 1, 0, Some(K(4)), ORDER) == Done(ASTRAY, Some(K(4)));
    assert DeleteUnder(FIVE, 1, K(3), ORDER, true) == Done(ASTRAY, Some(K(4)));
  }

  lemma DeleteFour()
    ensures Shaped(ASTRAY) && TreeDelete(ASTRAY, K(4), ORDER) == Done(MERGED, None)
  {
    hide Lt, Position, DeleteFromLeaf;
    AmongOne(4, 4);
    AmongOne(3, 4);
    OneByte(3, 4);
    LeavesJoin(3, 2, 4);
    var rest := Inner([], [L([K(2)])]);
    assert DeleteUnder(ASTRAY.kids[1], 1, K(4), ORDER, false) == Done(rest, None);
    var p := WithKid(ASTRAY, 1, rest);
    assert [K(1)] + [K(4)] + [] == MERGED.keys && LOWER.kids + rest.kids == MERGED.kids;
    assert RemoveAt([K(4)], 0) == [] && RemoveAt([MERGED, Inner([], [])], 1) == [MERGED];
    assert p.kids[0 := MERGED][1 := Inner([], [])] == [MERGED, Inner([], [])];
    assert MergeEdges(p, 1, 1) == Done(Inner([], [MERGED]), None);
    assert BackUp(p, 1, 1, 0, None, ORDER) == Done(Inner([], [MERGED]), None);
    assert DeleteUnder(ASTRAY, 1, K(4), ORDER, false) == Done(Inner([], [MERGED]), None);
  }

  /** The largest key of the last leaf is deleted with its parent passed on, as the separator equals
      it, and the next larger key is looked for next door. */
  lemma DeletePanics()
    ensures Shaped(DEAD_END) && TreeDelete(DEAD_END, K(4), ORDER).Panics?
  {
    hide Lt, Position;
    AmongTwo(1, 4, 4);
    AmongTwo(2, 4, 4);
    AmongOne(2, 4);
    LeafShrinks(2, 4);
    assert NextLarger(WithKid(DEAD_END, 2, L([K(2)])), 2, K(4)) == None;
    assert DeleteFromLeaf(DEAD_END, 2, K(4), ORDER).Panics?;
    assert DeleteUnder(DEAD_END, 2, K(4), ORDER, false).Panics?;
  }

  // ---------- runs ----------

  lemma {:induction false} GoOn(s: TreeState, a: Action, m: nat)
    requires Reaches(s, m) && IsDue(s, a) && Succeeds(s, a) && Count(TreeStep(s, a).tree) <= m
    ensures Reaches(TreeStep(s, a), m)
  {
    hide TreeStep, Count, IsDue, Succeeds;
    var states: seq<TreeState>, actions: seq<Action> :|
      IsTreeRun(states, actions) && IsSmall(states, m) && states[|actions|] == s;
    var states', actions' := states + [TreeStep(s, a)], actions + [a];
    forall i | 0 <= i < |actions'|
      ensures IsDue(states'[i], actions'[i]) && Succeeds(states'[i], actions'[i]) &&
        states'[i + 1] == TreeStep(states'[i], actions'[i])
    {
      assert i < |actions| ==> states'[i + 1] == states[i + 1] && actions'[i] == actions[i];
    }
    assert IsTreeRun(states', actions') && IsSmall(states', m) && states'[|actions'|] == TreeStep(s, a);
  }

  lemma ReachedIsSmall(s: TreeState, m: nat)
    requires Reaches(s, m)
    ensures Count(s.tree) <= m
  {
    hide Count, TreeStep;
  }

  lemma {:induction false} AcquiredIsNoRefusal(t: Tree, r: Range)
    requires Shaped(t) && TreeInsert(t, r, ORDER).acquired
    ensures !RefusalPanics(t, r.startKey)
  {
    if t.Inner? {
      AcquiredIsNoRefusal(t.kids[Position(t.keys, r.startKey)], r);
    }
  }

  /** A new request for one key arrives, acquires its latch and returns. */
  lemma {:induction false} Acquires(s: TreeState, id: RequestId, n: Byte, t': Tree, m: nat)
    requires Reaches(s, m) && id !in s.requests && Shaped(s.tree) && Count(s.tree) < m
    requires
      var ins := TreeInsert(s.tree, R(n), ORDER);
      ins.acquired && NewRoot(ins) == t'
    ensures Count(t') == Count(s.tree) + 1
    ensures Reaches(TreeState(t', s.requests[id := Request([K(n)], Holding)]), m)
  {
    hide Count, Reaches, TreeInsert, K;
    InsertCounts(s.tree, R(n), ORDER);
    RootCount(TreeInsert(s.tree, R(n), ORDER));
    AcquiredIsNoRefusal(s.tree, R(n));
    var s1 := TreeState(s.tree, s.requests[id := Request([K(n)], Acquiring(0))]);
    var s2 := TreeState(t', s.requests[id := Request([K(n)], Acquiring(1))]);
    var s3 := TreeState(t', s.requests[id := Request([K(n)], Holding)]);
    assert TreeStep(s, Arrive(id, [K(n)])) == s1;
    GoOn(s, Arrive(id, [K(n)]), m);
    assert TreeStep(s1, Insert(id)).requests == s2.requests;
    assert TreeStep(s1, Insert(id)) == s2;
    GoOn(s1, Insert(id), m);
    assert TreeStep(s2, Return(id)).requests == s3.requests;
    GoOn(s2, Return(id), m);
  }

  /** The guard of a request is given back, and the deletion of its key is due. */
  lemma {:induction false} GivesBack(s: TreeState, id: RequestId, n: Byte, m: nat)
    requires Reaches(s, m) && id in s.requests && s.requests[id] == Request([K(n)], Holding)
    ensures
      var s' := TreeState(s.tree, s.requests[id := Request([K(n)], Releasing(0))]);
      Reaches(s', m) && IsDue(s', Delete(id)) && KeyOf(s', Delete(id)) == K(n)
  {
    hide Count, Reaches, K;
    ReachedIsSmall(s, m);
    var s' := TreeState(s.tree, s.requests[id := Request([K(n)], Releasing(0))]);
    assert TreeStep(s, Release(id)).requests == s'.requests;
    GoOn(s, Release(id), m);
  }

  lemma {:induction false} Releases(s: TreeState, id: RequestId, n: Byte, t': Tree, m: nat)
    requires Reaches(s, m) && id in s.requests && s.requests[id] == Request([K(n)], Holding)
    requires Shaped(s.tree) && Count(t') <= m
    requires
      var r := TreeDelete(s.tree, K(n), ORDER);
      r.Done? && r.tree == t'
    ensures Reaches(TreeState(t', s.requests[id := Request([K(n)], Releasing(1))]), m)
  {
    hide Count, Reaches, TreeDelete, K;
    GivesBack(s, id, n, m);
    var s' := TreeState(s.tree, s.requests[id := Request([K(n)], Releasing(0))]);
    var s'' := TreeState(t', s.requests[id := Request([K(n)], Releasing(1))]);
    assert TreeStep(s', Delete(id)).requests == s''.requests;
    GoOn(s', Delete(id), m);
  }

  function Guard(n: Byte): Request {
    Request([K(n)], Holding)
  }

  const BOTH: map<RequestId, Request> := map[0 := Guard(0), 1 := Guard(1)]
  const ALL: map<RequestId, Request> := BOTH[2 := Guard(2)][3 := Guard(3)][4 := Guard(4)]

  lemma StartReached(m: nat)
    ensures Reaches(START, m)
  {
    assert IsTreeRun([START], []) && IsSmall([START], m) && [START][0] == START;
  }

  lemma {:induction false} TwoReached(m: nat)
    requires m >= 2
    ensures Reaches(TreeState(TWO, BOTH), m) && Count(TWO) == 2
  {
    hide Reaches, TreeInsert;
    StartReached(m);
    InsertOne();
    Acquires(START, 0, 0, ONE, m);
    LeafGrows(0, 1);
    Acquires(TreeState(ONE, map[0 := Guard(0)]), 1, 1, TWO, m);
    assert map[0 := Guard(0)][1 := Guard(1)] == BOTH;
  }

  lemma {:induction false} FiveReached(m: nat)
    requires m >= 5
    ensures Reaches(TreeState(FIVE, ALL), m) && Count(FIVE) == 5
  {
    hide Reaches, TreeInsert;
    TwoReached(m);
    LeafSplits(0, 1, 2);
    Acquires(TreeState(TWO, BOTH), 2, 2, THREE, m);
    InsertFour();
    var three := BOTH[2 := Guard(2)];
    Acquires(TreeState(THREE, three), 3, 3, FOUR, m);
    InsertFive();
    var four := three[3 := Guard(3)];
    Acquires(TreeState(FOUR, four), 4, 4, FIVE, m);
  }

  lemma {:induction false} AstrayReached(m: nat)
    requires m >= 5
    ensures Reaches(TreeState(ASTRAY, ALL[3 := Request([K(3)], Releasing(1))]), m) && Count(ASTRAY) == 4
  {
    hide Reaches, TreeDelete;
    FiveReached(m);
    DeleteThree();
    PairCount(ASTRAY.keys, ASTRAY.kids[0], ASTRAY.kids[1]);
    PairCount([K(1)], L([K(0)]), L([K(1)]));
    PairCount([K(3)], L([K(2)]), L([K(4)]));
    Releases(TreeState(FIVE, ALL), 3, 3, ASTRAY, m);
  }

  lemma PairCount(keys: seq<Key>, a: Tree, b: Tree)
    ensures Count(Inner(keys, [a, b])) == Count(a) + Count(b)
  {
    assert [a, b] == [a] + [b];
    KidCountConcat([a], [b]);
  }

  // ---------- the verdicts ----------

  lemma {:induction false} FiveHang(m: nat)
    requires m >= 5
    ensures CanHang(m)
  {
    hide Reaches, TreeDelete;
    FiveReached(m);
    DeleteHangs();
    GivesBack(TreeState(FIVE, ALL), 1, 1, m);
  }

  /** One request holds 2 while another acquires it. */
  lemma {:induction false} FiveShare(m: nat)
    requires m >= 5
    ensures CanShare(m)
  {
    hide Reaches, TreeInsert;
    AstrayReached(m);
    InsertDouble();
    var requests := ALL[3 := Request([K(3)], Releasing(1))];
    Acquires(TreeState(ASTRAY, requests), 5, 2, DOUBLE, m);
    var s := TreeState(DOUBLE, requests[5 := Guard(2)]);
    assert s.requests[2] == Guard(2) && K(2) in s.requests[2].spans && K(2) in s.requests[5].spans;
  }

  lemma {:induction false} FivePanic(m: nat)
    requires m >= 5
    ensures CanPanic(m)
  {
    hide Reaches, TreeInsert, TreeDelete;
    AstrayReached(m);
    DeleteFour();
    var requests := ALL[3 := Request([K(3)], Releasing(1))];
    Releases(TreeState(ASTRAY, requests), 4, 4, MERGED, m);
    InsertDeadEnd();
    var requests' := requests[4 := Request([K(4)], Releasing(1))];
    Acquires(TreeState(MERGED, requests'), 5, 4, DEAD_END, m);
    DeletePanics();
    GivesBack(TreeState(DEAD_END, requests'[5 := Guard(4)]), 5, 4, m);
  }

  lemma {:induction false} TwoCrash(m: nat)
    requires m >= 2
    ensures CanCrashOnRefusal(m)
  {
    hide Reaches;
    TwoReached(m);
    var s := TreeState(TWO, BOTH);
    var s' := TreeState(TWO, BOTH[2 := Request([K(1)], Acquiring(0))]);
    assert TreeStep(s, Arrive(2, [K(1)])).requests == s'.requests;
    GoOn(s, Arrive(2, [K(1)]), m);
    assert RefusalPanics(TWO, K(1));
    assert IsDue(s', Insert(2)) && KeyOf(s', Insert(2)) == K(1);
  }

  lemma {:induction false} RefusalNeedsTwo(t: Tree, key: Key)
    requires Shaped(t) && RefusalPanics(t, key)
    ensures Count(t) >= 2
  {
    if t.Inner? {
      var i := Position(t.keys, key);
      RefusalNeedsTwo(t.kids[i], key);
      InnerCount(t);
      KidCountAround(t.kids, i);
    }
  }

  lemma ReachesWithMore(s: TreeState, m: nat, n: nat)
    requires Reaches(s, m) && m <= n
    ensures Reaches(s, n)
  {
    hide Count, TreeStep;
    var states: seq<TreeState>, actions: seq<Action> :|
      IsTreeRun(states, actions) && IsSmall(states, m) && states[|actions|] == s;
    assert IsSmall(states, n);
  }

  /** A set never lets two guards share a key. */
  lemma {:induction false} SetsDoNotShare(m: nat)
    requires ActsAsSet(m)
    ensures !CanShare(m)
  {
    hide Disjoint, View, TreeStep, Step, Count;
    if CanShare(m) {
      var s: TreeState, id: RequestId, id': RequestId :|
        Reaches(s, m) && id in s.requests && id' in s.requests && id != id' &&
        s.requests[id].phase.Holding? && s.requests[id'].phase.Holding? &&
        !Disjoint(s.requests[id].spans, s.requests[id'].spans);
      var states: seq<TreeState>, actions: seq<Action> :|
        IsTreeRun(states, actions) && IsSmall(states, m) && states[|actions|] == s;
      ViewRequests(s);
      MutualExclusion(Views(states), actions, |actions|, id, id');
    }
  }

  lemma ViewRequests(s: TreeState)
    ensures View(s).requests == s.requests
  {
  }

  lemma {:induction false} FewerActAsSet(m: nat)
    requires m <= 4
    ensures ActsAsSet(m) && !CanHang(m) && !CanPanic(m)
  {
    hide TreeStep, Step, Views, Count, IsTreeRun, IsRun, TreeDelete, Reaches, IsLow;
    FourActAsSet();
    forall states: seq<TreeState>, actions: seq<Action> | IsTreeRun(states, actions) && IsSmall(states, m)
      ensures IsRun(Views(states), actions) && forall i :: 0 <= i < |states| ==> Shaped(states[i].tree)
    {
      assert IsSmall(states, 4);
    }
    forall s: TreeState, a: Action | Reaches(s, m) && IsDue(s, a) && a.Delete? && Shaped(s.tree)
      ensures TreeDelete(s.tree, KeyOf(s, a), ORDER).Done?
    {
      ReachesWithMore(s, m, 4);
      ReachedIsLow(s);
      LowDelete(s.tree, KeyOf(s, a));
    }
  }

  /** The latch manager does what a manager over a set of keys does as long as it holds at most four
      latches; with five a release can hang or panic, and two guards can share a key. A refused
      request can panic from two latches on. */
  lemma {:induction false} HowManyLatches(m: nat)
    ensures ActsAsSet(m) <==> m <= 4
    ensures CanShare(m) <==> m >= 5
    ensures CanHang(m) <==> m >= 5
    ensures CanPanic(m) <==> m >= 5
    ensures CanCrashOnRefusal(m) <==> m >= 2
  {
    hide ActsAsSet, CanShare, CanHang, CanPanic;
    if ActsAsSet(m) {
      SetsDoNotShare(m);
    }
    if m <= 4 {
      FewerActAsSet(m);
    } else {
      FiveShare(m);
      FiveHang(m);
      FivePanic(m);
    }
    if m >= 2 {
      TwoCrash(m);
    } else {
      NoCrashAlone(m);
    }
  }

  lemma {:induction false} NoCrashAlone(m: nat)
    requires m < 2
    ensures !CanCrashOnRefusal(m)
  {
    hide Reaches, RefusalPanics, Shaped, Count;
    forall s: TreeState, a: Action | Reaches(s, m) && IsDue(s, a) && a.Insert? && Shaped(s.tree)
      ensures !RefusalPanics(s.tree, KeyOf(s, a))
    {
      ReachedIsSmall(s, m);
      if RefusalPanics(s.tree, KeyOf(s, a)) {
        RefusalNeedsTwo(s.tree, KeyOf(s, a));
      }
    }
  }
}

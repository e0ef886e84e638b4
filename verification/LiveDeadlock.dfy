/** Deadlock detection when transactions are finalized: which detections are cycles of pushes that
    all wait at that moment. */
module LiveDeadlocks {
  import opened Txns
  import opened TxnWaitQueues

  // ---------- waiting right now ----------

  ghost predicate LiveEdge(s: State, a: TxnId, b: TxnId) {
    exists id :: 0 <= id < |s.pushes| && Waiting(s, id) && s.pushes[id].pusher == a && s.pushes[id].pushee == b
  }

  ghost predicate LivePath(s: State, path: seq<TxnId>) {
    |path| >= 2 && forall i :: 0 <= i < |path| - 1 ==> LiveEdge(s, path[i], path[i + 1])
  }

  ghost predicate LiveReaches(s: State, a: TxnId, b: TxnId) {
    exists path :: LivePath(s, path) && path[0] == a && path[|path| - 1] == b
  }

  ghost predicate LeadsTo(s: State, a: TxnId, b: TxnId) {
    a == b || LiveReaches(s, a, b)
  }

  /** Some waiting push is one of the transaction. */
  ghost predicate IsWaiting(s: State, txn: TxnId) {
    exists id :: 0 <= id < |s.pushes| && Waiting(s, id) && s.pushes[id].pusher == txn
  }

  /** All that a waiting push has recorded leads to its pushee along pushes that wait now. */
  ghost predicate LiveSound(s: State) {
    forall id, d :: 0 <= id < |s.pushes| && Waiting(s, id) && d in s.pushes[id].dependents ==>
      LeadsTo(s, d, s.pushes[id].pushee)
  }

  /** A waiting push takes itself for part of a deadlock, and is not. */
  ghost predicate DetectsFalsely(s: State, id: PushId)
    requires id < |s.pushes|
  {
    Waiting(s, id) && Detects(s, id) && !LiveReaches(s, s.pushes[id].pushee, s.pushes[id].pusher)
  }

  lemma LiveEdgeReaches(s: State, a: TxnId, b: TxnId)
    requires LiveEdge(s, a, b)
    ensures LiveReaches(s, a, b)
  {
    assert LivePath(s, [a, b]) && [a, b][0] == a && [a, b][1] == b;
  }

  lemma LeadsFurther(s: State, a: TxnId, b: TxnId, c: TxnId)
    requires LeadsTo(s, a, b) && LiveEdge(s, b, c)
    ensures LiveReaches(s, a, c)
  {
    hide LiveEdge;
    if a == b {
      LiveEdgeReaches(s, a, c);
    } else {
      var path :| LivePath(s, path) && path[0] == a && path[|path| - 1] == b;
      var path' := path + [c];
      forall i | 0 <= i < |path'| - 1 ensures LiveEdge(s, path'[i], path'[i + 1]) {
        assert i < |path| - 1 ==> path'[i] == path[i] && path'[i + 1] == path[i + 1];
      }
      assert LivePath(s, path');
    }
  }

  lemma SameReaches(s: State, s': State, a: TxnId, b: TxnId)
    requires LiveReaches(s, a, b) && forall x, y :: LiveEdge(s, x, y) ==> LiveEdge(s', x, y)
    ensures LiveReaches(s', a, b)
  {
    hide LiveEdge;
    var path :| LivePath(s, path) && path[0] == a && path[|path| - 1] == b;
    assert LivePath(s', path);
  }

  // ---------- sound detection ----------

  lemma ListedIsWaiting(s: State, txn: TxnId, id: PushId)
    requires Sound(s) && txn in s.pushees && id in s.pushees[txn]
    ensures id < |s.pushes| && s.pushes[id].pushee == txn && Waiting(s, id)
  {
    var k :| 0 <= k < |s.pushees[txn]| && s.pushees[txn][k] == id;
    assert s.pushees[txn][k] < |s.pushes|;
  }

  /** What a query reports leads to the transaction asked about. */
  lemma QueryIsLive(s: State, txn: TxnId)
    requires Sound(s) && LiveSound(s)
    ensures forall d :: d in TransitiveDependents(s, txn) ==> LeadsTo(s, d, txn)
  {
    hide Sound;
    forall d | d in TransitiveDependents(s, txn) ensures LeadsTo(s, d, txn) {
      DependentsOfMembers(s.pushes, s.pushees[txn]);
      var id :| id in s.pushees[txn] && id < |s.pushes| && (d == s.pushes[id].pusher || d in s.pushes[id].dependents);
      ListedIsWaiting(s, txn, id);
      if d == s.pushes[id].pusher {
        LiveEdgeReaches(s, d, txn);
      }
    }
  }

  lemma NoFalseDetection(s: State, id: PushId)
    requires Sound(s) && LiveSound(s) && id < |s.pushes|
    ensures !DetectsFalsely(s, id)
  {
    hide Sound, LiveReaches, TransitiveDependents;
    QueryIsLive(s, s.pushes[id].pusher);
    if Waiting(s, id) && s.pushes[id].pushee == s.pushes[id].pusher {
      LiveEdgeReaches(s, s.pushes[id].pusher, s.pushes[id].pushee);
    }
  }

  lemma PushLiveSound(s: State, pusher: TxnId, pushee: TxnId)
    requires Sound(s) && LiveSound(s)
    ensures LiveSound(Enqueue(s, pusher, pushee))
  {
    hide Sound, LiveReaches;
    var s' := Enqueue(s, pusher, pushee);
    WaitingAfterPush(s, pusher, pushee);
    forall id, d | 0 <= id < |s'.pushes| && Waiting(s', id) && d in s'.pushes[id].dependents
      ensures LeadsTo(s', d, s'.pushes[id].pushee)
    {
      assert id < |s.pushes| && Waiting(s, id);
      if d != s.pushes[id].pushee {
        SameReaches(s, s', d, s.pushes[id].pushee);
      }
    }
  }

  lemma WaitingAfterPush(s: State, pusher: TxnId, pushee: TxnId)
    ensures
      var s' := Enqueue(s, pusher, pushee);
      (forall id :: 0 <= id < |s.pushes| ==> (Waiting(s', id) <==> Waiting(s, id))) &&
      Waiting(s', |s.pushes|) && forall x, y :: LiveEdge(s, x, y) ==> LiveEdge(s', x, y)
  {
    var s' := Enqueue(s, pusher, pushee);
    forall id | 0 <= id < |s.pushes| ensures Waiting(s', id) <==> Waiting(s, id) {
    }
    forall x, y | LiveEdge(s, x, y) ensures LiveEdge(s', x, y) {
      var id :| 0 <= id < |s.pushes| && Waiting(s, id) && s.pushes[id].pusher == x && s.pushes[id].pushee == y;
      assert Waiting(s', id);
    }
  }

  lemma {:induction false} AskLiveSound(s: State, id: PushId)
    requires Sound(s) && LiveSound(s) && id < |s.pushes|
    ensures LiveSound(Query(s, id))
  {
    hide Sound, LiveReaches, TransitiveDependents;
    var s' := Query(s, id);
    QueryIsLive(s, s.pushes[id].pusher);
    forall i | 0 <= i < |s.pushes| ensures Waiting(s', i) <==> Waiting(s, i) {
    }
    forall x, y | LiveEdge(s, x, y) ensures LiveEdge(s', x, y) {
      var i :| 0 <= i < |s.pushes| && Waiting(s, i) && s.pushes[i].pusher == x && s.pushes[i].pushee == y;
      assert Waiting(s', i);
    }
    forall i, d | 0 <= i < |s'.pushes| && Waiting(s', i) && d in s'.pushes[i].dependents
      ensures LeadsTo(s', d, s'.pushes[i].pushee)
    {
      assert Waiting(s, i);
      var pushee := s.pushes[i].pushee;
      if d !in s.pushes[i].dependents {
        assert LiveEdge(s, s.pushes[i].pusher, pushee);
        LeadsFurther(s, d, s.pushes[i].pusher, pushee);
      }
      if d != pushee {
        SameReaches(s, s', d, pushee);
      }
    }
  }

  /** A path to another transaction does not pass one that waits for nobody. */
  lemma PathSurvives(s: State, txn: TxnId, a: TxnId, b: TxnId)
    requires !IsWaiting(s, txn) && LiveReaches(s, a, b) && b != txn
    ensures LiveReaches(Finalize(s, txn), a, b)
  {
    var s' := Finalize(s, txn);
    var path :| LivePath(s, path) && path[0] == a && path[|path| - 1] == b;
    forall i | 0 <= i < |path| - 1 ensures path[i] != txn {
      assert LiveEdge(s, path[i], path[i + 1]);
    }
    forall i | 0 <= i < |path| - 1 ensures LiveEdge(s', path[i], path[i + 1]) {
      assert LiveEdge(s, path[i], path[i + 1]);
      var id :| 0 <= id < |s.pushes| && Waiting(s, id) && s.pushes[id].pusher == path[i] &&
        s.pushes[id].pushee == path[i + 1];
      assert path[i + 1] != txn && Waiting(s', id);
    }
    assert LivePath(s', path);
  }

  lemma EndLiveSound(s: State, txn: TxnId)
    requires LiveSound(s) && !IsWaiting(s, txn)
    ensures LiveSound(Finalize(s, txn))
  {
    hide LiveReaches, IsWaiting;
    var s' := Finalize(s, txn);
    forall id, d | 0 <= id < |s'.pushes| && Waiting(s', id) && d in s'.pushes[id].dependents
      ensures LeadsTo(s', d, s'.pushes[id].pushee)
    {
      assert Waiting(s, id) && s.pushes[id].pushee != txn;
      if d != s.pushes[id].pushee {
        PathSurvives(s, txn, d, s.pushes[id].pushee);
      }
    }
  }

  /** Transactions are finalized only while they wait for nobody. */
  ghost predicate EndsOnlyIdle(s: State, actions: seq<Action>)
    decreases |actions|
  {
    actions != [] ==>
      (actions[0].End? ==> !IsWaiting(s, actions[0].txn)) && EndsOnlyIdle(Step(s, actions[0]), actions[1..])
  }

  lemma {:induction false} RunLiveSound(s: State, actions: seq<Action>)
    requires Sound(s) && LiveSound(s) && EndsOnlyIdle(s, actions)
    ensures Sound(Run(s, actions)) && LiveSound(Run(s, actions))
    decreases |actions|
  {
    hide Sound, LiveSound, IsWaiting;
    if actions != [] {
      StepSound(s, actions[0]);
      match actions[0] {
        case Push(pusher, pushee) => PushLiveSound(s, pusher, pushee);
        case Ask(id) => if id < |s.pushes| { AskLiveSound(s, id); }
        case End(txn) => EndLiveSound(s, txn);
      }
      RunLiveSound(Step(s, actions[0]), actions[1..]);
    }
  }

  /** As long as only idle transactions are finalized, a waiting push that detects a deadlock is
      part of one: its pushee reaches it along pushes that all wait now, and it waits for its pushee. */
  lemma DetectionIsALiveCycle(actions: seq<Action>, id: PushId)
    requires EndsOnlyIdle(EMPTY, actions)
    requires var s := Run(EMPTY, actions); id < |s.pushes| && Waiting(s, id) && Detects(s, id)
    ensures
      var s := Run(EMPTY, actions);
      LiveReaches(s, s.pushes[id].pushee, s.pushes[id].pusher) && LiveEdge(s, s.pushes[id].pusher, s.pushes[id].pushee)
  {
    RunLiveSound(EMPTY, actions);
    NoFalseDetection(Run(EMPTY, actions), id);
  }

  // ---------- the exact condition ----------

  lemma {:induction false} NoneEndsIsIdle(s: State, actions: seq<Action>)
    requires NoneEnds(actions)
    ensures EndsOnlyIdle(s, actions)
    decreases |actions|
  {
    if actions != [] {
      NoneEndsIsIdle(Step(s, actions[0]), actions[1..]);
    }
  }

  lemma {:induction false} FirstVisit(path: seq<TxnId>, txn: TxnId) returns (j: nat)
    requires txn in path
    ensures j < |path| && path[j] == txn && txn !in path[..j]
  {
    if path[0] == txn {
      j := 0;
    } else {
      assert path == [path[0]] + path[1..];
      var k := FirstVisit(path[1..], txn);
      j := k + 1;
      assert path[..j] == [path[0]] + path[1..][..k];
    }
  }

  /** A push of a transaction opens no new way to it. */
  lemma NoNewWay(s: State, txn: TxnId, d: TxnId)
    requires d != txn && LiveReaches(Enqueue(s, txn, d), d, txn)
    ensures LiveReaches(s, d, txn)
  {
    var s' := Enqueue(s, txn, d);
    WaitingAfterPush(s, txn, d);
    var path :| LivePath(s', path) && path[0] == d && path[|path| - 1] == txn;
    var j := FirstVisit(path, txn);
    var way := path[..j + 1];
    forall i | 0 <= i < |way| - 1 ensures LiveEdge(s, way[i], way[i + 1]) {
      assert path[..j][i] == path[i] && way[i + 1] == path[i + 1];
      assert LiveEdge(s', path[i], path[i + 1]);
      var id :| 0 <= id < |s'.pushes| && Waiting(s', id) && s'.pushes[id].pusher == path[i] &&
        s'.pushes[id].pushee == path[i + 1];
      assert id < |s.pushes| && Waiting(s, id);
    }
    assert LivePath(s, way);
  }

  /** An unjustified dependent is one push away from a false detection. */
  lemma UnsoundIsFatal(s: State, id: PushId, d: TxnId)
    requires id < |s.pushes| && Waiting(s, id) && d in s.pushes[id].dependents && !LeadsTo(s, d, s.pushes[id].pushee)
    ensures
      var s' := Run(s, [Push(s.pushes[id].pushee, d)]);
      |s'.pushes| == |s.pushes| + 1 && DetectsFalsely(s', |s.pushes|)
  {
    hide LiveReaches;
    var txn := s.pushes[id].pushee;
    var s' := Enqueue(s, txn, d);
    assert Run(s, [Push(txn, d)]) == Run(s', []) == s';
    WaitingAfterPush(s, txn, d);
    WaitingIsSeen(s', id);
    if LiveReaches(s', d, txn) {
      NoNewWay(s, txn, d);
    }
  }

  ghost predicate NoFalseDetections(s: State) {
    forall id :: 0 <= id < |s.pushes| ==> !DetectsFalsely(s, id)
  }

  /** In every reachable state, whatever has been finalized before: no later run without further
      finalizations, or with such of idle transactions only, comes to a false detection if and
      only if the waiting pushes have recorded only what leads to their pushees now. */
  lemma {:induction false} LaterDetectionsAreRealIff(actions: seq<Action>)
    ensures
      var s := Run(EMPTY, actions);
      (forall more :: NoneEnds(more) ==> NoFalseDetections(Run(s, more))) <==> LiveSound(s)
    ensures
      var s := Run(EMPTY, actions);
      (forall more :: EndsOnlyIdle(s, more) ==> NoFalseDetections(Run(s, more))) <==> LiveSound(s)
  {
    hide Sound, LeadsTo, DetectsFalsely, Waiting, Run, EndsOnlyIdle;
    var s := Run(EMPTY, actions);
    RunSound(EMPTY, actions);
    if LiveSound(s) {
      forall more | EndsOnlyIdle(s, more) ensures NoFalseDetections(Run(s, more)) {
        RunLiveSound(s, more);
        forall id: PushId | id < |Run(s, more).pushes| ensures !DetectsFalsely(Run(s, more), id) {
          NoFalseDetection(Run(s, more), id);
        }
      }
      forall more | NoneEnds(more) ensures EndsOnlyIdle(s, more) {
        NoneEndsIsIdle(s, more);
      }
    } else {
      var id, d :| 0 <= id < |s.pushes| && Waiting(s, id) && d in s.pushes[id].dependents &&
        !LeadsTo(s, d, s.pushes[id].pushee);
      var more := [Push(s.pushes[id].pushee, d)];
      UnsoundIsFatal(s, id, d);
      NoneEndsIsIdle(s, more);
      assert NoneEnds(more) && !NoFalseDetections(Run(s, more));
    }
  }

  /** The detection after a finalized transaction is a false one. */
  lemma {:induction false} DetourIsFalse()
    ensures
      var s := Run(EMPTY, DETOUR);
      2 < |s.pushes| && DetectsFalsely(s, 2)
  {
    DetourSteps();
    DetectionAfterFinalize();
    var s := AFTER_DETOUR;
    forall path | LivePath(s, path) ensures path[0] != 2 {
      assert LiveEdge(s, path[0], path[1]);
    }
  }

  // ---------- the answer to a detection ----------

  /** What is aborted when a deadlock is detected, the pushee, waits itself: the program's own
      answer is never the end of an idle transaction. */
  lemma AnsweredTransactionWaits(s: State, id: PushId)
    requires id < |s.pushes| && LiveReaches(s, s.pushes[id].pushee, s.pushes[id].pusher)
    ensures IsWaiting(s, s.pushes[id].pushee)
  {
    var path :| LivePath(s, path) && path[0] == s.pushes[id].pushee && path[|path| - 1] == s.pushes[id].pusher;
    assert LiveEdge(s, path[0], path[1]);
  }

  const TRIANGLE: seq<Action> := [Push(1, 2), Push(2, 3), Push(3, 1), Ask(2), Ask(1)]

  const IN_TRIANGLE :=
    State([WaitingPush(1, 2, {}), WaitingPush(2, 3, {1}), WaitingPush(3, 1, {2})], map[2 := [0], 3 := [1], 1 := [2]])

  const CIRCLE :=
    State([WaitingPush(1, 2, {}), WaitingPush(2, 3, {}), WaitingPush(3, 1, {})], map[2 := [0], 3 := [1], 1 := [2]])

  lemma CirclePushes()
    ensures Run(EMPTY, [Push(1, 2), Push(2, 3), Push(3, 1)]) == CIRCLE
  {
    var s1 := State([WaitingPush(1, 2, {})], map[2 := [0]]);
    var s2 := State([WaitingPush(1, 2, {}), WaitingPush(2, 3, {})], map[2 := [0], 3 := [1]]);
    assert Step(EMPTY, Push(1, 2)) == s1;
    assert Step(s1, Push(2, 3)) == s2;
    assert Step(s2, Push(3, 1)) == CIRCLE;
    hide Step;
    assert Run(s2, [Push(3, 1)]) == Run(CIRCLE, []) == CIRCLE;
    assert Run(s1, [Push(2, 3), Push(3, 1)]) == Run(s2, [Push(3, 1)]);
  }

  lemma CircleQueries()
    ensures Run(CIRCLE, [Ask(2), Ask(1)]) == IN_TRIANGLE
  {
    var none: set<TxnId> := {};
    var s4 := State([WaitingPush(1, 2, {}), WaitingPush(2, 3, {}), WaitingPush(3, 1, {2})],
                    map[2 := [0], 3 := [1], 1 := [2]]);
    assert Step(CIRCLE, Ask(2)) == s4 by {
      assert TransitiveDependents(CIRCLE, 3) == {2} && none + {2} == {2};
    }
    assert Step(s4, Ask(1)) == IN_TRIANGLE by {
      assert TransitiveDependents(s4, 2) == {1} && none + {1} == {1};
    }
    hide Step;
    assert Run(s4, [Ask(1)]) == Run(IN_TRIANGLE, []) == IN_TRIANGLE;
  }

  lemma TriangleSteps()
    ensures Run(EMPTY, TRIANGLE) == IN_TRIANGLE
  {
    hide Run, Step;
    CirclePushes();
    CircleQueries();
    RunConcat(EMPTY, [Push(1, 2), Push(2, 3), Push(3, 1)], [Ask(2), Ask(1)]);
    assert [Push(1, 2), Push(2, 3), Push(3, 1)] + [Ask(2), Ask(1)] == TRIANGLE;
  }

  /** Three transactions wait in a circle and one detects it. When its pushee is aborted, another
      one detects a deadlock that is gone. */
  lemma {:induction false} AnswerCausesAFalseDetection()
    ensures
      var s := Run(EMPTY, TRIANGLE);
      |s.pushes| == 3 && Waiting(s, 0) && Detects(s, 0) && LiveReaches(s, s.pushes[0].pushee, s.pushes[0].pusher) &&
      var s' := Run(s, [End(s.pushes[0].pushee)]);
      |s'.pushes| == 3 && DetectsFalsely(s', 2)
  {
    TriangleSteps();
    hide TRIANGLE;
    var s, s' := IN_TRIANGLE, Finalize(IN_TRIANGLE, 2);
    assert Run(s, [End(2)]) == Run(s', []) == s';
    assert TransitiveDependents(s, 1) == {3, 2} && TransitiveDependents(s', 3) == {1, 2};
    assert Waiting(s, 0) && Waiting(s, 1) && Waiting(s, 2) && Waiting(s', 2);
    assert LiveEdge(s, 2, 3) && LiveEdge(s, 3, 1);
    assert LivePath(s, [2, 3, 1]) && [2, 3, 1][0] == 2 && [2, 3, 1][2] == 1;
    forall path | LivePath(s', path) ensures path[0] != 1 {
      assert LiveEdge(s', path[0], path[1]);
    }
  }
}

/** `TxnWaitQueue`: which transactions wait for which, and how a waiting transaction finds out
    that it is part of a deadlock.

    A `WaitingPush` is shared between the queue, the request that waits and the loop that keeps
    querying; it is addressed here by its number in the order of creation. */
module TxnWaitQueues {
  import opened Txns

  type PushId = nat

  /** `pusher` waits for `pushee`; `dependents` are transactions found to wait for `pusher`. */
  datatype WaitingPush = WaitingPush(pusher: TxnId, pushee: TxnId, dependents: set<TxnId>)

  datatype State = State(pushes: seq<WaitingPush>, pushees: map<TxnId, seq<PushId>>)

  // ---------- the operations ----------

  function Enqueue(s: State, pusher: TxnId, pushee: TxnId): State {
    var id := |s.pushes|;
    State(s.pushes + [WaitingPush(pusher, pushee, {})],
          s.pushees[pushee := if pushee in s.pushees then s.pushees[pushee] + [id] else [id]])
  }

  /** The pushers of some pushes, together with the dependents these have collected so far. */
  function DependentsOf(pushes: seq<WaitingPush>, ids: seq<PushId>): set<TxnId> {
    if ids == [] then {}
    else
      (if ids[0] < |pushes| then pushes[ids[0]].dependents + {pushes[ids[0]].pusher} else {}) +
      DependentsOf(pushes, ids[1..])
  }

  /** `get_transitive_dependents`. */
  function TransitiveDependents(s: State, txn: TxnId): set<TxnId> {
    if txn in s.pushees then DependentsOf(s.pushes, s.pushees[txn]) else {}
  }

  /** One round of the query loop of a push: its dependents grow by those of its pusher. */
  function Query(s: State, id: PushId): State
    requires id < |s.pushes|
  {
    var push := s.pushes[id];
    s.(pushes := s.pushes[id := push.(dependents := push.dependents + TransitiveDependents(s, push.pusher))])
  }

  /** The query of a push reports a deadlock: the pushee depends on the pusher. */
  predicate Detects(s: State, id: PushId)
    requires id < |s.pushes|
  {
    s.pushes[id].pushee in TransitiveDependents(s, s.pushes[id].pusher)
  }

  function Finalize(s: State, txn: TxnId): State {
    s.(pushees := s.pushees - {txn})
  }

  class TxnWaitQueue {
    var pushes: seq<WaitingPush>
    var pushees: map<TxnId, seq<PushId>>

    function GetState(): State
      reads this
    {
      State(pushes, pushees)
    }

    constructor ()
      ensures GetState() == State([], map[])
    {
      pushes, pushees := [], map[];
    }

    method EnqueueAndPush(pusher: TxnId, pushee: TxnId) returns (id: PushId)
      modifies this
      ensures GetState() == Enqueue(old(GetState()), pusher, pushee) && id == old(|pushes|)
    {
      id := |pushes|;
      pushes := pushes + [WaitingPush(pusher, pushee, {})];
      if pushee in pushees {
        pushees := pushees[pushee := pushees[pushee] + [id]];
      } else {
        pushees := pushees[pushee := [id]];
      }
    }

    /** Looks up who depends on the pusher, adds them to the push and tells whether the pushee
        is among them. */
    method QueryDependents(id: PushId) returns (isCycleDetected: bool)
      requires id < |pushes|
      modifies `pushes
      ensures GetState() == Query(old(GetState()), id) && isCycleDetected == old(Detects(GetState(), id))
    {
      var push := pushes[id];
      var dependents := TransitiveDependents(State(pushes, pushees), push.pusher);
      pushes := pushes[id := push.(dependents := push.dependents + dependents)];
      isCycleDetected := push.pushee in dependents;
    }

    /** Forgets the pushes that wait for a transaction and returns those to be woken up. */
    method FinalizeTxn(txn: TxnId) returns (released: seq<PushId>)
      modifies `pushees
      ensures GetState() == Finalize(old(GetState()), txn)
      ensures released == if txn in old(pushees) then old(pushees)[txn] else []
    {
      released := [];
      if txn in pushees {
        released := pushees[txn];
        pushees := pushees - {txn};
      }
    }
  }

  // ---------- runs ----------

  datatype Action = Push(pusher: TxnId, pushee: TxnId) | Ask(id: PushId) | End(txn: TxnId)

  function Step(s: State, a: Action): State {
    match a
    case Push(pusher, pushee) => Enqueue(s, pusher, pushee)
    case Ask(id) => if id < |s.pushes| then Query(s, id) else s
    case End(txn) => Finalize(s, txn)
  }

  function Run(s: State, actions: seq<Action>): State
    decreases |actions|
  {
    if actions == [] then s else Run(Step(s, actions[0]), actions[1..])
  }

  lemma {:induction false} RunConcat(s: State, a: seq<Action>, b: seq<Action>)
    ensures Run(s, a + b) == Run(Run(s, a), b)
    decreases |a|
  {
    if a == [] {
      assert a + b == b;
    } else {
      RunConcat(Step(s, a[0]), a[1..], b);
      assert (a + b)[1..] == a[1..] + b;
    }
  }

  const EMPTY := State([], map[])

  lemma {:induction false} DependentsOfMembers(pushes: seq<WaitingPush>, ids: seq<PushId>)
    ensures forall d :: d in DependentsOf(pushes, ids) <==>
      exists id :: id in ids && id < |pushes| && (d == pushes[id].pusher || d in pushes[id].dependents)
  {
    if ids != [] {
      DependentsOfMembers(pushes, ids[1..]);
      assert ids == [ids[0]] + ids[1..];
    }
  }

  // ---------- the queues ----------

  function QueueFor(s: State, txn: TxnId): seq<PushId> {
    if txn in s.pushees then s.pushees[txn] else []
  }

  /** Some action pushed `txn` as the push with this number, and no later one has ended `txn`. */
  ghost predicate IsStillQueued(actions: seq<Action>, id: PushId, txn: TxnId) {
    exists i :: 0 <= i < |actions| && actions[i].Push? && actions[i].pushee == txn &&
      |Run(EMPTY, actions[..i]).pushes| == id && forall j :: i < j < |actions| ==> actions[j] != End(txn)
  }

  predicate IsQueueOf(queue: seq<PushId>, bound: nat) {
    (forall i :: 0 <= i < |queue| ==> queue[i] < bound) && forall i, j :: 0 <= i < j < |queue| ==> queue[i] < queue[j]
  }

  /** In every run the queue of a transaction holds, in the order of arrival, exactly the pushes that
      have arrived since the transaction was last finalized. */
  lemma {:induction false} QueueInOrder(actions: seq<Action>, txn: TxnId)
    ensures
      var s := Run(EMPTY, actions);
      IsQueueOf(QueueFor(s, txn), |s.pushes|) &&
      forall id :: id in QueueFor(s, txn) <==> IsStillQueued(actions, id, txn)
    decreases |actions|
  {
    hide Run, Step, IsStillQueued;
    if actions == [] {
      NothingRun();
      assert forall id :: !IsStillQueued([], id, txn) by {
        NoneQueued(txn);
      }
    } else {
      var n := |actions| - 1;
      var s := Run(EMPTY, actions[..n]);
      RunOneMore(actions);
      QueueInOrder(actions[..n], txn);
      QueueStep(s, actions[n], txn);
      forall id {
        QueuedStep(actions, id, txn);
      }
    }
  }

  lemma NoneQueued(txn: TxnId)
    ensures forall id :: !IsStillQueued([], id, txn)
  {
  }

  lemma QueueStep(s: State, a: Action, txn: TxnId)
    ensures QueueFor(Step(s, a), txn) ==
      if a == End(txn) then []
      else if a.Push? && a.pushee == txn then QueueFor(s, txn) + [|s.pushes|]
      else QueueFor(s, txn)
    ensures |Step(s, a).pushes| == |s.pushes| + if a.Push? then 1 else 0
  {
  }

  lemma {:induction false} QueuedStep(actions: seq<Action>, id: PushId, txn: TxnId)
    requires actions != []
    ensures
      var n := |actions| - 1;
      var a := actions[n];
      IsStillQueued(actions, id, txn) <==>
        (a != End(txn) && IsStillQueued(actions[..n], id, txn)) ||
        (a.Push? && a.pushee == txn && id == |Run(EMPTY, actions[..n]).pushes|)
  {
    hide Run;
    var n := |actions| - 1;
    var before, a := actions[..n], actions[n];
    forall i | 0 <= i < n ensures actions[..i] == before[..i] && actions[i] == before[i] {
    }
    if a != End(txn) && IsStillQueued(before, id, txn) {
      var i :| 0 <= i < n && before[i].Push? && before[i].pushee == txn &&
        |Run(EMPTY, before[..i]).pushes| == id && forall j :: i < j < n ==> before[j] != End(txn);
      assert actions[i].Push? && |Run(EMPTY, actions[..i]).pushes| == id;
    }
  }

  lemma NothingRun()
    ensures Run(EMPTY, []) == EMPTY
  {
  }

  lemma RunOneMore(actions: seq<Action>)
    requires actions != []
    ensures
      var n := |actions| - 1;
      Run(EMPTY, actions) == Step(Run(EMPTY, actions[..n]), actions[n])
  {
    var n := |actions| - 1;
    assert actions == actions[..n] + [actions[n]];
    RunConcat(EMPTY, actions[..n], [actions[n]]);
  }

  // ---------- soundness ----------

  /** Some push has recorded, at whatever time, that `a` waits for `b`. */
  predicate Edge(pushes: seq<WaitingPush>, a: TxnId, b: TxnId) {
    exists i :: 0 <= i < |pushes| && pushes[i].pusher == a && pushes[i].pushee == b
  }

  predicate Path(pushes: seq<WaitingPush>, path: seq<TxnId>) {
    |path| >= 2 && forall i :: 0 <= i < |path| - 1 ==> Edge(pushes, path[i], path[i + 1])
  }

  ghost predicate Reaches(pushes: seq<WaitingPush>, a: TxnId, b: TxnId) {
    exists path :: Path(pushes, path) && path[0] == a && path[|path| - 1] == b
  }

  /** The queue lists only pushes of its own pushee, and all recorded dependents reach their
      pusher along waits-for edges. */
  ghost predicate Sound(s: State) {
    (forall t, k :: t in s.pushees && 0 <= k < |s.pushees[t]| ==>
      s.pushees[t][k] < |s.pushes| && s.pushes[s.pushees[t][k]].pushee == t) &&
    (forall i, d :: 0 <= i < |s.pushes| && d in s.pushes[i].dependents ==>
      Reaches(s.pushes, d, s.pushes[i].pusher))
  }

  lemma ReachesMonotone(pushes: seq<WaitingPush>, pushes': seq<WaitingPush>, a: TxnId, b: TxnId)
    requires Reaches(pushes, a, b) && |pushes| <= |pushes'|
    requires forall i :: 0 <= i < |pushes| ==>
      pushes'[i].pusher == pushes[i].pusher && pushes'[i].pushee == pushes[i].pushee
    ensures Reaches(pushes', a, b)
  {
    var path :| Path(pushes, path) && path[0] == a && path[|path| - 1] == b;
    forall i | 0 <= i < |path| - 1 ensures Edge(pushes', path[i], path[i + 1]) {
      assert Edge(pushes, path[i], path[i + 1]);
    }
    assert Path(pushes', path);
  }

  lemma EdgeReaches(pushes: seq<WaitingPush>, i: nat)
    requires i < |pushes|
    ensures Reaches(pushes, pushes[i].pusher, pushes[i].pushee)
  {
    var path := [pushes[i].pusher, pushes[i].pushee];
    assert Edge(pushes, path[0], path[1]);
    assert Path(pushes, path);
  }

  lemma ReachesEdge(pushes: seq<WaitingPush>, a: TxnId, i: nat)
    requires i < |pushes| && Reaches(pushes, a, pushes[i].pusher)
    ensures Reaches(pushes, a, pushes[i].pushee)
  {
    var path :| Path(pushes, path) && path[0] == a && path[|path| - 1] == pushes[i].pusher;
    var path' := path + [pushes[i].pushee];
    forall k | 0 <= k < |path'| - 1 ensures Edge(pushes, path'[k], path'[k + 1]) {
      assert k < |path| - 1 ==> path'[k] == path[k] && path'[k + 1] == path[k + 1];
    }
    assert Path(pushes, path');
  }

  /** Whatever a query reports does wait for the transaction asked about. */
  lemma DependentsReach(s: State, txn: TxnId)
    requires Sound(s)
    ensures forall d :: d in TransitiveDependents(s, txn) ==> Reaches(s.pushes, d, txn)
  {
    forall d | d in TransitiveDependents(s, txn) ensures Reaches(s.pushes, d, txn) {
      DependentsOfMembers(s.pushes, s.pushees[txn]);
      var id :| id in s.pushees[txn] && id < |s.pushes| &&
        (d == s.pushes[id].pusher || d in s.pushes[id].dependents);
      var k :| 0 <= k < |s.pushees[txn]| && s.pushees[txn][k] == id;
      if d == s.pushes[id].pusher {
        EdgeReaches(s.pushes, id);
      } else {
        ReachesEdge(s.pushes, d, id);
      }
    }
  }

  lemma {:induction false} StepSound(s: State, a: Action)
    requires Sound(s)
    ensures Sound(Step(s, a))
  {
    var s' := Step(s, a);
    if a.Ask? && a.id < |s.pushes| {
      DependentsReach(s, s.pushes[a.id].pusher);
    }
    forall i, d | 0 <= i < |s'.pushes| && d in s'.pushes[i].dependents
      ensures Reaches(s'.pushes, d, s'.pushes[i].pusher)
    {
      assert i < |s.pushes|;
      assert Reaches(s.pushes, d, s.pushes[i].pusher);
      ReachesMonotone(s.pushes, s'.pushes, d, s.pushes[i].pusher);
    }
  }

  /** In every run, with or without finalized transactions, all dependents are justified. */
  lemma {:induction false} RunSound(s: State, actions: seq<Action>)
    requires Sound(s)
    ensures Sound(Run(s, actions))
    decreases |actions|
  {
    if actions != [] {
      StepSound(s, actions[0]);
      RunSound(Step(s, actions[0]), actions[1..]);
    }
  }

  /** No transaction is finalized. */
  predicate NoneEnds(actions: seq<Action>) {
    forall i :: 0 <= i < |actions| ==> !actions[i].End?
  }

  /** The pushee still has the push in its list: its pusher is waiting right now. */
  predicate Waiting(s: State, id: PushId)
    requires id < |s.pushes|
  {
    s.pushes[id].pushee in s.pushees && id in s.pushees[s.pushes[id].pushee]
  }

  ghost predicate AllWaiting(s: State) {
    forall id :: 0 <= id < |s.pushes| ==> Waiting(s, id)
  }

  lemma {:induction false} RunAllWaiting(s: State, actions: seq<Action>)
    requires AllWaiting(s) && NoneEnds(actions)
    ensures AllWaiting(Run(s, actions))
    decreases |actions|
  {
    if actions != [] {
      var s' := Step(s, actions[0]);
      forall id | 0 <= id < |s'.pushes| ensures Waiting(s', id) {
        if id < |s.pushes| {
          assert Waiting(s, id);
        }
      }
      RunAllWaiting(s', actions[1..]);
    }
  }

  /** As long as nothing is finalized, a detected deadlock is one: the pushee reaches the pusher
      along edges of pushes that all are waiting now, and the pusher waits for the pushee. */
  lemma {:induction false} DetectionIsACycle(actions: seq<Action>, id: PushId)
    requires NoneEnds(actions)
    requires var s := Run(EMPTY, actions); id < |s.pushes| && Detects(s, id)
    ensures
      var s := Run(EMPTY, actions);
      Reaches(s.pushes, s.pushes[id].pushee, s.pushes[id].pusher) &&
      Edge(s.pushes, s.pushes[id].pusher, s.pushes[id].pushee) && AllWaiting(s)
  {
    RunSound(EMPTY, actions);
    RunAllWaiting(EMPTY, actions);
    DependentsReach(Run(EMPTY, actions), Run(EMPTY, actions).pushes[id].pusher);
  }

  const DETOUR: seq<Action> := [Push(2, 1), Push(1, 3), Ask(1), End(1), Push(3, 2)]

  const AFTER_DETOUR :=
    State([WaitingPush(2, 1, {}), WaitingPush(1, 3, {2}), WaitingPush(3, 2, {})], map[3 := [1], 2 := [2]])

  lemma DetourSteps()
    ensures Run(EMPTY, DETOUR) == AFTER_DETOUR
  {
    var s1 := State([WaitingPush(2, 1, {})], map[1 := [0]]);
    var s2 := State([WaitingPush(2, 1, {}), WaitingPush(1, 3, {})], map[1 := [0], 3 := [1]]);
    var s3 := State([WaitingPush(2, 1, {}), WaitingPush(1, 3, {2})], map[1 := [0], 3 := [1]]);
    var s4 := State([WaitingPush(2, 1, {}), WaitingPush(1, 3, {2})], map[3 := [1]]);
    assert Step(EMPTY, Push(2, 1)) == s1;
    assert Step(s1, Push(1, 3)) == s2;
    assert Step(s2, Ask(1)) == s3 by {
      var none: set<TxnId> := {};
      assert TransitiveDependents(s2, 1) == {2} && none + {2} == {2};
    }
    assert Step(s3, End(1)) == s4;
    assert Step(s4, Push(3, 2)) == AFTER_DETOUR;
    hide Step;
    assert Run(EMPTY, [Push(2, 1), Push(1, 3)]) == s2;
    assert Run(s2, [Ask(1), End(1), Push(3, 2)]) == Run(s3, [End(1), Push(3, 2)]) == Run(s4, [Push(3, 2)]);
    RunConcat(EMPTY, [Push(2, 1), Push(1, 3)], [Ask(1), End(1), Push(3, 2)]);
    assert [Push(2, 1), Push(1, 3)] + [Ask(1), End(1), Push(3, 2)] == DETOUR;
  }

  /** Finalized transactions can make a detection spurious. 2 waits for 1 and 1 for 3; 1 learns
      about 2 and is finalized; now 3 waits for 2 and takes 2 for waiting for itself, although
      no push of 2 is left in the queue. */
  lemma DetectionAfterFinalize()
    ensures
      var s := Run(EMPTY, DETOUR);
      |s.pushes| == 3 && Detects(s, 2) && s.pushes[0].pusher == 2 && !Waiting(s, 0) &&
      forall id :: 0 <= id < 3 && s.pushes[id].pusher == 2 ==> id == 0
  {
    DetourSteps();
    DependentsOfMembers(AFTER_DETOUR.pushes, [1]);
  }

  // ---------- completeness ----------

  /** The position `k` steps before position `i` on a cycle of length `n`. */
  function Back(i: nat, k: nat, n: nat): nat
    requires i < n && k <= n
  {
    if k <= i then i - k else n + i - k
  }

  /** The push before position `i` waits for the pusher of the one at position `i`. */
  ghost predicate Follows(s: State, c: seq<PushId>, i: nat)
    requires i < |c| && forall j :: 0 <= j < |c| ==> c[j] < |s.pushes|
  {
    s.pushes[c[Back(i, 1, |c|)]].pushee == s.pushes[c[i]].pusher
  }

  /** The pushes of `c` form a waits-for cycle. */
  ghost predicate Cycle(s: State, c: seq<PushId>) {
    c != [] &&
    (forall i :: 0 <= i < |c| ==> c[i] < |s.pushes| && Waiting(s, c[i])) &&
    (forall i :: 0 <= i < |c| ==> Follows(s, c, i))
  }

  /** The push at position `i` knows the pushers at the `r` positions before it. */
  ghost predicate Knows(s: State, c: seq<PushId>, i: nat, r: nat)
    requires i < |c| && r <= |c| && forall j :: 0 <= j < |c| ==> c[j] < |s.pushes|
  {
    forall k :: 1 <= k <= r ==> s.pushes[c[Back(i, k, |c|)]].pusher in s.pushes[c[i]].dependents
  }

  ghost predicate AllKnow(s: State, c: seq<PushId>, r: nat)
    requires r <= |c| && forall j :: 0 <= j < |c| ==> c[j] < |s.pushes|
  {
    forall i :: 0 <= i < |c| ==> Knows(s, c, i, r)
  }

  /** What is not finalized only grows. */
  ghost predicate Grows(s: State, s': State) {
    |s.pushes| <= |s'.pushes| &&
    (forall i :: 0 <= i < |s.pushes| ==>
      s'.pushes[i].pusher == s.pushes[i].pusher && s'.pushes[i].pushee == s.pushes[i].pushee &&
      s.pushes[i].dependents <= s'.pushes[i].dependents) &&
    (forall i :: 0 <= i < |s.pushes| && Waiting(s, i) ==> Waiting(s', i))
  }

  lemma {:induction false} RunGrows(s: State, actions: seq<Action>)
    requires NoneEnds(actions)
    ensures Grows(s, Run(s, actions))
    decreases |actions|
  {
    if actions != [] {
      RunGrows(Step(s, actions[0]), actions[1..]);
    }
  }

  lemma GrownCycle(s: State, s': State, c: seq<PushId>)
    requires Cycle(s, c) && Grows(s, s')
    ensures Cycle(s', c)
    ensures forall i, r :: 0 <= i < |c| && 0 <= r <= |c| && Knows(s, c, i, r) ==> Knows(s', c, i, r)
  {
    forall i | 0 <= i < |c| ensures Follows(s', c, i) {
      assert Follows(s, c, i);
    }
    forall i, r | 0 <= i < |c| && 0 <= r <= |c| && Knows(s, c, i, r) ensures Knows(s', c, i, r) {
      forall k | 1 <= k <= r ensures s'.pushes[c[Back(i, k, |c|)]].pusher in s'.pushes[c[i]].dependents {
        assert s.pushes[c[Back(i, k, |c|)]].pusher in s.pushes[c[i]].dependents;
      }
    }
  }

  /** Whoever asks about the pushee of a waiting push gets to know its pusher and dependents. */
  lemma WaitingIsSeen(s: State, id: PushId)
    requires id < |s.pushes| && Waiting(s, id)
    ensures s.pushes[id].dependents + {s.pushes[id].pusher} <= TransitiveDependents(s, s.pushes[id].pushee)
  {
    DependentsOfMembers(s.pushes, s.pushees[s.pushes[id].pushee]);
  }

  /** A query sees the pusher before it on the cycle and all that this one knows. */
  lemma QueryFinds(s: State, c: seq<PushId>, i: nat, r: nat, k: nat)
    requires Cycle(s, c) && i < |c| && r < |c| && AllKnow(s, c, r) && 1 <= k <= r + 1
    ensures s.pushes[c[Back(i, k, |c|)]].pusher in TransitiveDependents(s, s.pushes[c[i]].pusher)
  {
    hide Waiting, TransitiveDependents;
    var j := Back(i, 1, |c|);
    assert Follows(s, c, i);
    WaitingIsSeen(s, c[j]);
    if k > 1 {
      assert Knows(s, c, j, r);
      assert Back(j, k - 1, |c|) == Back(i, k, |c|);
    }
  }

  /** One step short of a full turn back on the cycle is the next push, whose pusher is waited for. */
  lemma AlmostFullTurn(s: State, c: seq<PushId>, i: nat)
    requires Cycle(s, c) && i < |c|
    ensures
      var k := if |c| == 1 then 1 else |c| - 1;
      s.pushes[c[i]].pushee == s.pushes[c[Back(i, k, |c|)]].pusher
  {
    hide Waiting;
    var next := Back(i, if |c| == 1 then 1 else |c| - 1, |c|);
    assert Follows(s, c, next) && Back(next, 1, |c|) == i;
  }

  lemma QueryLearns(s: State, c: seq<PushId>, i: nat, r: nat)
    requires Cycle(s, c) && i < |c| && r < |c| && AllKnow(s, c, r)
    ensures Cycle(Query(s, c[i]), c) && Knows(Query(s, c[i]), c, i, r + 1)
  {
    var s' := Query(s, c[i]);
    GrownCycle(s, s', c);
    forall k | 1 <= k <= r + 1 ensures s'.pushes[c[Back(i, k, |c|)]].pusher in s'.pushes[c[i]].dependents {
      QueryFinds(s, c, i, r, k);
    }
  }

  /** During a round, whoever has asked knows one more. */
  lemma {:induction false} RoundLearns(s: State, c: seq<PushId>, r: nat, round: seq<Action>, i: nat)
    requires Cycle(s, c) && r < |c| && AllKnow(s, c, r) && NoneEnds(round)
    requires i < |c| && Ask(c[i]) in round
    ensures Cycle(Run(s, round), c) && Knows(Run(s, round), c, i, r + 1)
    decreases |round|
  {
    var s' := Step(s, round[0]);
    GrownCycle(s, s', c);
    if round[0] == Ask(c[i]) {
      QueryLearns(s, c, i, r);
      RunGrows(s', round[1..]);
      GrownCycle(s', Run(s', round[1..]), c);
    } else {
      assert round == [round[0]] + round[1..];
      forall j | 0 <= j < |c| ensures Knows(s', c, j, r) {
        assert Knows(s, c, j, r);
      }
      RoundLearns(s', c, r, round[1..], i);
    }
  }

  /** Every push of the cycle asks at least once, in whatever order, among any other actions. */
  ghost predicate Round(c: seq<PushId>, round: seq<Action>) {
    NoneEnds(round) && forall i :: 0 <= i < |c| ==> Ask(c[i]) in round
  }

  function RunRounds(s: State, rounds: seq<seq<Action>>): State
    decreases |rounds|
  {
    if rounds == [] then s else RunRounds(Run(s, rounds[0]), rounds[1..])
  }

  ghost predicate AllKnowUpTo(s: State, c: seq<PushId>, r: nat)
    requires Cycle(s, c)
  {
    r <= |c| && AllKnow(s, c, r)
  }

  lemma {:induction false} AllLearn(s: State, c: seq<PushId>, r: nat, round: seq<Action>)
    requires Cycle(s, c) && r < |c| && AllKnowUpTo(s, c, r) && Round(c, round)
    ensures Cycle(Run(s, round), c) && AllKnowUpTo(Run(s, round), c, r + 1)
  {
    hide Waiting, Run, Knows;
    var s' := Run(s, round);
    RunGrows(s, round);
    GrownCycle(s, s', c);
    var r' := r + 1;
    forall i | 0 <= i < |c| ensures Knows(s', c, i, r') {
      RoundLearns(s, c, r, round, i);
    }
  }

  lemma {:induction false} RoundsLearn(s: State, c: seq<PushId>, r: nat, rounds: seq<seq<Action>>)
    requires Cycle(s, c) && AllKnowUpTo(s, c, r) && r + |rounds| <= |c|
    requires forall k :: 0 <= k < |rounds| ==> Round(c, rounds[k])
    ensures Cycle(RunRounds(s, rounds), c) && AllKnowUpTo(RunRounds(s, rounds), c, r + |rounds|)
    decreases |rounds|
  {
    hide Cycle, AllKnowUpTo, Round, Run;
    if rounds != [] {
      AllLearn(s, c, r, rounds[0]);
      RoundsLearn(Run(s, rounds[0]), c, r + 1, rounds[1..]);
    }
  }

  /** A deadlock of n pushes is found: after n - 1 rounds without finalized transactions, and
      after any further actions of this kind, the next query of each push on the cycle detects
      it. So does, at the latest, the query in the n-th round. */
  lemma DeadlockIsDetected(s: State, c: seq<PushId>, rounds: seq<seq<Action>>, more: seq<Action>)
    requires Cycle(s, c) && |rounds| == |c| - 1 && NoneEnds(more)
    requires forall k :: 0 <= k < |rounds| ==> Round(c, rounds[k])
    ensures
      var s' := Run(RunRounds(s, rounds), more);
      forall i :: 0 <= i < |c| ==> c[i] < |s'.pushes| && Detects(s', c[i])
  {
    hide Waiting, Run, RunRounds, Knows, Round, TransitiveDependents, Grows;
    var n := |c|;
    var s1 := RunRounds(s, rounds);
    var s' := Run(s1, more);
    NothingToKnow(s, c);
    RoundsLearn(s, c, 0, rounds);
    RunGrows(s1, more);
    GrownCycle(s1, s', c);
    assert AllKnow(s', c, n - 1);
    forall i | 0 <= i < n ensures c[i] < |s'.pushes| && Detects(s', c[i]) {
      QueryFinds(s', c, i, n - 1, if n == 1 then 1 else n - 1);
      AlmostFullTurn(s', c, i);
    }
  }

  lemma NothingToKnow(s: State, c: seq<PushId>)
    requires Cycle(s, c)
    ensures AllKnowUpTo(s, c, 0)
  {
  }

  /** After n rounds every push on the cycle has its own pushee among its dependents. */
  lemma PusheeAmongDependents(s: State, c: seq<PushId>, rounds: seq<seq<Action>>)
    requires Cycle(s, c) && |rounds| == |c|
    requires forall k :: 0 <= k < |rounds| ==> Round(c, rounds[k])
    ensures
      var s' := RunRounds(s, rounds);
      forall i :: 0 <= i < |c| ==> c[i] < |s'.pushes| && s'.pushes[c[i]].pushee in s'.pushes[c[i]].dependents
  {
    hide Waiting, RunRounds, Round;
    var s' := RunRounds(s, rounds);
    NothingToKnow(s, c);
    RoundsLearn(s, c, 0, rounds);
    forall i | 0 <= i < |c| ensures c[i] < |s'.pushes| && s'.pushes[c[i]].pushee in s'.pushes[c[i]].dependents {
      assert Knows(s', c, i, |c|);
      AlmostFullTurn(s', c, i);
    }
  }
}

/** `LatchManager` over its real tree: for how many latches the tree does what a set of keys does. */
module LatchLimits {
  import opened Keys
  import opened LatchTrees
  import opened LatchTreeDeletes
  import opened LatchManagers

  /** The order of the latch manager's tree. */
  const ORDER := 3

  datatype TreeState = TreeState(tree: Tree, requests: map<RequestId, Request>)

  /** The same state with a set of keys for the tree. */
  ghost function View(s: TreeState): State {
    State(set r | r in Ranges(s.tree) :: r.startKey, s.requests)
  }

  /** It is the request's turn to take this step. */
  predicate IsDue(s: TreeState, a: Action) {
    Enabled(State({}, s.requests), a)
  }

  function KeyOf(s: TreeState, a: Action): Key
    requires IsDue(s, a) && (a.Insert? || a.Delete?)
  {
    var r := s.requests[a.id];
    if a.Insert? then r.spans[r.phase.n] else r.spans[r.phase.i]
  }

  /** The program gets through the step. */
  predicate Succeeds(s: TreeState, a: Action)
    requires IsDue(s, a)
  {
    (a.Insert? ==> Shaped(s.tree) && !RefusalPanics(s.tree, KeyOf(s, a))) &&
    (a.Delete? ==> Shaped(s.tree) && TreeDelete(s.tree, KeyOf(s, a), ORDER).Done?)
  }

  function TreeStep(s: TreeState, a: Action): TreeState
    requires IsDue(s, a) && Succeeds(s, a)
  {
    var requests := Step(State({}, s.requests), a).requests;
    if a.Insert? then
      var key := KeyOf(s, a);
      var ins := TreeInsert(s.tree, Range(key, key), ORDER);
      if ins.acquired then TreeState(NewRoot(ins), requests) else s
    else if a.Delete? then TreeState(TreeDelete(s.tree, KeyOf(s, a), ORDER).tree, requests)
    else TreeState(s.tree, requests)
  }

  const START := TreeState(Leaf([], []), map[])

  /** A run goes on until the program fails or its tree has lost its shape. */
  predicate IsTreeRun(states: seq<TreeState>, actions: seq<Action>) {
    |states| == |actions| + 1 && states[0] == START &&
    forall i :: 0 <= i < |actions| ==>
      IsDue(states[i], actions[i]) && Succeeds(states[i], actions[i]) &&
      states[i + 1] == TreeStep(states[i], actions[i])
  }

  /** How many latches the leaves hold. */
  function Count(t: Tree): nat
    decreases t, 0
  {
    if t.Leaf? then |t.starts| else KidCount(t.kids)
  }

  function KidCount(kids: seq<Tree>): nat
    decreases kids, |kids|
  {
    if kids == [] then 0 else Count(kids[0]) + KidCount(kids[1..])
  }

  predicate IsSmall(states: seq<TreeState>, m: nat) {
    forall i :: 0 <= i < |states| ==> Count(states[i].tree) <= m
  }

  /** Some run with never more than `m` latches comes to this state. */
  ghost predicate Reaches(s: TreeState, m: nat) {
    exists states: seq<TreeState>, actions: seq<Action> ::
      IsTreeRun(states, actions) && IsSmall(states, m) && states[|actions|] == s
  }

  // ---------- what can go wrong ----------

  /** A release waits forever for a lock that it holds itself. */
  ghost predicate CanHang(m: nat) {
    exists s: TreeState, a: Action ::
      Reaches(s, m) && IsDue(s, a) && a.Delete? && Shaped(s.tree) && TreeDelete(s.tree, KeyOf(s, a), ORDER).Hangs?
  }

  /** A release panics. */
  ghost predicate CanPanic(m: nat) {
    exists s: TreeState, a: Action ::
      Reaches(s, m) && IsDue(s, a) && a.Delete? && Shaped(s.tree) && TreeDelete(s.tree, KeyOf(s, a), ORDER).Panics?
  }

  /** Two guards share a key. */
  ghost predicate CanShare(m: nat) {
    exists s: TreeState, id: RequestId, id': RequestId ::
      Reaches(s, m) && id in s.requests && id' in s.requests && id != id' &&
      s.requests[id].phase.Holding? && s.requests[id'].phase.Holding? &&
      !Disjoint(s.requests[id].spans, s.requests[id'].spans)
  }

  /** A request for a latched key panics instead of waiting. */
  ghost predicate CanCrashOnRefusal(m: nat) {
    exists s: TreeState, a: Action ::
      Reaches(s, m) && IsDue(s, a) && a.Insert? && Shaped(s.tree) && RefusalPanics(s.tree, KeyOf(s, a))
  }

  ghost function Views(states: seq<TreeState>): seq<State> {
    seq(|states|, i requires 0 <= i < |states| => View(states[i]))
  }

  /** All runs with at most `m` latches are runs of a manager over a set, and the tree keeps its shape. */
  ghost predicate ActsAsSet(m: nat) {
    forall states: seq<TreeState>, actions: seq<Action> :: IsTreeRun(states, actions) && IsSmall(states, m) ==>
      IsRun(Views(states), actions) && forall i :: 0 <= i < |states| ==> Shaped(states[i].tree)
  }

  // ---------- counting ----------

  lemma {:induction false} KidCountConcat(a: seq<Tree>, b: seq<Tree>)
    ensures KidCount(a + b) == KidCount(a) + KidCount(b)
    decreases |a|
  {
    if a == [] {
      assert a + b == b;
    } else {
      KidCountConcat(a[1..], b);
      assert (a + b)[1..] == a[1..] + b;
    }
  }

  /** Around one child. */
  lemma KidCountAround(kids: seq<Tree>, i: nat)
    requires i < |kids|
    ensures KidCount(kids) == KidCount(kids[..i]) + Count(kids[i]) + KidCount(kids[i + 1..])
  {
    assert kids == kids[..i] + [kids[i]] + kids[i + 1..];
    KidCountConcat(kids[..i] + [kids[i]], kids[i + 1..]);
    KidCountConcat(kids[..i], [kids[i]]);
  }

  lemma ReplacedCount(t: Tree, i: nat, sub: Inserted)
    requires t.Inner? && i < |t.kids| && |t.kids| == |t.keys| + 1
    ensures Count(Replaced(t, i, sub)) == Count(t) - Count(t.kids[i]) + CountOf(sub)
  {
    hide Count, KidCount;
    InnerCount(t);
    InnerCount(Replaced(t, i, sub));
    var kids := t.kids[i := sub.left];
    KidCountAround(t.kids, i);
    KidCountAround(kids, i);
    assert kids[..i] == t.kids[..i] && kids[i + 1..] == t.kids[i + 1..];
    if sub.split.Some? {
      var (key, right) := sub.split.value;
      var pos := Position(t.keys, key) + 1;
      var kids' := InsertAt(kids, pos, right);
      KidCountAround(kids', pos);
      assert kids'[..pos] == kids[..pos] && kids'[pos + 1..] == kids[pos..];
      KidCountConcat(kids[..pos], kids[pos..]);
      assert kids == kids[..pos] + kids[pos..];
    }
  }

  lemma InnerCount(t: Tree)
    requires t.Inner?
    ensures Count(t) == KidCount(t.kids)
  {
  }

  function CountOf(ins: Inserted): nat {
    Count(ins.left) + if ins.split.Some? then Count(ins.split.value.1) else 0
  }

  /** Insertion adds one latch if it acquires it. */
  lemma {:induction false} InsertCounts(t: Tree, r: Range, order: nat)
    requires Shaped(t) && order > 0
    ensures
      var ins := TreeInsert(t, r, order);
      CountOf(ins) == Count(t) + if ins.acquired then 1 else 0
  {
    hide KidCount;
    if t.Inner? {
      var i := Position(t.keys, r.startKey);
      var sub := TreeInsert(t.kids[i], r, order);
      InsertCounts(t.kids[i], r, order);
      var t' := Replaced(t, i, sub);
      ReplacedCount(t, i, sub);
      if sub.acquired && |t'.keys| >= order {
        var mid := |t'.keys| / 2;
        InnerCount(t');
        InnerCount(SplitInner(t').0);
        InnerCount(SplitInner(t').1.value.1);
        KidCountConcat(t'.kids[..mid + 1], t'.kids[mid + 1..]);
        assert t'.kids == t'.kids[..mid + 1] + t'.kids[mid + 1..];
      }
    }
  }

  lemma RootCount(ins: Inserted)
    ensures Count(NewRoot(ins)) == CountOf(ins)
  {
    if ins.split.Some? {
      var (sep, right) := ins.split.value;
      assert [ins.left, right] == [ins.left] + [right];
      KidCountConcat([ins.left], [right]);
    }
  }

  // ---------- up to four latches ----------

  /** A well-formed tree of at most two levels. */
  ghost predicate IsLow(t: Tree) {
    WellFormed(t, ORDER, if t.Leaf? then 0 else 1, None, None, LeastAtRoot(t))
  }

  lemma LowIsShaped(t: Tree)
    requires IsLow(t)
    ensures Shaped(t)
  {
    TwoLevelsAreLocal(t, ORDER, if t.Leaf? then 0 else 1);
  }

  /** A root over leaves splits only if they hold four latches. */
  lemma {:induction false} SplitNeedsFour(t: Tree, r: Range)
    requires IsLow(t) && t.Inner? && Shaped(t) && TreeInsert(t, r, ORDER).split.Some?
    ensures Count(t) >= 4
  {
    hide CompareFrom, StrictlySorted, Strictly, Ranges, HasStart, Within, Position, Count;
    InsertIsGood(t, r, ORDER, 1, None, None, 1);
    FamilyOccupied(t, ORDER, None, None);
    var i := Position(t.keys, r.startKey);
    var sub := TreeInsert(t.kids[i], r, ORDER);
    assert |t.keys| == 2 && |t.kids| == 3;
    if Size(t.kids[i]) < 2 {
      SafeChildNeverSplits(t.kids[i], r, ORDER);
    }
    assert t.kids == [t.kids[0]] + [t.kids[1]] + [t.kids[2]];
    InnerCount(t);
    KidCountConcat([t.kids[0]] + [t.kids[1]], [t.kids[2]]);
    KidCountConcat([t.kids[0]], [t.kids[1]]);
    forall j | 0 <= j < 3 ensures KidCount([t.kids[j]]) == Size(t.kids[j]) >= 1 {
      LeafCount(t.kids[j]);
    }
  }

  lemma LeafCount(t: Tree)
    requires t.Leaf?
    ensures Count(t) == Size(t)
  {
  }

  /** Insertion into a low tree that stays at four latches. */
  lemma {:induction false} LowInsert(t: Tree, key: Key)
    requires IsLow(t) && Shaped(t)
    requires
      var ins := TreeInsert(t, Range(key, key), ORDER);
      ins.acquired ==> Count(NewRoot(ins)) <= 4
    ensures
      var ins := TreeInsert(t, Range(key, key), ORDER);
      IsLow(NewRoot(ins)) && (ins.acquired <==> !HasStart(t, key)) &&
      Ranges(NewRoot(ins)) == if ins.acquired then Ranges(t) + {Range(key, key)} else Ranges(t)
  {
    hide CompareFrom, StrictlySorted, Strictly, Ranges, HasStart, Within, Position, Count;
    var r := Range(key, key);
    var ins := TreeInsert(t, r, ORDER);
    RootInsert(t, r, ORDER, if t.Leaf? then 0 else 1);
    if ins.split.Some? && t.Inner? {
      SplitNeedsFour(t, r);
      InsertCounts(t, r, ORDER);
      RootCount(ins);
    }
    if ins.split.None? {
    }
  }

  lemma {:induction false} LowDelete(t: Tree, key: Key)
    requires IsLow(t) && Shaped(t)
    ensures
      var r := TreeDelete(t, key, ORDER);
      r.Done? && IsLow(r.tree) && Ranges(r.tree) == Minus(Ranges(t), key)
  {
    hide CompareFrom, Ranges, TreeDelete;
    TwoLevelsAreLocal(t, ORDER, if t.Leaf? then 0 else 1);
    LocalDeletionKeeps(t, key, ORDER, if t.Leaf? then 0 else 1);
    var t' := TreeDelete(t, key, ORDER).tree;
    if t.Leaf? {
      RootLeafLoses(t, key, ORDER);
    }
  }

  /** One step with at most four latches is a step of the manager over a set. */
  lemma {:induction false} LowStep(s: TreeState, a: Action)
    requires IsLow(s.tree) && IsDue(s, a) && Succeeds(s, a) && Count(TreeStep(s, a).tree) <= 4
    ensures
      var s' := TreeStep(s, a);
      IsLow(s'.tree) && Enabled(View(s), a) && View(s') == Step(View(s), a)
  {
    hide CompareFrom, Ranges, TreeInsert, TreeDelete, NewRoot, IsLow, Count;
    var s' := TreeStep(s, a);
    if a.Insert? {
      var key := KeyOf(s, a);
      LowInsert(s.tree, key);
      assert HasStart(s.tree, key) <==> key in View(s).latches;
      if TreeInsert(s.tree, Range(key, key), ORDER).acquired {
        assert Range(key, key) in Ranges(s'.tree);
        assert View(s').latches == View(s).latches + {key};
      } else {
        assert s' == s;
      }
    } else if a.Delete? {
      LowDelete(s.tree, KeyOf(s, a));
      assert View(s').latches == View(s).latches - {KeyOf(s, a)};
    }
  }

  lemma {:induction false} LowRun(states: seq<TreeState>, actions: seq<Action>, i: nat)
    requires IsTreeRun(states, actions) && IsSmall(states, 4) && i < |states|
    ensures IsLow(states[i].tree)
  {
    if i > 0 {
      LowRun(states, actions, i - 1);
      assert Count(states[i].tree) <= 4;
      LowStep(states[i - 1], actions[i - 1]);
    }
  }

  lemma FourActAsSet()
    ensures ActsAsSet(4)
  {
    hide TreeStep, IsLow, Step, View;
    forall states: seq<TreeState>, actions: seq<Action> | IsTreeRun(states, actions) && IsSmall(states, 4)
      ensures IsRun(Views(states), actions) && forall i :: 0 <= i < |states| ==> Shaped(states[i].tree)
    {
      forall i | 0 <= i < |states| ensures Shaped(states[i].tree) {
        LowRun(states, actions, i);
        LowIsShaped(states[i].tree);
      }
      forall i | 0 <= i < |actions|
        ensures Enabled(Views(states)[i], actions[i]) && Views(states)[i + 1] == Step(Views(states)[i], actions[i])
      {
        LowRun(states, actions, i);
        assert Count(states[i + 1].tree) <= 4;
        LowStep(states[i], actions[i]);
      }
      StartView();
    }
  }

  lemma StartView()
    ensures View(START) == EMPTY
  {
    assert Ranges(START.tree) == {};
  }

  lemma ReachedIsLow(s: TreeState)
    requires Reaches(s, 4)
    ensures IsLow(s.tree) && Shaped(s.tree)
  {
    hide IsLow;
    var states: seq<TreeState>, actions: seq<Action> :|
      IsTreeRun(states, actions) && IsSmall(states, 4) && states[|actions|] == s;
    LowRun(states, actions, |actions|);
    LowIsShaped(s.tree);
  }
}

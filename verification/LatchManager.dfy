/** `LatchManager`: requests that acquire several latches, one after the other.

    All requests run concurrently. One step of the model is one `insert` into or one `delete`
    from the latch tree, or a step that a request takes without touching the tree. The tree is
    the set of its start keys: `insert` acquires a latch exactly if its key was absent. The module
    `LatchLimits` puts the real tree in its place, and `LatchFives` says when that is the same. */
module LatchManagers {
  import opened Keys

  type RequestId = nat

  /** Where a request is in `acquire` or `release`. */
  datatype Phase =
    | Acquiring(n: nat)           // holds the first n latches and is trying to insert the next
    | BackingOff(i: nat, n: nat)  // timed out holding n latches, of which i have been deleted
    | Holding                     // `acquire` has returned the guard
    | Releasing(i: nat)           // `release` has deleted the first i latches
    | Released

  datatype Request = Request(spans: seq<Key>, phase: Phase) {
    predicate Valid() {
      match phase
      case Acquiring(n) => n <= |spans| && NoDuplicates(spans[..n])
      case BackingOff(i, n) => i <= n <= |spans| && NoDuplicates(spans[..n])
      case Holding => NoDuplicates(spans)
      case Releasing(i) => i <= |spans| && NoDuplicates(spans)
      case Released => true
    }

    /** The latches that a request has inserted and not yet deleted. */
    function Held(): seq<Key>
      requires Valid()
    {
      match phase
      case Acquiring(n) => spans[..n]
      case BackingOff(i, n) => spans[i..n]
      case Holding => spans
      case Releasing(i) => spans[i..]
      case Released => []
    }
  }

  datatype State = State(latches: set<Key>, requests: map<RequestId, Request>)

  datatype Action =
    | Arrive(id: RequestId, spans: seq<Key>)
    | Insert(id: RequestId)
    | TimeOut(id: RequestId)
    | Delete(id: RequestId)
    | Retry(id: RequestId)
    | Return(id: RequestId)
    | Release(id: RequestId)
    | Finish(id: RequestId)

  predicate Enabled(s: State, a: Action) {
    if a.Arrive? then a.id !in s.requests
    else
      a.id in s.requests &&
      var r := s.requests[a.id];
      match a
      case Arrive(_, _) => false
      case Insert(_) => r.phase.Acquiring? && r.phase.n < |r.spans|
      case TimeOut(_) => r.phase.Acquiring? && r.phase.n < |r.spans|
      case Delete(_) =>
        (r.phase.BackingOff? && r.phase.i < r.phase.n <= |r.spans|) || (r.phase.Releasing? && r.phase.i < |r.spans|)
      case Retry(_) => r.phase.BackingOff? && r.phase.i == r.phase.n
      case Return(_) => r.phase.Acquiring? && r.phase.n == |r.spans|
      case Release(_) => r.phase.Holding?
      case Finish(_) => r.phase.Releasing? && r.phase.i == |r.spans|
  }

  function Move(s: State, id: RequestId, phase: Phase): State
    requires id in s.requests
  {
    s.(requests := s.requests[id := s.requests[id].(phase := phase)])
  }

  function Step(s: State, a: Action): State
    requires Enabled(s, a)
  {
    match a
    case Arrive(id, spans) => s.(requests := s.requests[id := Request(spans, Acquiring(0))])
    case Insert(id) =>
      var r := s.requests[id];
      var key := r.spans[r.phase.n];
      if key in s.latches then s  // not acquired: the request waits
      else Move(s.(latches := s.latches + {key}), id, Acquiring(r.phase.n + 1))
    case TimeOut(id) => Move(s, id, BackingOff(0, s.requests[id].phase.n))
    case Delete(id) =>
      var r := s.requests[id];
      Move(s.(latches := s.latches - {r.spans[r.phase.i]}), id,
           if r.phase.BackingOff? then BackingOff(r.phase.i + 1, r.phase.n) else Releasing(r.phase.i + 1))
    case Retry(id) => Move(s, id, Acquiring(0))
    case Return(id) => Move(s, id, Holding)
    case Release(id) => Move(s, id, Releasing(0))
    case Finish(id) => Move(s, id, Released)
  }

  /** The latch set is the disjoint union of what the requests hold. */
  ghost predicate Inv(s: State) {
    (forall id :: id in s.requests ==> s.requests[id].Valid()) &&
    (forall id, key :: id in s.requests && key in s.requests[id].Held() ==> key in s.latches) &&
    (forall key :: key in s.latches ==> exists id :: id in s.requests && key in s.requests[id].Held()) &&
    (forall id, id' :: id in s.requests && id' in s.requests && id != id' ==>
      Disjoint(s.requests[id].Held(), s.requests[id'].Held()))
  }

  predicate Disjoint(a: seq<Key>, b: seq<Key>) {
    forall k :: k in a ==> k !in b
  }

  const EMPTY := State({}, map[])

  /** A run: the states between actions, each of which was enabled. */
  predicate IsRun(states: seq<State>, actions: seq<Action>) {
    |states| == |actions| + 1 && states[0] == EMPTY &&
    forall i :: 0 <= i < |actions| ==> Enabled(states[i], actions[i]) && states[i + 1] == Step(states[i], actions[i])
  }

  /** What the request `id` holds, also before it has arrived. */
  function HeldBy(s: State, id: RequestId): seq<Key>
    requires id in s.requests ==> s.requests[id].Valid()
  {
    if id in s.requests then s.requests[id].Held() else []
  }

  lemma {:induction false} HeldSame(s: State, s': State, id: RequestId, r': Request)
    requires Inv(s) && r'.Valid() && s' == State(s.latches, s.requests[id := r'])
    requires r'.Held() == HeldBy(s, id)
    ensures Inv(s')
  {
    forall key | key in s'.latches ensures exists id' :: id' in s'.requests && key in s'.requests[id'].Held() {
      var holder :| holder in s.requests && key in s.requests[holder].Held();
      assert key in s'.requests[holder].Held();
    }
  }

  lemma {:induction false} HeldGrows(s: State, s': State, id: RequestId, r': Request, added: Key)
    requires Inv(s) && r'.Valid() && s' == State(s.latches + {added}, s.requests[id := r'])
    requires added !in s.latches && r'.Held() == HeldBy(s, id) + [added]
    ensures Inv(s')
  {
    hide Request.Held, Request.Valid;
    forall key | key in s'.latches ensures exists id' :: id' in s'.requests && key in s'.requests[id'].Held() {
      if key == added {
        assert r'.Held()[|r'.Held()| - 1] == key;
        assert key in s'.requests[id].Held();
      } else {
        var holder :| holder in s.requests && key in s.requests[holder].Held();
        assert key in s'.requests[holder].Held();
      }
    }
    forall id1, id2 | id1 in s'.requests && id2 in s'.requests && id1 != id2
      ensures Disjoint(s'.requests[id1].Held(), s'.requests[id2].Held())
    {
      assert forall k :: k in r'.Held() ==> k == added || k in HeldBy(s, id);
      assert id1 in s.requests && id2 in s.requests ==> Disjoint(s.requests[id1].Held(), s.requests[id2].Held());
      if id1 == id {
        assert forall k :: k in s'.requests[id2].Held() ==> k in s.latches && k != added;
      } else if id2 == id {
        assert forall k :: k in s'.requests[id1].Held() ==> k in s.latches && k != added;
      }
    }
  }

  lemma {:induction false} HeldShrinks(s: State, s': State, id: RequestId, r': Request)
    requires Inv(s) && r'.Valid() && id in s.requests && s.requests[id].Held() != []
    requires
      var before := s.requests[id].Held();
      NoDuplicates(before) && r'.Held() == before[1..] && s' == State(s.latches - {before[0]}, s.requests[id := r'])
    ensures Inv(s')
  {
    hide Request.Held, Request.Valid;
    var before := s.requests[id].Held();
    var freed, kept := before[0], before[1..];
    assert before == [freed] + kept && freed !in kept;
    assert forall k :: k in kept ==> k in before;
    forall key | key in s'.latches ensures exists id' :: id' in s'.requests && key in s'.requests[id'].Held() {
      var holder :| holder in s.requests && key in s.requests[holder].Held();
      assert key in s'.requests[holder].Held();
    }
    forall id', key | id' in s'.requests && key in s'.requests[id'].Held() ensures key in s'.latches {
      assert id' != id ==> Disjoint(before, s.requests[id'].Held());
      assert key in s.requests[id'].Held() && key in s.latches && key != freed;
    }
    forall id1, id2 | id1 in s'.requests && id2 in s'.requests && id1 != id2
      ensures Disjoint(s'.requests[id1].Held(), s'.requests[id2].Held())
    {
      assert Disjoint(s.requests[id1].Held(), s.requests[id2].Held());
    }
  }

  lemma {:induction false} StepInv(s: State, a: Action)
    requires Inv(s) && Enabled(s, a)
    ensures Inv(Step(s, a))
  {
    hide Inv, Disjoint;
    InvValid(s);
    var s' := Step(s, a);
    var id := a.id;
    var r' := s'.requests[id];
    match a {
      case Insert(_) =>
        var r := s.requests[id];
        var key := r.spans[r.phase.n];
        if key !in s.latches {
          NotHeld(s, id, key);
          assert r.spans[..r.phase.n + 1] == r.spans[..r.phase.n] + [key];
          HeldGrows(s, s', id, r', key);
        }
      case Delete(_) =>
        HeldShrinks(s, s', id, r');
      case Arrive(_, spans) =>
        HeldSame(s, s', id, r');
      case TimeOut(_) =>
        HeldSame(s, s', id, r');
      case Retry(_) =>
        HeldSame(s, s', id, r');
      case Return(_) =>
        var r := s.requests[id];
        assert r.spans[..|r.spans|] == r.spans;
        HeldSame(s, s', id, r');
      case Release(_) =>
        HeldSame(s, s', id, r');
      case Finish(_) =>
        HeldSame(s, s', id, r');
    }
  }

  lemma InvValid(s: State)
    requires Inv(s)
    ensures forall id :: id in s.requests ==> s.requests[id].Valid()
  {
  }

  lemma NotHeld(s: State, id: RequestId, key: Key)
    requires Inv(s) && key !in s.latches && id in s.requests
    ensures key !in s.requests[id].Held()
  {
  }

  lemma {:induction false} RunInv(states: seq<State>, actions: seq<Action>, i: nat)
    requires IsRun(states, actions) && i < |states|
    ensures Inv(states[i])
  {
    if i > 0 {
      RunInv(states, actions, i - 1);
      StepInv(states[i - 1], actions[i - 1]);
    }
  }

  // ---------- consequences for every reachable state ----------

  /** No key is latched for two requests, be they complete or not. */
  lemma MutualExclusion(states: seq<State>, actions: seq<Action>, i: nat, id: RequestId, id': RequestId)
    requires IsRun(states, actions) && i < |states|
    requires id in states[i].requests && id' in states[i].requests && id != id'
    requires states[i].requests[id].phase.Holding? && states[i].requests[id'].phase.Holding?
    ensures Disjoint(states[i].requests[id].spans, states[i].requests[id'].spans)
  {
    RunInv(states, actions, i);
    assert Disjoint(states[i].requests[id].Held(), states[i].requests[id'].Held());
  }

  /** While a guard is held, all its keys are latched, and only for its request. */
  lemma GuardCoversSpans(states: seq<State>, actions: seq<Action>, i: nat, id: RequestId, key: Key)
    requires IsRun(states, actions) && i < |states|
    requires id in states[i].requests && states[i].requests[id].phase.Holding? && key in states[i].requests[id].spans
    ensures key in states[i].latches
    ensures forall id' :: id' in states[i].requests && id' != id && states[i].requests[id'].Valid() ==>
      key !in states[i].requests[id'].Held()
  {
    RunInv(states, actions, i);
    forall id' | id' in states[i].requests && id' != id ensures key !in states[i].requests[id'].Held() {
      assert Disjoint(states[i].requests[id].Held(), states[i].requests[id'].Held());
    }
  }

  /** A latch is refused only because another request, or the request itself earlier on, has
      inserted it. */
  lemma RefusalHasAHolder(states: seq<State>, actions: seq<Action>, i: nat)
    requires IsRun(states, actions) && i < |actions|
    requires actions[i].Insert? && states[i + 1] == states[i]
    ensures
      var s := states[i];
      var r := s.requests[actions[i].id];
      exists id :: id in s.requests && s.requests[id].Valid() && r.spans[r.phase.n] in s.requests[id].Held()
  {
    RunInv(states, actions, i);
    var s, a := states[i], actions[i];
    var r := s.requests[a.id];
    assert Step(s, a).latches == s.latches + {r.spans[r.phase.n]};
  }

  /** No latch is left behind by requests that are done. */
  lemma NothingLeaks(states: seq<State>, actions: seq<Action>, i: nat)
    requires IsRun(states, actions) && i < |states|
    requires forall id :: id in states[i].requests ==> states[i].requests[id].phase.Released?
    ensures states[i].latches == {}
  {
    RunInv(states, actions, i);
    assert forall id :: id in states[i].requests ==> states[i].requests[id].Held() == [];
  }

  /** A request that names a key twice never gets its guard: it waits for itself. */
  lemma DuplicateKeysAreNeverGranted(states: seq<State>, actions: seq<Action>, i: nat, id: RequestId)
    requires IsRun(states, actions) && i < |states|
    requires id in states[i].requests && !NoDuplicates(states[i].requests[id].spans)
    ensures !states[i].requests[id].phase.Holding?
  {
    RunInv(states, actions, i);
  }
}

/** Which requests for latches can be granted. */
module LatchGrants {
  import opened Keys
  import opened LatchManagers

  ghost predicate HasGuard(s: State, id: RequestId, spans: seq<Key>) {
    id in s.requests && s.requests[id] == Request(spans, Holding)
  }

  /** A run goes on. */
  ghost predicate GoesOn(states: seq<State>, actions: seq<Action>, later: seq<State>, more: seq<Action>) {
    IsRun(later, more) && states <= later && actions <= more
  }

  /** The run can go on until the request has its guard. */
  ghost predicate CanBeGranted(states: seq<State>, actions: seq<Action>, id: RequestId, spans: seq<Key>) {
    exists later: seq<State>, more: seq<Action> ::
      GoesOn(states, actions, later, more) && HasGuard(later[|more|], id, spans)
  }

  // ---------- letting go ----------

  /** It holds no key, and none of its steps is due. */
  predicate IsIdle(r: Request) {
    r.phase.Released? || (r.phase.BackingOff? && r.phase.i >= r.phase.n)
  }

  /** A request on its way to idleness: it goes on as long as it is not refused, times out when it
      is, and releases its guard at once. */
  function WayOut(s: State, id: RequestId): Action
    requires id in s.requests
  {
    var Request(spans, phase) := s.requests[id];
    match phase
    case Acquiring(n) =>
      if n >= |spans| then Return(id) else if spans[n] in s.latches then TimeOut(id) else Insert(id)
    case BackingOff(_, _) => Delete(id)
    case Holding => Release(id)
    case Releasing(i) => if i < |spans| then Delete(id) else Finish(id)
    case Released => Finish(id)
  }

  /** A bound on the steps of that way. */
  function StepsAhead(r: Request): nat
    requires r.Valid()
  {
    match r.phase
    case Acquiring(n) => 2 * |r.spans| - n + 3
    case BackingOff(i, n) => n - i
    case Holding => |r.spans| + 2
    case Releasing(i) => |r.spans| - i + 1
    case Released => 0
  }

  /** Only the request `id` has changed, and it still asks for the same. */
  predicate OnlyChanges(s: State, s': State, id: RequestId) {
    s'.requests.Keys == s.requests.Keys &&
    forall k :: k in s.requests ==>
      if k == id then s'.requests[k].spans == s.requests[k].spans &&
        (s.requests[k].phase.BackingOff? ==> s'.requests[k].phase.BackingOff?)
      else s'.requests[k] == s.requests[k]
  }

  predicate LetsGo(s: State, s': State, id: RequestId) {
    OnlyChanges(s, s', id) && id in s'.requests && IsIdle(s'.requests[id])
  }

  lemma OnTheWay(s: State, id: RequestId)
    requires Inv(s) && id in s.requests && !IsIdle(s.requests[id])
    ensures
      var a := WayOut(s, id);
      Enabled(s, a) && OnlyChanges(s, Step(s, a), id) && Inv(Step(s, a)) &&
      s.requests[id].Valid() && Step(s, a).requests[id].Valid() &&
      StepsAhead(Step(s, a).requests[id]) < StepsAhead(s.requests[id])
  {
    hide Inv, Request.Held;
    InvValid(s);
    assert Enabled(s, WayOut(s, id));
    StepInv(s, WayOut(s, id));
    InvValid(Step(s, WayOut(s, id)));
  }

  /** Every request can let go of its keys, without the others. */
  lemma {:induction false} LetGo(states: seq<State>, actions: seq<Action>, id: RequestId)
    requires IsRun(states, actions) && id in states[|actions|].requests && states[|actions|].requests[id].Valid()
    ensures exists later: seq<State>, more: seq<Action> ::
      GoesOn(states, actions, later, more) && LetsGo(states[|actions|], later[|more|], id)
    decreases StepsAhead(states[|actions|].requests[id])
  {
    hide Enabled, Step, Inv, WayOut, StepsAhead, IsIdle, Request.Valid;
    var s := states[|actions|];
    if IsIdle(s.requests[id]) {
      assert GoesOn(states, actions, states, actions) && LetsGo(s, s, id);
    } else {
      RunInv(states, actions, |actions|);
      OnTheWay(s, id);
      var a := WayOut(s, id);
      var states', actions' := states + [Step(s, a)], actions + [a];
      assert states'[|actions'|] == Step(s, a);
      LetGo(states', actions', id);
      var later: seq<State>, more: seq<Action> :|
        GoesOn(states', actions', later, more) && LetsGo(Step(s, a), later[|more|], id);
      assert GoesOn(states, actions, later, more) && LetsGo(s, later[|more|], id);
    }
  }

  /** The other requests that hold keys or are about to take some. */
  function Busy(s: State, id: RequestId): set<RequestId> {
    set k | k in s.requests && k != id && !IsIdle(s.requests[k])
  }

  ghost predicate IsAlone(s: State, id: RequestId, r: Request) {
    id in s.requests && s.requests[id] == r && Busy(s, id) == {}
  }

  lemma OneLess(s: State, s': State, id: RequestId, k: RequestId)
    requires LetsGo(s, s', k) && k in Busy(s, id) && id in s.requests
    ensures s'.requests.Keys == s.requests.Keys && s'.requests[id] == s.requests[id]
    ensures Busy(s', id) == Busy(s, id) - {k} && |Busy(s', id)| < |Busy(s, id)|
  {
    assert Busy(s', id) == Busy(s, id) - {k};
  }

  /** All others can let go, and leave the request where it is. */
  lemma {:induction false} OthersLetGo(states: seq<State>, actions: seq<Action>, id: RequestId)
    requires IsRun(states, actions) && id in states[|actions|].requests
    ensures exists later: seq<State>, more: seq<Action> ::
      GoesOn(states, actions, later, more) && IsAlone(later[|more|], id, states[|actions|].requests[id])
    decreases |Busy(states[|actions|], id)|
  {
    hide Enabled, Step, Inv, Request.Valid, IsIdle, LetsGo;
    var s := states[|actions|];
    if Busy(s, id) == {} {
      assert GoesOn(states, actions, states, actions) && IsAlone(s, id, s.requests[id]);
    } else {
      var k :| k in Busy(s, id);
      RunInv(states, actions, |actions|);
      InvValid(s);
      LetGo(states, actions, k);
      var states': seq<State>, actions': seq<Action> :|
        GoesOn(states, actions, states', actions') && LetsGo(s, states'[|actions'|], k);
      OneLess(s, states'[|actions'|], id, k);
      OthersLetGo(states', actions', id);
      var later: seq<State>, more: seq<Action> :|
        GoesOn(states', actions', later, more) && IsAlone(later[|more|], id, s.requests[id]);
      assert GoesOn(states, actions, later, more);
    }
  }

  /** A request that is alone has all latches. */
  lemma AloneHoldsAll(s: State, id: RequestId)
    requires Inv(s) && id in s.requests && Busy(s, id) == {}
    ensures s.requests[id].Valid() && forall key :: key in s.latches ==> key in s.requests[id].Held()
  {
    forall key | key in s.latches ensures key in s.requests[id].Held() {
      var k :| k in s.requests && key in s.requests[k].Held();
      assert k != id ==> k !in Busy(s, id);
    }
  }

  // ---------- getting the guard ----------

  /** The request holds the first `n` of its keys, and the others are free. */
  ghost predicate HoldsSome(s: State, id: RequestId, spans: seq<Key>, n: nat) {
    n <= |spans| && id in s.requests && s.requests[id] == Request(spans, Acquiring(n)) &&
    forall i :: n <= i < |spans| ==> spans[i] !in s.latches
  }

  lemma {:induction false} GuardFrom(states: seq<State>, actions: seq<Action>, id: RequestId, spans: seq<Key>, n: nat)
    requires IsRun(states, actions) && HoldsSome(states[|actions|], id, spans, n) && NoDuplicates(spans)
    ensures CanBeGranted(states, actions, id, spans)
    decreases |spans| - n
  {
    var s := states[|actions|];
    var a := if n == |spans| then Return(id) else Insert(id);
    var states', actions' := states + [Step(s, a)], actions + [a];
    assert GoesOn(states, actions, states', actions');
    if n == |spans| {
      assert HasGuard(states'[|actions'|], id, spans);
    } else {
      GuardFrom(states', actions', id, spans, n + 1);
    }
  }

  lemma AloneCanBeGranted(states: seq<State>, actions: seq<Action>, id: RequestId, r: Request)
    requires IsRun(states, actions) && IsAlone(states[|actions|], id, r) && NoDuplicates(r.spans)
    requires r.phase.Acquiring? || (IsIdle(r) && r.phase.BackingOff?)
    ensures CanBeGranted(states, actions, id, r.spans)
  {
    var s := states[|actions|];
    RunInv(states, actions, |actions|);
    AloneHoldsAll(s, id);
    if r.phase.Acquiring? {
      assert HoldsSome(s, id, r.spans, r.phase.n);
      GuardFrom(states, actions, id, r.spans, r.phase.n);
    } else {
      var a := Retry(id);
      var states', actions' := states + [Step(s, a)], actions + [a];
      assert HoldsSome(states'[|actions'|], id, r.spans, 0);
      GuardFrom(states', actions', id, r.spans, 0);
    }
  }

  /** From every reachable state, whatever the others hold: a request that is acquiring its keys or
      has timed out can get its guard later if and only if it names no key twice. */
  lemma WaitingCanBeGrantedIff(states: seq<State>, actions: seq<Action>, id: RequestId)
    requires IsRun(states, actions) && id in states[|actions|].requests
    requires states[|actions|].requests[id].phase.Acquiring? || states[|actions|].requests[id].phase.BackingOff?
    ensures
      var spans := states[|actions|].requests[id].spans;
      CanBeGranted(states, actions, id, spans) <==> NoDuplicates(spans)
  {
    hide Enabled, Step, Inv;
    var r := states[|actions|].requests[id];
    if CanBeGranted(states, actions, id, r.spans) {
      GuardIsDistinct(states, actions, id, r.spans);
    }
    if NoDuplicates(r.spans) {
      OthersLetGo(states, actions, id);
      var states': seq<State>, actions': seq<Action> :|
        GoesOn(states, actions, states', actions') && IsAlone(states'[|actions'|], id, r);
      if r.phase.BackingOff? {
        AloneLetsGo(states', actions', id, r);
      } else {
        AloneCanBeGranted(states', actions', id, r);
      }
    }
  }

  lemma AloneLetsGo(states: seq<State>, actions: seq<Action>, id: RequestId, r: Request)
    requires IsRun(states, actions) && IsAlone(states[|actions|], id, r) && NoDuplicates(r.spans) && r.phase.BackingOff?
    ensures CanBeGranted(states, actions, id, r.spans)
  {
    hide Enabled, Step, Inv, Request.Valid;
    var s := states[|actions|];
    RunInv(states, actions, |actions|);
    InvValid(s);
    LetGo(states, actions, id);
    var later: seq<State>, more: seq<Action> :|
      GoesOn(states, actions, later, more) && LetsGo(s, later[|more|], id);
    var s' := later[|more|];
    assert Busy(s', id) <= Busy(s, id);
    AloneCanBeGranted(later, more, id, s'.requests[id]);
  }

  lemma GuardIsDistinct(states: seq<State>, actions: seq<Action>, id: RequestId, spans: seq<Key>)
    requires IsRun(states, actions) && CanBeGranted(states, actions, id, spans)
    ensures NoDuplicates(spans)
  {
    var later: seq<State>, more: seq<Action> :|
      GoesOn(states, actions, later, more) && HasGuard(later[|more|], id, spans);
    RunInv(later, more, |more|);
  }

  /** From every reachable state, a new request can get its guard if and only if it names no key twice. */
  lemma CanBeGrantedIff(states: seq<State>, actions: seq<Action>, id: RequestId, spans: seq<Key>)
    requires IsRun(states, actions) && id !in states[|actions|].requests
    ensures CanBeGranted(states, actions, id, spans) <==> NoDuplicates(spans)
  {
    hide Enabled, Inv;
    var a := Arrive(id, spans);
    Arrives(states, actions, a);
    var states', actions' := states + [Step(states[|actions|], a)], actions + [a];
    WaitingCanBeGrantedIff(states', actions', id);
    if CanBeGranted(states, actions, id, spans) {
      GuardIsDistinct(states, actions, id, spans);
    } else if NoDuplicates(spans) {
    }
  }

  lemma Arrives(states: seq<State>, actions: seq<Action>, a: Action)
    requires IsRun(states, actions) && a.Arrive? && a.id !in states[|actions|].requests
    ensures Enabled(states[|actions|], a)
    ensures GoesOn(states, actions, states + [Step(states[|actions|], a)], actions + [a])
  {
  }
}

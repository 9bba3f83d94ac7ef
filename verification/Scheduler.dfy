/** The template build scheduler (ludus-api/api_template_management.go): build
    requests, their goroutines and aborts share one progress store. Every store
    operation is a step of its own; a check and the write that depends on it can
    be separated, as in the source, or taken together. */
module Scheduler {
  import opened Options

  datatype Phase = Queued | Running | Unlisting(seen: bool) | Unlisted | Finished
  datatype Build = Build(name: string, phase: Phase)

  /** One call of buildVMsFromTemplates: names still to check, a name whose check
      passed and whose store is due, names to launch, goroutines, slots taken. */
  datatype Request = Request(user: string, parallel: nat, todo: seq<string>, checked: Option<string>,
                             planned: seq<string>, builds: seq<Build>, tokens: nat)

  /** One call of AbortPacker: an entry it saw and is about to delete. */
  datatype Abort = Abort(user: string, pending: Option<string>)

  datatype State = State(store: map<string, string>, requests: seq<Request>, aborts: seq<Abort>)

  datatype Step =
    | Begin(user: string, parallel: nat, todo: seq<string>)
    | Load(r: nat)
    | Store(r: nat)
    | LoadAndStore(r: nat)
    | Canary(r: nat)
    | Launch(r: nat)
    | Acquire(r: nat, b: nat)
    | Observe(r: nat, b: nat)
    | Delete(r: nat, b: nat)
    | ObserveAndDelete(r: nat, b: nat)
    | Release(r: nat, b: nat)
    | BeginAbort(user: string)
    | AbortObserve(a: nat, name: string)
    | AbortDelete(a: nat)
    | AbortObserveAndDelete(a: nat, name: string)

  const START := State(map[], [], [])

  function WithRequest(s: State, r: nat, q: Request): State
    requires r < |s.requests|
  {
    s.(requests := s.requests[r := q])
  }

  function WithPhase(q: Request, b: nat, p: Phase): Request
    requires b < |q.builds|
  {
    q.(builds := q.builds[b := q.builds[b].(phase := p)])
  }

  /** The state after a step, or None when the step cannot be taken. */
  function Apply(s: State, step: Step): Option<State>
  {
    match step
    case Begin(user, parallel, todo) =>
      Some(s.(requests := s.requests + [Request(user, parallel, todo, None, [], [], 0)]))
    case BeginAbort(user) => Some(s.(aborts := s.aborts + [Abort(user, None)]))
    case AbortObserve(a, name) =>
      if a < |s.aborts| && s.aborts[a].pending.None? && name in s.store && s.store[name] == s.aborts[a].user
      then Some(s.(aborts := s.aborts[a := s.aborts[a].(pending := Some(name))])) else None
    case AbortDelete(a) =>
      if a < |s.aborts| && s.aborts[a].pending.Some?
      then Some(s.(store := s.store - {s.aborts[a].pending.value},
                   aborts := s.aborts[a := s.aborts[a].(pending := None)]))
      else None
    case AbortObserveAndDelete(a, name) =>
      if a < |s.aborts| && name in s.store && s.store[name] == s.aborts[a].user
      then Some(s.(store := s.store - {name})) else None
    case _ => if step.r < |s.requests| then ApplyRequest(s, step) else None
  }

  predicate OfRequest(step: Step)
  {
    !(step.Begin? || step.BeginAbort? || step.AbortObserve? || step.AbortDelete? || step.AbortObserveAndDelete?)
  }

  function ApplyRequest(s: State, step: Step): Option<State>
    requires OfRequest(step) && step.r < |s.requests|
  {
    var q := s.requests[step.r];
    match step
    case Load(r) =>
      if q.checked.None? && q.todo != [] then
        Some(WithRequest(s, r,
                         q.(todo := q.todo[1..], checked := if q.todo[0] in s.store then None else Some(q.todo[0]))))
      else None
    case Store(r) =>
      if q.checked.Some? then
        Some(WithRequest(s, r, q.(checked := None, planned := q.planned + [q.checked.value]))
             .(store := s.store[q.checked.value := q.user]))
      else None
    case LoadAndStore(r) =>
      if q.checked.None? && q.todo != [] then
        if q.todo[0] in s.store then Some(WithRequest(s, r, q.(todo := q.todo[1..])))
        else Some(WithRequest(s, r, q.(todo := q.todo[1..], planned := q.planned + [q.todo[0]]))
                  .(store := s.store[q.todo[0] := q.user]))
      else None
    case Canary(r) => if q.checked.None? then Some(WithRequest(s, r, q.(todo := []))) else None
    case Launch(r) =>
      if q.checked.None? && q.todo == [] && q.planned != [] then
        Some(WithRequest(s, r, q.(planned := q.planned[1..], builds := q.builds + [Build(q.planned[0], Queued)])))
      else None
    case _ => if step.b < |q.builds| then ApplyBuild(s, step) else None
  }

  predicate OfBuild(step: Step)
  {
    step.Acquire? || step.Observe? || step.Delete? || step.ObserveAndDelete? || step.Release?
  }

  function ApplyBuild(s: State, step: Step): Option<State>
    requires OfBuild(step) && step.r < |s.requests| && step.b < |s.requests[step.r].builds|
  {
    var q := s.requests[step.r];
    var build := q.builds[step.b];
    var mine := build.name in s.store && s.store[build.name] == q.user;
    match step
    case Acquire(r, b) =>
      if build.phase.Queued? && q.tokens < q.parallel
      then Some(WithRequest(s, r, WithPhase(q, b, Running).(tokens := q.tokens + 1))) else None
    case Observe(r, b) =>
      if build.phase.Running? then Some(WithRequest(s, r, WithPhase(q, b, Unlisting(mine)))) else None
    case Delete(r, b) =>
      if build.phase.Unlisting? then
        Some(WithRequest(s, r, WithPhase(q, b, Unlisted))
             .(store := if build.phase.seen then s.store - {build.name} else s.store))
      else None
    case ObserveAndDelete(r, b) =>
      if build.phase.Running? then
        Some(WithRequest(s, r, WithPhase(q, b, Unlisted)).(store := if mine then s.store - {build.name} else s.store))
      else None
    case Release(r, b) =>
      if build.phase.Unlisted? && q.tokens > 0
      then Some(WithRequest(s, r, WithPhase(q, b, Finished).(tokens := q.tokens - 1))) else None
  }

  function Run(steps: seq<Step>): Option<State>
  {
    if steps == [] then Some(START)
    else
      var before := Run(steps[..|steps| - 1]);
      if before.None? then None else Apply(before.value, steps[|steps| - 1])
  }

  /** What a look records is how things stand at that moment: an abort picks out only its
      own user's entries, and a build notes whether its entry is its user's. */
  lemma LooksAreTrue(s: State, step: Step)
    requires Apply(s, step).Some?
    ensures step.AbortObserve? ==>
      && step.a < |s.aborts| && s.aborts[step.a].pending.None?
      && step.name in s.store && s.store[step.name] == s.aborts[step.a].user
      && Apply(s, step) == Some(s.(aborts := s.aborts[step.a := Abort(s.aborts[step.a].user, Some(step.name))]))
    ensures step.Observe? ==>
      && step.r < |s.requests| && step.b < |s.requests[step.r].builds|
      && var q := s.requests[step.r];
         var name := q.builds[step.b].name;
         Apply(s, step) == Some(s.(requests := s.requests[step.r := q.(builds := q.builds[step.b :=
           Build(name, Unlisting(name in s.store && s.store[name] == q.user))])]))
  {
  }

  // ---------------------------------------------------------------- Slots

  predicate HoldsSlot(b: Build)
  {
    b.phase.Running? || b.phase.Unlisting? || b.phase.Unlisted?
  }

  function Holders(builds: seq<Build>): nat
  {
    if builds == [] then 0 else Holders(builds[..|builds| - 1]) + (if HoldsSlot(builds[|builds| - 1]) then 1 else 0)
  }

  lemma {:induction false} HoldersUpdate(builds: seq<Build>, b: nat, x: Build)
    requires b < |builds|
    ensures Holders(builds[b := x]) + (if HoldsSlot(builds[b]) then 1 else 0)
      == Holders(builds) + (if HoldsSlot(x) then 1 else 0)
  {
    if b < |builds| - 1 {
      HoldersUpdate(builds[..|builds| - 1], b, x);
      assert builds[b := x][..|builds| - 1] == builds[..|builds| - 1][b := x];
    } else {
      assert builds[b := x][..|builds| - 1] == builds[..|builds| - 1];
    }
  }

  ghost predicate Fits(q: Request)
  {
    q.tokens == Holders(q.builds) && q.tokens <= q.parallel
  }

  ghost predicate SlotsOk(s: State)
  {
    forall r :: 0 <= r < |s.requests| ==> Fits(s.requests[r])
  }

  /** A request's step changes no other request. */
  lemma StepIsLocal(s: State, step: Step)
    requires OfRequest(step) && Apply(s, step).Some?
    ensures step.r < |s.requests|
    ensures var t := Apply(s, step).value;
            |t.requests| == |s.requests| && t.requests == s.requests[step.r := t.requests[step.r]]
              && t.aborts == s.aborts
  {
  }

  lemma BuildStepFits(s: State, step: Step)
    requires OfBuild(step) && step.r < |s.requests| && step.b < |s.requests[step.r].builds|
    requires Fits(s.requests[step.r]) && ApplyBuild(s, step).Some?
    ensures Fits(ApplyBuild(s, step).value.requests[step.r])
  {
    var q := s.requests[step.r];
    var q' := ApplyBuild(s, step).value.requests[step.r];
    assert q'.builds == q.builds[step.b := q'.builds[step.b]];
    HoldersUpdate(q.builds, step.b, q'.builds[step.b]);
  }

  lemma RequestStepFits(s: State, step: Step)
    requires OfRequest(step) && Apply(s, step).Some? && Fits(s.requests[step.r])
    ensures Fits(Apply(s, step).value.requests[step.r])
  {
    if OfBuild(step) {
      hide Fits, ApplyBuild;
      BuildStepFits(s, step);
    } else if step.Launch? {
      hide Holders;
      LaunchHoldsNothing(s.requests[step.r].builds, s.requests[step.r].planned[0]);
    } else {
      hide Holders;
    }
  }

  lemma LaunchHoldsNothing(builds: seq<Build>, name: string)
    ensures Holders(builds + [Build(name, Queued)]) == Holders(builds)
  {
    assert (builds + [Build(name, Queued)])[..|builds|] == builds;
  }

  lemma StepKeepsSlots(s: State, step: Step)
    requires SlotsOk(s) && Apply(s, step).Some?
    ensures SlotsOk(Apply(s, step).value)
  {
    if OfRequest(step) {
      StepIsLocal(s, step);
      RequestStepFits(s, step);
    }
  }

  /** However requests, builds and aborts interleave, no request ever has more
      builds holding a slot than its limit. */
  lemma {:induction false} SlotsNeverExceeded(steps: seq<Step>)
    requires Run(steps).Some?
    ensures SlotsOk(Run(steps).value)
  {
    if steps != [] {
      SlotsNeverExceeded(steps[..|steps| - 1]);
      StepKeepsSlots(Run(steps[..|steps| - 1]).value, steps[|steps| - 1]);
    }
  }
}

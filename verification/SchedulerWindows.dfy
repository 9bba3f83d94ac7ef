/** Which kinds of steps let one user's build or abort touch another user's entry
    in the progress store: the exact condition, on every run. */
module SchedulerWindows {
  import opened Options
  import opened Scheduler
  import opened SchedulerStore

  /** What the runs may contain: checks taken apart from the store that depends on
      them, aborts, and looks taken apart from the delete that depends on them. */
  datatype Regime = Regime(splitChecks: bool, aborts: bool, splitDeletes: bool)

  predicate Permitted(step: Step, g: Regime)
  {
    match step
    case Load(_) => g.splitChecks
    case Store(_) => g.splitChecks
    case Observe(_, _) => g.splitDeletes
    case Delete(_, _) => g.splitDeletes
    case BeginAbort(_) => g.aborts
    case AbortObserveAndDelete(_, _) => g.aborts
    case AbortObserve(_, _) => g.aborts && g.splitDeletes
    case AbortDelete(_) => g.aborts && g.splitDeletes
    case _ => true
  }

  ghost predicate Within(steps: seq<Step>, g: Regime)
  {
    forall i :: 0 <= i < |steps| ==> Permitted(steps[i], g)
  }

  /** A run of the regime that can go on with a step of the regime. */
  ghost predicate Continues(steps: seq<Step>, step: Step, g: Regime)
  {
    Within(steps, g) && Permitted(step, g) && Run(steps).Some? && Apply(Run(steps).value, step).Some?
  }

  /** No entry that belongs to somebody else disappears. */
  ghost predicate RemovesNoOther(s: State, step: Step)
    requires Apply(s, step).Some?
  {
    forall n :: n in s.store && Actor(s, step) != Some(s.store[n]) ==> n in Apply(s, step).value.store
  }

  // ---------------------------------------------------------------- Building runs

  /** Equality of states, field by field. */
  ghost predicate Same(a: State, b: State)
  {
    && a.store == b.store && a.aborts == b.aborts && |a.requests| == |b.requests|
    && forall i :: 0 <= i < |a.requests| ==> SameRequest(a.requests[i], b.requests[i])
  }

  ghost predicate SameRequest(p: Request, q: Request)
  {
    && p.user == q.user && p.parallel == q.parallel && p.todo == q.todo && p.checked == q.checked
    && p.planned == q.planned && p.builds == q.builds && p.tokens == q.tokens
  }

  /** A run of the regime that ends in this state. */
  ghost predicate Leads(steps: seq<Step>, s: State, g: Regime)
  {
    Run(steps) == Some(s) && Within(steps, g)
  }

  lemma NoSteps(g: Regime)
    ensures Leads([], START, g)
  {
  }

  lemma Next(steps: seq<Step>, s: State, step: Step, t: State, g: Regime)
    requires Leads(steps, s, g) && Permitted(step, g) && Apply(s, step).Some? && Same(Apply(s, step).value, t)
    ensures Leads(steps + [step], t, g)
  {
    assert (steps + [step])[..|steps|] == steps;
    var a := Apply(s, step).value;
    forall i | 0 <= i < |a.requests| ensures a.requests[i] == t.requests[i] {
      assert SameRequest(a.requests[i], t.requests[i]);
    }
    assert a.requests == t.requests;
  }

  /** A permitted step that leads from the state reached to `t` makes the run longer. */
  lemma OneStep(steps: seq<Step>, s: State, step: Step, t: State, g: Regime) returns (more: seq<Step>)
    requires Leads(steps, s, g) && Permitted(step, g) && Apply(s, step).Some? && Same(Apply(s, step).value, t)
    ensures Leads(more, t, g)
  {
    more := steps + [step];
    Next(steps, s, step, t, g);
  }

  // ---------------------------------------------------------------- Two users, one template

  function Waiting(user: string): Request
  {
    Request(user, 1, ["t"], None, [], [], 0)
  }

  function Passed(user: string): Request
  {
    Request(user, 1, [], Some("t"), [], [], 0)
  }

  function Planning(user: string): Request
  {
    Request(user, 1, [], None, ["t"], [], 0)
  }

  function Building(user: string, phase: Phase, tokens: nat): Request
  {
    Request(user, 1, [], None, [], [Build("t", phase)], tokens)
  }

  /** Both checks pass before either store. */
  lemma BothPassed(g: Regime) returns (steps: seq<Step>)
    requires g.splitChecks
    ensures Leads(steps, State(map[], [Passed("u"), Passed("v")], []), g)
  {
    hide Leads;
    steps := [];
    NoSteps(g);
    steps := OneStep(steps, START, Begin("u", 1, ["t"]), State(map[], [Waiting("u")], []), g);
    steps := OneStep(steps, State(map[], [Waiting("u")], []), Begin("v", 1, ["t"]),
                     State(map[], [Waiting("u"), Waiting("v")], []), g);
    steps := OneStep(steps, State(map[], [Waiting("u"), Waiting("v")], []), Load(0),
                     State(map[], [Passed("u"), Waiting("v")], []), g);
    steps := OneStep(steps, State(map[], [Passed("u"), Waiting("v")], []), Load(1),
                     State(map[], [Passed("u"), Passed("v")], []), g);
  }

  /** Taken apart, check and store let two users plan the same template, the
      second store overwriting the first user's entry. */
  lemma LateStoreReachable(g: Regime) returns (steps: seq<Step>, s: State)
    requires g.splitChecks
    ensures Continues(steps, Store(1), g) && Run(steps) == Some(s) && Late(s, Store(1))
    ensures s == State(map["t" := "u"], [Planning("u"), Passed("v")], [])
  {
    steps := BothPassed(g);
    s := State(map["t" := "u"], [Planning("u"), Passed("v")], []);
    steps := OneStep(steps, State(map[], [Passed("u"), Passed("v")], []), Store(0), s, g);
  }

  /** One user's request, through its own store, up to the look at its entry;
      `others` are the requests begun after it. */
  lemma SeenEntry(steps: seq<Step>, s: State, others: seq<Request>, g: Regime) returns (more: seq<Step>)
    requires g.splitDeletes && Leads(steps, s, g) && s == State(map["t" := "u"], [Planning("u")] + others, [])
    ensures Leads(more, State(map["t" := "u"], [Building("u", Unlisting(true), 1)] + others, []), g)
  {
    hide Leads;
    var queued := State(map["t" := "u"], [Building("u", Queued, 0)] + others, []);
    var running := State(map["t" := "u"], [Building("u", Running, 1)] + others, []);
    more := OneStep(steps, s, Launch(0), queued, g);
    more := OneStep(more, queued, Acquire(0, 0), running, g);
    more := OneStep(more, running, Observe(0, 0),
                    State(map["t" := "u"], [Building("u", Unlisting(true), 1)] + others, []), g);
  }

  /** Taken apart, look and delete let a user's finishing build remove the entry
      another user stored in between, once an abort has cleared the first entry;
      every check-and-store may be atomic. */
  lemma LateDeleteReachable(g: Regime) returns (steps: seq<Step>, s: State)
    requires g.aborts && g.splitDeletes
    ensures Continues(steps, Delete(0, 0), g) && Run(steps) == Some(s) && Late(s, Delete(0, 0))
  {
    steps := UserBuilds(g);
    var u := Building("u", Unlisting(true), 1);
    steps := ClearedByAbort(steps, u, g);
    var cleared := State(map[], [u], [Abort("u", None)]);
    var waiting := State(map[], [u, Waiting("v")], [Abort("u", None)]);
    s := State(map["t" := "v"], [u, Planning("v")], [Abort("u", None)]);
    steps := OneStep(steps, cleared, Begin("v", 1, ["t"]), waiting, g);
    steps := OneStep(steps, waiting, LoadAndStore(1), s, g);
  }

  lemma UserBuilds(g: Regime) returns (steps: seq<Step>)
    requires g.splitDeletes
    ensures Leads(steps, State(map["t" := "u"], [Building("u", Unlisting(true), 1)], []), g)
  {
    hide Leads;
    steps := [];
    NoSteps(g);
    var planned := State(map["t" := "u"], [Planning("u")], []);
    steps := OneStep(steps, START, Begin("u", 1, ["t"]), State(map[], [Waiting("u")], []), g);
    steps := OneStep(steps, State(map[], [Waiting("u")], []), LoadAndStore(0), planned, g);
    assert [Planning("u")] + [] == [Planning("u")];
    assert [Building("u", Unlisting(true), 1)] + [] == [Building("u", Unlisting(true), 1)];
    steps := SeenEntry(steps, planned, [], g);
  }

  lemma ClearedByAbort(steps: seq<Step>, u: Request, g: Regime) returns (more: seq<Step>)
    requires g.aborts && u.user == "u" && Leads(steps, State(map["t" := "u"], [u], []), g)
    ensures Leads(more, State(map[], [u], [Abort("u", None)]), g)
  {
    hide Leads;
    var begun := State(map["t" := "u"], [u], [Abort("u", None)]);
    more := OneStep(steps, State(map["t" := "u"], [u], []), BeginAbort("u"), begun, g);
    more := OneStep(more, begun, AbortObserveAndDelete(0, "t"), State(map[], [u], [Abort("u", None)]), g);
  }

  /** Without aborts the same comes of a late store in between. */
  lemma OvertakenDeleteReachable(g: Regime) returns (steps: seq<Step>, s: State)
    requires g.splitChecks && g.splitDeletes
    ensures Continues(steps, Delete(0, 0), g) && Run(steps) == Some(s) && Late(s, Delete(0, 0))
  {
    var start;
    steps, start := LateStoreReachable(g);
    var seen := State(map["t" := "u"], [Building("u", Unlisting(true), 1), Passed("v")], []);
    s := State(map["t" := "v"], [Building("u", Unlisting(true), 1), Planning("v")], []);
    assert [Planning("u")] + [Passed("v")] == [Planning("u"), Passed("v")];
    assert [Building("u", Unlisting(true), 1)] + [Passed("v")] == seen.requests;
    steps := SeenEntry(steps, start, [Passed("v")], g);
    steps := OneStep(steps, seen, Store(1), s, g);
  }

  // ---------------------------------------------------------------- The exact conditions

  lemma LateRemoves(s: State, step: Step)
    requires Apply(s, step).Some? && Late(s, step) && !step.Store?
    ensures !RemovesNoOther(s, step)
  {
    assert Target(s, step).value !in Apply(s, step).value.store;
  }

  lemma CalmWithin(steps: seq<Step>, g: Regime)
    requires Within(steps, g) && !g.splitChecks && !g.aborts
    ensures forall i :: 0 <= i < |steps| ==> Calm(steps[i])
  {
  }

  /** In a regime that meets the condition every continuation keeps the others' entries. */
  lemma RegimeKeepsOthers(steps: seq<Step>, step: Step, g: Regime)
    requires Continues(steps, step, g) && !g.splitChecks && !(g.aborts && g.splitDeletes)
    ensures KeepsOthers(Run(steps).value, step)
  {
    hide KeepsOthers, Run, Apply;
    if g.aborts {
      AtomicStepsKeepOthers(Run(steps).value, step);
    } else {
      CalmWithin(steps, g);
      CalmRunsNeverLate(steps, step);
    }
  }

  /** On every run, every step leaves the entries of other users as they are, if and
      only if no check is taken apart from its store, and there are no aborts
      beside looks taken apart from their delete. */
  lemma RunsKeepOthersIff(g: Regime)
    ensures (forall steps, step | Continues(steps, step, g) :: KeepsOthers(Run(steps).value, step))
      <==> !g.splitChecks && !(g.aborts && g.splitDeletes)
  {
    hide Within, Run, Apply, KeepsOthers, Late, Permitted;
    if g.splitChecks {
      var steps, s := LateStoreReachable(g);
      KeepsOthersIffNotLate(s, Store(1));
    } else if g.aborts && g.splitDeletes {
      var steps, s := LateDeleteReachable(g);
      KeepsOthersIffNotLate(s, Delete(0, 0));
    } else {
      forall steps, step | Continues(steps, step, g) ensures KeepsOthers(Run(steps).value, step) {
        RegimeKeepsOthers(steps, step, g);
      }
    }
  }

  lemma RegimeRemovesNoOther(steps: seq<Step>, step: Step, g: Regime)
    requires Continues(steps, step, g) && !(g.splitDeletes && (g.aborts || g.splitChecks))
    ensures RemovesNoOther(Run(steps).value, step)
  {
    if !step.Store? {
      hide Run, Apply;
      if g.splitDeletes {
        RegimeKeepsOthers(steps, step, g);
      } else {
        AtomicStepsKeepOthers(Run(steps).value, step);
      }
    }
  }

  /** No abort and no finishing build ever removes another user's entry, on any run,
      if and only if looks are never taken apart from their delete, or there are
      neither aborts nor checks taken apart from their store. */
  lemma RunsRemoveNoOtherIff(g: Regime)
    ensures (forall steps, step | Continues(steps, step, g) :: RemovesNoOther(Run(steps).value, step))
      <==> !(g.splitDeletes && (g.aborts || g.splitChecks))
  {
    hide Within, Run, Apply, RemovesNoOther, Late, Permitted;
    if g.splitDeletes && g.aborts {
      var steps, s := LateDeleteReachable(g);
      LateRemoves(s, Delete(0, 0));
    } else if g.splitDeletes && g.splitChecks {
      var steps, s := OvertakenDeleteReachable(g);
      LateRemoves(s, Delete(0, 0));
    } else {
      forall steps, step | Continues(steps, step, g) ensures RemovesNoOther(Run(steps).value, step) {
        RegimeRemovesNoOther(steps, step, g);
      }
    }
  }
}

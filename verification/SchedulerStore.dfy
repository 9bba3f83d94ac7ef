/** What the interleavings do to the shared progress store: which steps can touch
    another user's entry, and when the store lists exactly the builds under way. */
module SchedulerStore {
  import opened Options
  import opened Scheduler

  // ---------------------------------------------------------------- Whose entry a step touches

  /** The user a store-writing step works for. */
  function Actor(s: State, step: Step): Option<string>
  {
    if OfRequest(step) then (if step.r < |s.requests| then Some(s.requests[step.r].user) else None)
    else if step.AbortDelete? || step.AbortObserveAndDelete? then
      (if step.a < |s.aborts| then Some(s.aborts[step.a].user) else None)
    else None
  }

  ghost predicate KeepsOthers(s: State, step: Step)
    requires Apply(s, step).Some?
  {
    var t := Apply(s, step).value;
    forall n :: n in s.store && Actor(s, step) != Some(s.store[n]) ==> n in t.store && t.store[n] == s.store[n]
  }

  /** The entry a step writes for its user. */
  function Target(s: State, step: Step): Option<string>
    requires Apply(s, step).Some?
  {
    match step
    case Store(r) => s.requests[r].checked
    case Delete(r, b) =>
      if s.requests[r].builds[b].phase.seen then Some(s.requests[r].builds[b].name) else None
    case AbortDelete(a) => s.aborts[a].pending
    case _ => None
  }

  /** The step acts on an earlier look at an entry that now belongs to somebody else. */
  ghost predicate Late(s: State, step: Step)
    requires Apply(s, step).Some?
  {
    && Target(s, step).Some?
    && Target(s, step).value in s.store
    && Actor(s, step) != Some(s.store[Target(s, step).value])
  }

  /** A step leaves every other user's entry alone if and only if it is not late. */
  lemma KeepsOthersIffNotLate(s: State, step: Step)
    requires Apply(s, step).Some?
    ensures KeepsOthers(s, step) <==> !Late(s, step)
  {
    if Late(s, step) {
      var n := Target(s, step).value;
      assert n in s.store && Actor(s, step) != Some(s.store[n]);
      var t := Apply(s, step).value;
      assert !(n in t.store && t.store[n] == s.store[n]);
    }
  }

  /** Aborts and finishing builds that look and delete in one step are never late,
      nor is a check-and-store. */
  lemma AtomicStepsKeepOthers(s: State, step: Step)
    requires Apply(s, step).Some? && !step.Store? && !step.Delete? && !step.AbortDelete?
    ensures KeepsOthers(s, step)
  {
    KeepsOthersIffNotLate(s, step);
  }

  // ---------------------------------------------------------------- What the store lists

  /** Under way until its entry is deleted. */
  predicate Live(b: Build)
  {
    b.phase.Queued? || b.phase.Running? || b.phase.Unlisting?
  }

  function LiveCount(builds: seq<Build>, n: string): nat
  {
    if builds == [] then 0
    else
      var last := builds[|builds| - 1];
      LiveCount(builds[..|builds| - 1], n) + (if Live(last) && last.name == n then 1 else 0)
  }

  /** Builds of template n this request has planned or under way. */
  function Active(q: Request, n: string): nat
  {
    multiset(q.planned)[n] + LiveCount(q.builds, n)
  }

  function Total(requests: seq<Request>, n: string): nat
  {
    if requests == [] then 0 else Total(requests[..|requests| - 1], n) + Active(requests[|requests| - 1], n)
  }

  lemma {:induction false} LiveUpdate(builds: seq<Build>, b: nat, x: Build, n: string)
    requires b < |builds|
    ensures LiveCount(builds[b := x], n) + (if Live(builds[b]) && builds[b].name == n then 1 else 0)
         == LiveCount(builds, n) + (if Live(x) && x.name == n then 1 else 0)
  {
    var k := |builds| - 1;
    if b < k {
      LiveUpdate(builds[..k], b, x, n);
      assert builds[b := x][..k] == builds[..k][b := x];
    } else {
      assert builds[b := x][..k] == builds[..k];
    }
  }

  lemma {:induction false} TotalUpdate(requests: seq<Request>, r: nat, q: Request, n: string)
    requires r < |requests|
    ensures Total(requests[r := q], n) + Active(requests[r], n) == Total(requests, n) + Active(q, n)
  {
    var k := |requests| - 1;
    if r < k {
      TotalUpdate(requests[..k], r, q, n);
      assert requests[r := q][..k] == requests[..k][r := q];
    } else {
      assert requests[r := q][..k] == requests[..k];
    }
  }

  lemma {:induction false} TotalHolds(requests: seq<Request>, r: nat, n: string)
    requires r < |requests|
    ensures Active(requests[r], n) <= Total(requests, n)
  {
    if r < |requests| - 1 {
      TotalHolds(requests[..|requests| - 1], r, n);
    }
  }

  /** The store lists exactly the planned and live builds, each under its user,
      and no template twice. */
  ghost predicate Listed(s: State)
  {
    && (forall n :: Total(s.requests, n) == if n in s.store then 1 else 0)
    && (forall r, n :: 0 <= r < |s.requests| && Active(s.requests[r], n) > 0 ==>
          n in s.store && s.store[n] == s.requests[r].user)
    && (forall r :: 0 <= r < |s.requests| ==> s.requests[r].checked.None?)
    && (forall r, b :: 0 <= r < |s.requests| && 0 <= b < |s.requests[r].builds| ==> SawOwn(s.requests[r].builds[b]))
  }

  /** A build about to delete has found its own entry. */
  predicate SawOwn(b: Build)
  {
    b.phase.Unlisting? ==> b.phase.seen
  }

  /** A step of a run with atomic check-and-store and no aborts; a finishing build
      may look and delete in two steps, as the source does, or in one. */
  predicate Calm(step: Step)
  {
    || step.Begin? || step.LoadAndStore? || step.Canary? || step.Launch? || step.Acquire?
    || step.Observe? || step.Delete? || step.ObserveAndDelete? || step.Release?
  }

  /** What a calm step of request r does to the number of builds of n. */
  function Change(s: State, step: Step, n: string): int
    requires Apply(s, step).Some? && Calm(step) && OfRequest(step)
  {
    var q := s.requests[step.r];
    match step
    case LoadAndStore(_) => if q.todo[0] !in s.store && q.todo[0] == n then 1 else 0
    case ObserveAndDelete(_, b) => if q.builds[b].name == n then -1 else 0
    case Delete(_, b) => if q.builds[b].name == n then -1 else 0
    case _ => 0
  }

  lemma BuildChange(s: State, step: Step, n: string)
    requires Apply(s, step).Some? && Calm(step) && OfBuild(step)
    ensures Active(Apply(s, step).value.requests[step.r], n) == Active(s.requests[step.r], n) + Change(s, step, n)
  {
    var q := s.requests[step.r];
    var q' := Apply(s, step).value.requests[step.r];
    assert q'.builds == q.builds[step.b := q'.builds[step.b]] && q'.planned == q.planned;
    LiveUpdate(q.builds, step.b, q'.builds[step.b], n);
  }

  lemma CalmChange(s: State, step: Step, n: string)
    requires Apply(s, step).Some? && Calm(step) && OfRequest(step)
    ensures Active(Apply(s, step).value.requests[step.r], n) == Active(s.requests[step.r], n) + Change(s, step, n)
  {
    var q := s.requests[step.r];
    var q' := Apply(s, step).value.requests[step.r];
    if OfBuild(step) {
      BuildChange(s, step, n);
    } else if step.Launch? {
      assert q'.builds[..|q.builds|] == q.builds;
      assert q.planned == [q.planned[0]] + q.planned[1..];
    }
  }

  lemma {:induction false} LiveCounted(builds: seq<Build>, b: nat)
    requires b < |builds| && Live(builds[b])
    ensures LiveCount(builds, builds[b].name) > 0
  {
    if b < |builds| - 1 {
      LiveCounted(builds[..|builds| - 1], b);
    }
  }

  /** A build that looks finds its own entry. */
  lemma LooksAtOwn(s: State, r: nat, b: nat)
    requires Listed(s) && r < |s.requests| && b < |s.requests[r].builds| && Live(s.requests[r].builds[b])
    ensures var n := s.requests[r].builds[b].name; n in s.store && s.store[n] == s.requests[r].user
  {
    var q := s.requests[r];
    LiveCounted(q.builds, b);
    assert Active(q, q.builds[b].name) > 0;
  }

  /** The store follows the change in the builds exactly. */
  lemma CalmStore(s: State, step: Step, n: string)
    requires Listed(s) && Apply(s, step).Some? && Calm(step) && OfRequest(step)
    ensures var t := Apply(s, step).value;
            && (if n in t.store then 1 else 0) == (if n in s.store then 1 else 0) + Change(s, step, n)
            && (n in t.store ==> t.store[n] == if n in s.store then s.store[n] else s.requests[step.r].user)
  {
    if step.ObserveAndDelete? || step.Delete? {
      LooksAtOwn(s, step.r, step.b);
    }
    hide Active, Total;
  }

  lemma CalmTotals(s: State, step: Step)
    requires Listed(s) && Apply(s, step).Some? && Calm(step) && OfRequest(step)
    ensures var t := Apply(s, step).value;
            && (forall n :: Total(t.requests, n) == if n in t.store then 1 else 0)
            && (forall r, n :: 0 <= r < |t.requests| && Active(t.requests[r], n) > 0 ==>
                  n in t.store && t.store[n] == t.requests[r].user)
  {
    hide Active, Total, Apply;
    var t := Apply(s, step).value;
    StepIsLocal(s, step);
    SameUser(s, step);
    forall n
      ensures Total(t.requests, n) == if n in t.store then 1 else 0
    {
      CalmChange(s, step, n);
      CalmStore(s, step, n);
      TotalUpdate(s.requests, step.r, t.requests[step.r], n);
    }
    forall r, n | 0 <= r < |t.requests| && Active(t.requests[r], n) > 0
      ensures n in t.store && t.store[n] == t.requests[r].user
    {
      CalmChange(s, step, n);
      CalmStore(s, step, n);
      TotalHolds(t.requests, r, n);
    }
  }

  lemma SameUser(s: State, step: Step)
    requires Apply(s, step).Some? && OfRequest(step)
    ensures step.r < |s.requests| && Apply(s, step).value.requests[step.r].user == s.requests[step.r].user
  {
  }

  lemma OwnShape(s: State, step: Step)
    requires Listed(s) && Apply(s, step).Some? && Calm(step) && OfRequest(step)
    ensures var q := Apply(s, step).value.requests[step.r];
            q.checked.None? && forall b :: 0 <= b < |q.builds| ==> SawOwn(q.builds[b])
  {
    if step.Observe? {
      LooksAtOwn(s, step.r, step.b);
    }
    hide Active, Total, Live;
    var q, q' := s.requests[step.r], Apply(s, step).value.requests[step.r];
    assert forall b :: 0 <= b < |q.builds| ==> SawOwn(q.builds[b]);
  }

  lemma CalmShape(s: State, step: Step)
    requires Listed(s) && Apply(s, step).Some? && Calm(step) && OfRequest(step)
    ensures var t := Apply(s, step).value;
            && (forall r :: 0 <= r < |t.requests| ==> t.requests[r].checked.None?)
            && (forall r, b :: 0 <= r < |t.requests| && 0 <= b < |t.requests[r].builds| ==>
                  SawOwn(t.requests[r].builds[b]))
  {
    OwnShape(s, step);
    StepIsLocal(s, step);
    hide Active, Total, Apply, SawOwn;
  }

  lemma BeginListed(s: State, user: string, parallel: nat, todo: seq<string>)
    requires Listed(s)
    ensures Listed(Apply(s, Begin(user, parallel, todo)).value)
  {
    var q := Request(user, parallel, todo, None, [], [], 0);
    var t := Apply(s, Begin(user, parallel, todo)).value;
    assert t.requests[..|s.requests|] == s.requests;
    assert forall n :: Active(q, n) == 0;
    hide Active;
    assert forall n :: Total(t.requests, n) == Total(s.requests, n);
  }

  lemma CalmKeepsListed(s: State, step: Step)
    requires Listed(s) && Apply(s, step).Some? && Calm(step)
    ensures Listed(Apply(s, step).value)
  {
    hide Active, Total, Apply;
    if step.Begin? {
      BeginListed(s, step.user, step.parallel, step.todo);
    } else {
      CalmTotals(s, step);
      CalmShape(s, step);
    }
  }

  /** In every calm run the store lists exactly the builds under way: at most one
      per template, over all requests of all users. */
  lemma {:induction false} CalmRunsListed(steps: seq<Step>)
    requires Run(steps).Some? && forall i :: 0 <= i < |steps| ==> Calm(steps[i])
    ensures Listed(Run(steps).value)
  {
    if steps != [] {
      CalmRunsListed(steps[..|steps| - 1]);
      CalmKeepsListed(Run(steps[..|steps| - 1]).value, steps[|steps| - 1]);
    }
  }

  lemma ListedKeepsOthers(s: State, step: Step)
    requires Listed(s) && Apply(s, step).Some? && Calm(step)
    ensures KeepsOthers(s, step)
  {
    KeepsOthersIffNotLate(s, step);
    if step.Delete? {
      LooksAtOwn(s, step.r, step.b);
    }
  }

  /** So in a calm run no step is late: no finishing build deletes, and no plan
      overwrites, an entry of another user. */
  lemma CalmRunsNeverLate(steps: seq<Step>, step: Step)
    requires Run(steps).Some? && (forall i :: 0 <= i < |steps| ==> Calm(steps[i]))
    requires Calm(step) && Apply(Run(steps).value, step).Some?
    ensures KeepsOthers(Run(steps).value, step)
  {
    CalmRunsListed(steps);
    ListedKeepsOthers(Run(steps).value, step);
  }
}

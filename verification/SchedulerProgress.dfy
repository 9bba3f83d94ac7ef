/** The scheduler never gets stuck (ludus-api/api_template_management.go): a request
    with at least one slot can always go on until all its builds are finished, and
    nothing it does can go on forever. */
module SchedulerProgress {
  import opened Options
  import opened Scheduler

  // ---------------------------------------------------------------- What a request has left to do

  function Weight(p: Phase): nat
  {
    match p
    case Queued => 4
    case Running => 3
    case Unlisting(_) => 2
    case Unlisted => 1
    case Finished => 0
  }

  function BuildsLeft(builds: seq<Build>): nat
  {
    if builds == [] then 0 else BuildsLeft(builds[..|builds| - 1]) + Weight(builds[|builds| - 1].phase)
  }

  function Left(q: Request): nat
  {
    7 * |q.todo| + (if q.checked.Some? then 6 else 0) + 5 * |q.planned| + BuildsLeft(q.builds)
  }

  /** Every name looked at, every planned build launched and finished. */
  ghost predicate Done(q: Request)
  {
    q.todo == [] && q.checked.None? && q.planned == []
      && forall b :: 0 <= b < |q.builds| ==> q.builds[b].phase.Finished?
  }

  /** A step the request itself takes towards its end. */
  ghost predicate Moves(s: State, r: nat, step: Step)
  {
    OfRequest(step) && !step.Canary? && step.r == r && Apply(s, step).Some?
  }

  lemma {:induction false} LeftUpdate(builds: seq<Build>, b: nat, x: Build)
    requires b < |builds|
    ensures BuildsLeft(builds[b := x]) + Weight(builds[b].phase) == BuildsLeft(builds) + Weight(x.phase)
  {
    if b < |builds| - 1 {
      LeftUpdate(builds[..|builds| - 1], b, x);
      assert builds[b := x][..|builds| - 1] == builds[..|builds| - 1][b := x];
    } else {
      assert builds[b := x][..|builds| - 1] == builds[..|builds| - 1];
    }
  }

  /** Every such step leaves less to do. */
  lemma MovesDown(s: State, r: nat, step: Step)
    requires Moves(s, r, step)
    ensures r < |s.requests| == |Apply(s, step).value.requests|
    ensures Left(Apply(s, step).value.requests[r]) < Left(s.requests[r])
  {
    StepIsLocal(s, step);
    var q, q' := s.requests[r], Apply(s, step).value.requests[r];
    if OfBuild(step) {
      assert q'.builds == q.builds[step.b := q'.builds[step.b]];
      LeftUpdate(q.builds, step.b, q'.builds[step.b]);
    } else if step.Launch? {
      assert (q.builds + [Build(q.planned[0], Queued)])[..|q.builds|] == q.builds;
    }
  }

  // ---------------------------------------------------------------- No deadlock

  lemma {:induction false} NoHolders(builds: seq<Build>)
    ensures Holders(builds) == 0 <==> forall b :: 0 <= b < |builds| ==> !HoldsSlot(builds[b])
  {
    if builds != [] {
      var front := builds[..|builds| - 1];
      NoHolders(front);
      assert forall b :: 0 <= b < |front| ==> front[b] == builds[b];
    }
  }

  /** Waiting for a slot that never comes: no slots, and nothing to do but take one. */
  ghost predicate Stuck(q: Request)
  {
    && q.parallel == 0 && q.todo == [] && q.checked.None? && q.planned == []
    && (forall b :: 0 <= b < |q.builds| ==> q.builds[b].phase.Queued? || q.builds[b].phase.Finished?)
    && exists b :: 0 <= b < |q.builds| && q.builds[b].phase.Queued?
  }

  /** In every reachable state a request can move on, unless it is done, or was begun
      without a single slot and has only waiting builds left. */
  lemma CanMoveIff(s: State, r: nat)
    requires SlotsOk(s) && r < |s.requests|
    ensures (exists step :: Moves(s, r, step)) <==> !Done(s.requests[r]) && !Stuck(s.requests[r])
  {
    var q := s.requests[r];
    assert Fits(q);
    NoHolders(q.builds);
    if q.checked.Some? {
      assert Moves(s, r, Store(r));
    } else if q.todo != [] {
      assert Moves(s, r, Load(r));
    } else if q.planned != [] {
      assert Moves(s, r, Launch(r));
    } else if b :| 0 <= b < |q.builds| && HoldsSlot(q.builds[b]) {
      HolderMoves(s, r, b);
    } else {
      OnlyWaiting(s, r);
    }
  }

  lemma HolderMoves(s: State, r: nat, b: nat)
    requires r < |s.requests| && Fits(s.requests[r]) && b < |s.requests[r].builds| && HoldsSlot(s.requests[r].builds[b])
    ensures exists step :: Moves(s, r, step)
  {
    NoHolders(s.requests[r].builds);
    match s.requests[r].builds[b].phase
    case Running => assert Moves(s, r, Observe(r, b));
    case Unlisting(_) => assert Moves(s, r, Delete(r, b));
    case Unlisted => assert Moves(s, r, Release(r, b));
  }

  /** When no build holds a slot, only a waiting build can move, and it can if there is a slot at all. */
  lemma OnlyWaiting(s: State, r: nat)
    requires r < |s.requests|
    requires var q := s.requests[r];
             Fits(q) && q.todo == [] && q.checked.None? && q.planned == []
             && forall b :: 0 <= b < |q.builds| ==> !HoldsSlot(q.builds[b])
    ensures (exists step :: Moves(s, r, step)) <==> !Done(s.requests[r]) && !Stuck(s.requests[r])
  {
    var q := s.requests[r];
    NoHolders(q.builds);
    if q.parallel > 0 && !Done(q) {
      var b :| 0 <= b < |q.builds| && !q.builds[b].phase.Finished?;
      assert Moves(s, r, Acquire(r, b));
    }
  }

  // ---------------------------------------------------------------- Every request can finish

  /** The state after more steps. */
  function Onward(s: State, steps: seq<Step>): Option<State>
    decreases |steps|
  {
    if steps == [] then Some(s)
    else
      var t := Apply(s, steps[0]);
      if t.None? then None else Onward(t.value, steps[1..])
  }

  /** From every reachable state, whatever the others have done, a request with a slot
      can bring all its builds to their end by its own steps, and gives all slots back. */
  lemma {:induction false} CanFinish(s: State, r: nat) returns (steps: seq<Step>)
    requires SlotsOk(s) && r < |s.requests| && s.requests[r].parallel > 0
    ensures |steps| <= Left(s.requests[r]) && forall i :: 0 <= i < |steps| ==> OfRequest(steps[i]) && steps[i].r == r
    ensures Onward(s, steps).Some? && r < |Onward(s, steps).value.requests|
    ensures Done(Onward(s, steps).value.requests[r]) && Onward(s, steps).value.requests[r].tokens == 0
    decreases Left(s.requests[r])
  {
    CanMoveIff(s, r);
    if Done(s.requests[r]) {
      steps := [];
      NoHolders(s.requests[r].builds);
      assert Fits(s.requests[r]);
    } else {
      var step :| Moves(s, r, step);
      MovesDown(s, r, step);
      StepKeepsSlots(s, step);
      KeepsParallel(s, step);
      var rest := CanFinish(Apply(s, step).value, r);
      steps := [step] + rest;
      assert steps[1..] == rest;
    }
  }

  lemma KeepsParallel(s: State, step: Step)
    requires OfRequest(step) && Apply(s, step).Some?
    ensures step.r < |s.requests| == |Apply(s, step).value.requests|
    ensures Apply(s, step).value.requests[step.r].parallel == s.requests[step.r].parallel
  {
    StepIsLocal(s, step);
  }

  // ---------------------------------------------------------------- What gets built

  function NamesOf(builds: seq<Build>): (names: seq<string>)
    ensures |names| == |builds| && forall i :: 0 <= i < |names| ==> names[i] == builds[i].name
  {
    seq(|builds|, i requires 0 <= i < |builds| => builds[i].name)
  }

  /** What a request has stored under its name: launched, still to launch. */
  function Taken(q: Request): seq<string>
  {
    NamesOf(q.builds) + q.planned
  }

  /** Nothing planned is dropped, repeated or reordered on its way to a build: a step
      leaves the list alone, or appends the one name it stored. */
  lemma TakenGrows(s: State, step: Step)
    requires OfRequest(step) && Apply(s, step).Some?
    ensures step.r < |s.requests| == |Apply(s, step).value.requests|
    ensures var before, after := Taken(s.requests[step.r]), Taken(Apply(s, step).value.requests[step.r]);
      after == before + (if step.Store? then [s.requests[step.r].checked.value]
                         else if step.LoadAndStore? && s.requests[step.r].todo[0] !in s.store
                         then [s.requests[step.r].todo[0]] else [])
  {
    StepIsLocal(s, step);
    var q, q' := s.requests[step.r], Apply(s, step).value.requests[step.r];
    if step.Launch? {
      assert NamesOf(q'.builds) == NamesOf(q.builds) + [q.planned[0]];
      assert q.planned == [q.planned[0]] + q.planned[1..];
    } else {
      assert NamesOf(q'.builds) == NamesOf(q.builds);
    }
  }
}

/** The first pass of buildVMsFromTemplates: which templates one request plans,
    and that the loop is a run of the scheduler's check-and-store steps. */
module TemplatePlan {
  import opened Options
  import opened Scheduler

  datatype TemplateStatus = TemplateStatus(name: string, built: bool)

  predicate ShouldBuild(t: TemplateStatus, names: seq<string>)
  {
    !t.built && (names == [] || "all" in names || t.name in names)
  }

  function Wanted(statuses: seq<TemplateStatus>, names: seq<string>): seq<string>
  {
    if statuses == [] then []
    else
      var last := statuses[|statuses| - 1];
      Wanted(statuses[..|statuses| - 1], names) + (if ShouldBuild(last, names) then [last.name] else [])
  }

  /** A template is wanted when it is not built and the request names it, names all, or names none. */
  lemma {:induction false} WantedIff(statuses: seq<TemplateStatus>, names: seq<string>)
    ensures forall n :: n in Wanted(statuses, names) <==>
      exists t :: t in statuses && t.name == n && !t.built && (names == [] || "all" in names || n in names)
  {
    if statuses != [] {
      WantedIff(statuses[..|statuses| - 1], names);
      assert statuses == statuses[..|statuses| - 1] + [statuses[|statuses| - 1]];
    }
  }

  /** How many entries the pass looks at before the canary stops it. */
  function Looked(canary: seq<bool>): nat
  {
    if canary == [] || canary[0] then 0 else 1 + Looked(canary[1..])
  }

  datatype Plan = Plan(planned: seq<string>, store: map<string, string>)

  function PlanOf(wanted: seq<string>, store: map<string, string>, user: string): Plan
  {
    if wanted == [] then Plan([], store)
    else
      var p, n := PlanOf(wanted[..|wanted| - 1], store, user), wanted[|wanted| - 1];
      if n in p.store then p else Plan(p.planned + [n], p.store[n := user])
  }

  lemma {:induction false} LookedBound(canary: seq<bool>)
    ensures Looked(canary) <= |canary|
    ensures forall i :: 0 <= i < Looked(canary) ==> !canary[i]
    ensures Looked(canary) < |canary| ==> canary[Looked(canary)]
  {
    if canary != [] && !canary[0] {
      LookedBound(canary[1..]);
    }
  }

  method PlanBuilds(statuses: seq<TemplateStatus>, names: seq<string>, store: map<string, string>, username: string,
                    canary: seq<bool>)
    returns (templatesToBuild: seq<string>, progress: map<string, string>)
    requires |canary| == |statuses|
    ensures Plan(templatesToBuild, progress)
      == PlanOf(Wanted(statuses[..if Looked(canary) < |statuses| then Looked(canary) else |statuses|], names),
                store, username)
    ensures forall n :: n in templatesToBuild <==> n !in store && exists i :: AsksFor(statuses, names, canary, n, i)
    ensures progress == Entered(store, templatesToBuild, username)
  {
    templatesToBuild, progress := [], store;
    LookedBound(canary);
    PlannedMeans(statuses, names, store, username, canary);
    var i := 0;
    while i < |statuses|
      invariant 0 <= i <= Looked(canary)
      invariant Plan(templatesToBuild, progress) == PlanOf(Wanted(statuses[..i], names), store, username)
    {
      if canary[i] {
        break;
      }
      var t := statuses[i];
      assert statuses[..i + 1][..i] == statuses[..i];
      ghost var wanted := Wanted(statuses[..i], names);
      assert (wanted + [t.name])[..|wanted|] == wanted && wanted + [] == wanted;
      i := i + 1;
      if !ShouldBuild(t, names) {
        continue;
      }
      if t.name in progress {
        continue;
      }
      progress := progress[t.name := username];
      templatesToBuild := templatesToBuild + [t.name];
    }
    ghost var looked := if Looked(canary) < |statuses| then Looked(canary) else |statuses|;
    assert i == looked;
    assert templatesToBuild == PlanOf(Wanted(statuses[..looked], names), store, username).planned;
  }

  /** Status i is looked at before the canary stops the pass, is not built, and the
      request names it, names all, or names none. */
  ghost predicate AsksFor(statuses: seq<TemplateStatus>, names: seq<string>, canary: seq<bool>, n: string, i: int)
    requires |canary| == |statuses|
  {
    && 0 <= i < |statuses| && (forall j :: 0 <= j <= i ==> !canary[j])
    && statuses[i].name == n && !statuses[i].built && (names == [] || "all" in names || n in names)
  }

  /** The templates planned, in terms of the request and of the looks at the canary. */
  lemma PlannedMeans(statuses: seq<TemplateStatus>, names: seq<string>, store: map<string, string>, user: string,
                     canary: seq<bool>)
    requires |canary| == |statuses|
    ensures var looked := if Looked(canary) < |statuses| then Looked(canary) else |statuses|;
            var p := PlanOf(Wanted(statuses[..looked], names), store, user);
      && p.store == Entered(store, p.planned, user)
      && forall n :: n in p.planned <==> n !in store && exists i :: AsksFor(statuses, names, canary, n, i)
  {
    LookedBound(canary);
    var seen := statuses[..Looked(canary)];
    PlanExact(Wanted(seen, names), store, user);
    hide PlanOf;
    forall n ensures n in Wanted(seen, names) <==> exists i :: AsksFor(statuses, names, canary, n, i) {
      SeenMeans(statuses, names, canary, n);
    }
  }

  lemma SeenMeans(statuses: seq<TemplateStatus>, names: seq<string>, canary: seq<bool>, n: string)
    requires |canary| == |statuses| && Looked(canary) <= |statuses|
    ensures n in Wanted(statuses[..Looked(canary)], names) <==> exists i :: AsksFor(statuses, names, canary, n, i)
  {
    LookedBound(canary);
    var seen := statuses[..Looked(canary)];
    WantedIff(seen, names);
    hide Wanted, Looked;
    if t :| t in seen && t.name == n && !t.built && (names == [] || "all" in names || n in names) {
      var i :| 0 <= i < |seen| && seen[i] == t;
      assert AsksFor(statuses, names, canary, n, i);
    }
    if i :| AsksFor(statuses, names, canary, n, i) {
      assert i < |seen| && seen[i] in seen;
    }
  }

  /** A plan holds each wanted template not already in progress once, and the
      store gains exactly those, under the requesting user. */
  lemma {:induction false} PlanExact(wanted: seq<string>, store: map<string, string>, user: string)
    ensures var p := PlanOf(wanted, store, user);
            && (forall n :: n in p.planned <==> n in wanted && n !in store)
            && (forall i, j :: 0 <= i < j < |p.planned| ==> ComesFirst(wanted, p.planned[i], p.planned[j]))
            && p.store == Entered(store, p.planned, user)
  {
    if wanted != [] {
      var front, n := wanted[..|wanted| - 1], wanted[|wanted| - 1];
      PlanExact(front, store, user);
      var p := PlanOf(front, store, user);
      assert wanted == front + [n];
      EnteredOne(store, p.planned, n, user);
      StillFirst(front, n, p.planned);
      hide Entered, ComesFirst;
    }
  }

  /** a is wanted before b is wanted for the first time. */
  ghost predicate ComesFirst(wanted: seq<string>, a: string, b: string)
  {
    exists k :: 0 <= k < |wanted| && wanted[k] == a && b !in wanted[..k + 1]
  }

  lemma FirstExtends(front: seq<string>, n: string, a: string, b: string)
    requires ComesFirst(front, a, b)
    ensures ComesFirst(front + [n], a, b)
  {
    var k :| 0 <= k < |front| && front[k] == a && b !in front[..k + 1];
    assert (front + [n])[k] == a && (front + [n])[..k + 1] == front[..k + 1];
  }

  lemma NewComesLast(front: seq<string>, n: string, a: string)
    requires a in front && n !in front
    ensures ComesFirst(front + [n], a, n)
  {
    var k :| 0 <= k < |front| && front[k] == a;
    assert (front + [n])[k] == a && (front + [n])[..k + 1] == front[..k + 1];
  }

  lemma StillFirst(front: seq<string>, n: string, planned: seq<string>)
    requires forall i, j :: 0 <= i < j < |planned| ==> ComesFirst(front, planned[i], planned[j])
    requires forall i :: 0 <= i < |planned| ==> planned[i] in front
    ensures forall i, j :: 0 <= i < j < |planned| ==> ComesFirst(front + [n], planned[i], planned[j])
    ensures n !in front ==> forall i :: 0 <= i < |planned| ==> ComesFirst(front + [n], planned[i], n)
  {
    hide ComesFirst;
    forall i, j | 0 <= i < j < |planned| ensures ComesFirst(front + [n], planned[i], planned[j]) {
      FirstExtends(front, n, planned[i], planned[j]);
    }
    if n !in front {
      forall i | 0 <= i < |planned| ensures ComesFirst(front + [n], planned[i], n) {
        NewComesLast(front, n, planned[i]);
      }
    }
  }

  lemma EnteredOne(store: map<string, string>, planned: seq<string>, n: string, user: string)
    ensures Entered(store, planned + [n], user) == Entered(store, planned, user)[n := user]
    ensures n in Entered(store, planned, user) <==> n in store || n in planned
  {
  }

  function Entered(store: map<string, string>, planned: seq<string>, user: string): (after: map<string, string>)
    ensures forall n :: n in planned ==> n in after && after[n] == user
    ensures forall n :: n !in planned ==> (n in after <==> n in store) && (n in store ==> after[n] == store[n])
  {
    store + (map n | n in planned :: user)
  }

  /** n check-and-store steps of request r, with nothing in between. */
  function Repeat(s: State, r: nat, n: nat): Option<State>
  {
    if n == 0 then Some(s)
    else
      var before := Repeat(s, r, n - 1);
      if before.None? then None else Apply(before.value, LoadAndStore(r))
  }

  /** The loop is the scheduler's run of check-and-store steps of one request. */
  lemma {:induction false} PlanIsRun(s: State, r: nat, n: nat)
    requires r < |s.requests| && n <= |s.requests[r].todo| && s.requests[r].checked.None?
    ensures var q, end := s.requests[r], Repeat(s, r, n);
            var p := PlanOf(q.todo[..n], s.store, q.user);
            end == Some(s.(store := p.store,
                           requests := s.requests[r := q.(todo := q.todo[n..], planned := q.planned + p.planned)]))
  {
    var q := s.requests[r];
    if n == 0 {
      assert q.planned + [] == q.planned && s.requests[r := q] == s.requests;
    } else {
      PlanIsRun(s, r, n - 1);
      assert q.todo[..n][..n - 1] == q.todo[..n - 1];
      assert q.todo[n - 1..][1..] == q.todo[n..];
      var p := PlanOf(q.todo[..n - 1], s.store, q.user);
      var mid := s.requests[r := q.(todo := q.todo[n - 1..], planned := q.planned + p.planned)];
      var q' := q.(todo := q.todo[n..], planned := q.planned + PlanOf(q.todo[..n], s.store, q.user).planned);
      assert q.planned + (p.planned + [q.todo[n - 1]]) == q.planned + p.planned + [q.todo[n - 1]];
      assert mid[r := q'] == s.requests[r := q'];
    }
  }
}

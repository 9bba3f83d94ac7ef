/** Laws of the dynamic inventory: which runs agree, what groups may show, what a
    range filter lets through, and the single-host lookup. */
module InventoryLaws {
  import opened Text
  import opened Options
  import opened PoolState
  import opened Inventory

  // ---------------------------------------------------------------- Completion orders

  ghost predicate SameNameSameVars(l: Lookup, machines: seq<Resource>)
  {
    forall r, s :: r in machines && s in machines && r.name == s.name ==> BuildHostVars(l, r) == BuildHostVars(l, s)
  }

  lemma {:induction false} CollectedFrom(l: Lookup, order: seq<Resource>, h: string)
    ensures h in Collected(l, order) <==> exists r :: r in order && r.name == h
    ensures h in Collected(l, order) ==>
      exists r :: r in order && r.name == h && Collected(l, order)[h] == BuildHostVars(l, r)
  {
    hide BuildHostVars;
    if order != [] {
      var front, last := order[..|order| - 1], order[|order| - 1];
      CollectedFrom(l, front, h);
      assert order == front + [last];
      assert last in order;
      if last.name == h {
        assert Collected(l, order)[h] == BuildHostVars(l, last);
      }
    }
  }

  lemma SameMembers(a: seq<Resource>, b: seq<Resource>, r: Resource)
    requires multiset(a) == multiset(b)
    ensures r in a <==> r in b
  {
    assert r in multiset(a) <==> r in a;
    assert r in multiset(b) <==> r in b;
  }

  lemma OrdersAgree(l: Lookup, machines: seq<Resource>, a: seq<Resource>, b: seq<Resource>)
    requires SameNameSameVars(l, machines) && multiset(a) == multiset(machines) == multiset(b)
    ensures Collected(l, a) == Collected(l, b)
  {
    hide BuildHostVars, Collected;
    forall r ensures (r in a <==> r in machines) && (r in b <==> r in machines) {
      SameMembers(a, machines, r);
      SameMembers(b, machines, r);
    }
    forall h ensures h in Collected(l, a) <==> h in Collected(l, b) {
      CollectedFrom(l, a, h);
      CollectedFrom(l, b, h);
    }
    forall h | h in Collected(l, a) ensures Collected(l, a)[h] == Collected(l, b)[h] {
      CollectedFrom(l, a, h);
      CollectedFrom(l, b, h);
    }
    assert Collected(l, a).Keys == Collected(l, b).Keys;
  }

  lemma LastWins(l: Lookup, rest: seq<Resource>, r: Resource, s: Resource)
    requires r.name == s.name
    ensures s.name in Collected(l, rest + [r, s]) && Collected(l, rest + [r, s])[s.name] == BuildHostVars(l, s)
  {
    var all := rest + [r, s];
    assert all[|all| - 1] == s;
  }

  lemma Conflict(l: Lookup, machines: seq<Resource>, i: nat, j: nat)
    requires i < j < |machines| && machines[i].name == machines[j].name
    requires BuildHostVars(l, machines[i]) != BuildHostVars(l, machines[j])
    ensures exists a, b ::
      multiset(a) == multiset(machines) && multiset(b) == multiset(machines) && Collected(l, a) != Collected(l, b)
  {
    hide BuildHostVars, Collected;
    var r, s := machines[i], machines[j];
    var rest := Others(machines, i, j);
    PutLast(machines, i, j);
    LastWins(l, rest, r, s);
    LastWins(l, rest, s, r);
    assert Collected(l, rest + [r, s]) != Collected(l, rest + [s, r]);
  }

  function Others(machines: seq<Resource>, i: nat, j: nat): seq<Resource>
    requires i < j < |machines|
  {
    machines[..i] + machines[i + 1..j] + machines[j + 1..]
  }

  lemma PutLast(machines: seq<Resource>, i: nat, j: nat)
    requires i < j < |machines|
    ensures multiset(Others(machines, i, j) + [machines[i], machines[j]]) == multiset(machines)
    ensures multiset(Others(machines, i, j) + [machines[j], machines[i]]) == multiset(machines)
  {
    var a, b, c, r, s := machines[..i], machines[i + 1..j], machines[j + 1..], machines[i], machines[j];
    assert machines == a + [r] + b + [s] + c;
    Regroup(a, b, c, r, s);
  }

  lemma Regroup(a: seq<Resource>, b: seq<Resource>, c: seq<Resource>, r: Resource, s: Resource)
    ensures multiset(a + [r] + b + [s] + c) == multiset(a + b + c + [r, s]) == multiset(a + b + c + [s, r])
  {
    assert [r, s] == [r] + [s] && [s, r] == [s] + [r];
  }

  /** Every completion order gives the same host variables if and only if
      machines that share a name have the same variables. */
  lemma OrderIrrelevantIff(l: Lookup, machines: seq<Resource>)
    ensures (forall a, b :: multiset(a) == multiset(machines) && multiset(b) == multiset(machines) ==>
               Collected(l, a) == Collected(l, b))
      <==> SameNameSameVars(l, machines)
  {
    hide BuildHostVars, Collected;
    if SameNameSameVars(l, machines) {
      forall a, b | multiset(a) == multiset(machines) && multiset(b) == multiset(machines)
        ensures Collected(l, a) == Collected(l, b)
      {
        OrdersAgree(l, machines, a, b);
      }
    } else {
      var r, s :| r in machines && s in machines && r.name == s.name && BuildHostVars(l, r) != BuildHostVars(l, s);
      var i :| 0 <= i < |machines| && machines[i] == r;
      var j :| 0 <= j < |machines| && machines[j] == s;
      if i < j {
        Conflict(l, machines, i, j);
      } else {
        Conflict(l, machines, j, i);
      }
    }
  }

  lemma {:induction false} VisibleMembers(order: seq<Resource>, h: string)
    ensures h in Visible(order) <==> exists r :: r in order && r.name == h && r.template != 1
  {
    if order != [] {
      var front, last := order[..|order| - 1], order[|order| - 1];
      VisibleMembers(front, h);
      assert order == front + [last];
      assert last in order;
    }
  }

  /** The same list up to order. */
  ghost predicate SameNode(m: Node, n: Node)
  {
    match (m, n)
    case (Hosts(xs), Hosts(ys)) => forall h :: h in xs <==> h in ys
    case (HostVars(v), HostVars(w)) => v == w
    case _ => false
  }

  /** Pool tables that hold the same hosts; their lists may differ in order. */
  ghost predicate SamePools(a: map<string, seq<string>>, b: map<string, seq<string>>)
  {
    a.Keys == b.Keys && forall g :: g in a ==> Names(a[g]) == Names(b[g])
  }

  /** Two runs with the same machines in different orders give the same inventory,
      up to the order of each list. */
  lemma RunsAgree(m: Results, n: Results, a: map<string, seq<string>>, b: map<string, seq<string>>, kept: set<string>,
    l: Lookup, machines: seq<Resource>, first: seq<Resource>, second: seq<Resource>)
    requires IsInventory(m, a, kept, l, first) && IsInventory(n, b, kept, l, second)
    requires SamePools(a, b) && SameNameSameVars(l, machines)
    requires multiset(first) == multiset(machines) == multiset(second)
    ensures m.Keys == n.Keys && forall g :: g in m ==> SameNode(m[g], n[g])
  {
    OrdersAgree(l, machines, first, second);
    var hostVars := Collected(l, first);
    PoolsShowTheSame(a, b, kept, hostVars);
    SameVisible(first, second);
    hide BuildHostVars, Collected, Shows, Emitted, Visible, Inventory.Distinct, SamePools, SameNameSameVars;
    forall g | Emitted(a, kept, hostVars, g) ensures g in m && g in n && SameNode(m[g], n[g]) {
      assert GroupNode(m[g], a, hostVars, g) && GroupNode(n[g], b, hostVars, g);
    }
    hide GroupNode;
    assert m.Keys == n.Keys;
  }

  lemma PoolsShowTheSame(a: map<string, seq<string>>, b: map<string, seq<string>>, kept: set<string>,
                         hostVars: map<string, Vars>)
    requires SamePools(a, b)
    ensures forall g, h :: Shows(a, hostVars, g, h) <==> Shows(b, hostVars, g, h)
    ensures forall g :: Emitted(a, kept, hostVars, g) <==> Emitted(b, kept, hostVars, g)
  {
    hide MarkedTemplate, OwnGroups;
    forall g, h ensures Shows(a, hostVars, g, h) <==> Shows(b, hostVars, g, h) {
      if g in a {
        assert h in a[g] <==> h in Names(a[g]);
        assert h in b[g] <==> h in Names(b[g]);
      }
    }
  }

  lemma SameVisible(first: seq<Resource>, second: seq<Resource>)
    requires multiset(first) == multiset(second)
    ensures forall h :: h in Visible(first) <==> h in Visible(second)
  {
    hide Visible;
    forall h ensures h in Visible(first) <==> h in Visible(second) {
      VisibleMembers(first, h);
      VisibleMembers(second, h);
      forall r ensures r in first <==> r in second {
        SameMembers(first, second, r);
      }
    }
  }

  /** Listing twice: whatever the two completion orders were, and in whatever
      order the maps were walked, the output is the same up to list order. */
  method ListTwice(px: Proxmox, env: Env, l: Lookup, resources: seq<Resource>) returns (m: Results, n: Results)
    requires SameNameSameVars(l, resources)
    ensures m.Keys == n.Keys && forall g :: g in m ==> SameNode(m[g], n[g])
  {
    hide IsInventory, BuildHostVars, KeptPool, LoadedPool, AllowedIds, Names, PoolHosts, Eligible, SameNode;
    var first, firstTables, second, secondTables;
    m, firstTables, first := MainList(px, env, l, resources);
    n, secondTables, second := MainList(px, env, l, resources);
    assert firstTables.validVMIDs == secondTables.validVMIDs;
    assert firstTables.poolGroups == secondTables.poolGroups;
    var machines := Eligible(resources, RangeFilterEnabled(env), firstTables.validVMIDs);
    forall r | r in machines ensures r in resources {
      EligibleMembers(resources, RangeFilterEnabled(env), firstTables.validVMIDs, r);
    }
    RunsAgree(m, n, firstTables.groupMap, secondTables.groupMap, firstTables.poolGroups, l, machines, first, second);
  }

  // ---------------------------------------------------------------- Templates

  const TEMPLATE_KEY := "proxmox_template"

  /** The variables mark a template exactly when the machine is one, unless the
      notes carry the key and say otherwise. */
  lemma TemplateMarkIff(l: Lookup, r: Resource)
    ensures (MarkedTemplate(BuildHostVars(l, r)) <==> r.template == 1)
      <==> (TEMPLATE_KEY in l.notes(r) ==> (Show(l.notes(r)[TEMPLATE_KEY]) == "1" <==> r.template == 1))
  {
    assert IntText(1) == "1";
    if IntText(r.template) == "1" {
      IntTextInjective(r.template, 1);
    }
  }

  /** When no notes speak about templates and names are unambiguous, every host of
      every group is a machine that is no template, and is listed under "all". */
  lemma GroupsShowVisibleHosts(results: Results, pools: map<string, seq<string>>, kept: set<string>, l: Lookup,
                               order: seq<Resource>, g: string)
    requires IsInventory(results, pools, kept, l, order) && Emitted(pools, kept, Collected(l, order), g)
    requires forall r :: r in order ==> TEMPLATE_KEY !in l.notes(r)
    ensures results[g].Hosts? && Inventory.Distinct(results[g].hosts)
    ensures forall h :: h in results[g].hosts ==> h in Collected(l, order) && h in Visible(order)
  {
    var hostVars := Collected(l, order);
    hide BuildHostVars, Collected, MarkedTemplate, OwnGroups, Visible, Inventory.Distinct;
    forall h | h in results[g].hosts ensures h in hostVars && h in Visible(order) {
      assert Shows(pools, hostVars, g, h);
      CollectedFrom(l, order, h);
      var r :| r in order && r.name == h && hostVars[h] == BuildHostVars(l, r);
      TemplateMarkIff(l, r);
      VisibleMembers(order, h);
    }
  }

  /** Where each variable comes from: the notes first, then the template flag, then
      what was gathered, which cannot set the flag. */
  lemma VarsFrom(l: Lookup, r: Resource, k: string)
    ensures var v := BuildHostVars(l, r);
      && (k in l.notes(r) ==> k in v && v[k] == l.notes(r)[k])
      && (k !in l.notes(r) && k == TEMPLATE_KEY ==>
            (k in v <==> r.template != 0) && (k in v ==> v[k] == Printed(IntText(r.template))))
      && (k !in l.notes(r) && k != TEMPLATE_KEY ==>
            (k in v <==> k in l.gathered(r)) && (k in v ==> v[k] == l.gathered(r)[k]))
  {
  }

  /** How a value prints: a text as it is, a list in brackets with blanks between its items. */
  lemma ShowIs(text: string, a: string, b: string)
    ensures Show(Printed(text)) == text && Show(List([])) == "[]" && Show(List([a])) == "[" + a + "]"
    ensures Show(List([a, b])) == "[" + a + " " + b + "]"
  {
    assert [a, b][1..] == [b];
    assert Join([a, b], ' ') == a + [' '] + b;
    assert "[" + (a + [' '] + b) + "]" == "[" + a + " " + b + "]";
  }

  /** The variables name the group: in the notes' list, as the running status, or as the operating system. */
  ghost predicate PutsIn(v: Vars, g: string)
  {
    || ("groups" in v && v["groups"].List? && g in v["groups"].items)
    || (g == "running" && "proxmox_status" in v && Show(v["proxmox_status"]) == "running")
    || ("proxmox_os_id" in v && v["proxmox_os_id"] != Printed("") && g == Show(v["proxmox_os_id"]))
  }

  lemma OwnGroupsIff(v: Vars, g: string)
    ensures g in OwnGroups(v) <==> PutsIn(v, g)
  {
  }

  /** A machine that would show up in the group. */
  ghost predicate ShowsIn(pools: map<string, seq<string>>, l: Lookup, r: Resource, g: string)
  {
    r.template != 1 && ((g in pools && r.name in pools[g]) || PutsIn(BuildHostVars(l, r), g))
  }

  /** What the inventory lists, machine by machine, when no notes speak about
      templates and names are unambiguous: a group has the names of the machines its
      pool or their own variables put there, "all" those of every machine that is no
      template. */
  lemma GroupHostsIff(results: Results, pools: map<string, seq<string>>, kept: set<string>, l: Lookup,
                      order: seq<Resource>, g: string, h: string)
    requires IsInventory(results, pools, kept, l, order) && SameNameSameVars(l, order)
    requires forall r :: r in order ==> TEMPLATE_KEY !in l.notes(r)
    ensures Emitted(pools, kept, Collected(l, order), g) ==>
      results[g].Hosts? && (h in results[g].hosts <==> exists r :: r in order && r.name == h && ShowsIn(pools, l, r, g))
    ensures !Emitted(pools, kept, Collected(l, order), "all") ==>
      results["all"].Hosts?
      && (h in results["all"].hosts <==> exists r :: r in order && r.name == h && r.template != 1)
  {
    var hostVars := Collected(l, order);
    VisibleMembers(order, h);
    CollectedFrom(l, order, h);
    hide BuildHostVars, Collected, MarkedTemplate, OwnGroups, Visible, Inventory.Distinct, PutsIn;
    if h in hostVars {
      var r :| r in order && r.name == h && hostVars[h] == BuildHostVars(l, r);
      OwnGroupsIff(hostVars[h], g);
      TemplateMarkIff(l, r);
      assert Shows(pools, hostVars, g, h) <==> ShowsIn(pools, l, r, g);
      forall s | s in order && s.name == h && ShowsIn(pools, l, s, g) ensures Shows(pools, hostVars, g, h) {
        TemplateMarkIff(l, s);
      }
    }
  }

  /** Who makes a group appear, in terms of the machines. */
  lemma EmittedByMachine(pools: map<string, seq<string>>, kept: set<string>, l: Lookup, order: seq<Resource>, g: string)
    requires SameNameSameVars(l, order) && forall r :: r in order ==> TEMPLATE_KEY !in l.notes(r)
    ensures Emitted(pools, kept, Collected(l, order), g) <==>
      g in kept || exists r :: r in order && ShowsIn(pools, l, r, g)
  {
    var hostVars := Collected(l, order);
    forall v ensures g in OwnGroups(v) <==> PutsIn(v, g) {
      OwnGroupsIff(v, g);
    }
    hide BuildHostVars, Collected, MarkedTemplate, OwnGroups, PutsIn;
    if h: string :| Shows(pools, hostVars, g, h) {
      CollectedFrom(l, order, h);
      var r :| r in order && r.name == h && hostVars[h] == BuildHostVars(l, r);
      TemplateMarkIff(l, r);
      assert ShowsIn(pools, l, r, g);
    }
    if r :| r in order && ShowsIn(pools, l, r, g) {
      CollectedFrom(l, order, r.name);
      TemplateMarkIff(l, r);
      assert Shows(pools, hostVars, g, r.name);
    }
  }

  /** The host variables survive under "_meta" if and only if no pool of that name
      is kept and no visible machine is in such a pool or names it in its notes,
      status or operating system; otherwise a list of hosts takes their place. */
  lemma MetaKeptIff(results: Results, pools: map<string, seq<string>>, kept: set<string>, l: Lookup,
                    order: seq<Resource>)
    requires IsInventory(results, pools, kept, l, order) && SameNameSameVars(l, order)
    requires forall r :: r in order ==> TEMPLATE_KEY !in l.notes(r)
    ensures results["_meta"] == HostVars(Collected(l, order))
      <==> "_meta" !in kept && forall r :: r in order ==> !ShowsIn(pools, l, r, "_meta")
    ensures results["_meta"] != HostVars(Collected(l, order)) ==> results["_meta"].Hosts?
  {
    hide Emitted, Collected, Visible, ShowsIn, SameNameSameVars;
    EmittedByMachine(pools, kept, l, order, "_meta");
  }

  /** One running machine whose notes list "_meta" is enough to lose them. */
  lemma NotedMetaLost(results: Results, pools: map<string, seq<string>>, kept: set<string>, l: Lookup, r: Resource)
    requires IsInventory(results, pools, kept, l, [r]) && r.template == 0
    requires l.notes(r) == map["groups" := List(["_meta"])]
    ensures results["_meta"].Hosts? && forall h :: h in results["_meta"].hosts <==> h == r.name
  {
    var order, hostVars := [r], Collected(l, [r]);
    assert order[..|order| - 1] == [] && order[|order| - 1] == r;
    assert Collected(l, order) == Collected(l, [])[r.name := BuildHostVars(l, r)];
    assert NoteGroups(BuildHostVars(l, r)) == ["_meta"];
    assert OwnGroups(BuildHostVars(l, r))[0] == "_meta";
    TemplateMarkIff(l, r);
    assert Shows(pools, hostVars, "_meta", r.name);
  }

  // ---------------------------------------------------------------- The range filter

  lemma {:induction false} EligibleMembers(rs: seq<Resource>, filtered: bool, valid: set<nat>, r: Resource)
    ensures r in Eligible(rs, filtered, valid) <==> r in rs && IsMachine(r) && (filtered ==> r.vmid in valid)
  {
    if rs != [] {
      EligibleMembers(rs[..|rs| - 1], filtered, valid, r);
      assert rs == rs[..|rs| - 1] + [rs[|rs| - 1]];
    }
  }

  /** The hosts of the inventory are exactly the names of the machines listed: with a
      range and without the request for all, those of the range's pool, and of ADMIN
      for an admin; otherwise every machine. */
  lemma ListedHostsIff(px: Proxmox, env: Env, l: Lookup, resources: seq<Resource>, order: seq<Resource>, h: string)
    requires forall r :: multiset(order)[r] == if Listed(px, env, r) then multiset(resources)[r] else 0
    ensures h in Collected(l, order) <==> exists r :: r in resources && Listed(px, env, r) && r.name == h
    ensures h in Collected(l, order) ==>
      exists r :: r in resources && Listed(px, env, r) && r.name == h && Collected(l, order)[h] == BuildHostVars(l, r)
  {
    hide BuildHostVars, Collected, Listed;
    CollectedFrom(l, order, h);
    forall r ensures r in order <==> r in resources && Listed(px, env, r) {
      assert r in multiset(order) <==> r in order;
      assert r in multiset(resources) <==> r in resources;
    }
  }

  // ---------------------------------------------------------------- The single host

  /** The first machine of that name decides. */
  function HostEntry(l: Lookup, rs: seq<Resource>, filtered: bool, valid: set<nat>, target: string): Vars
  {
    if rs == [] then map[]
    else if rs[0].name == target && IsMachine(rs[0]) then
      if filtered && rs[0].vmid !in valid then map[] else BuildHostVars(l, rs[0])
    else HostEntry(l, rs[1..], filtered, valid, target)
  }

  /** The first machine of that name in what Proxmox lists. */
  ghost predicate FirstMachine(rs: seq<Resource>, target: string, i: int)
  {
    && 0 <= i < |rs| && rs[i].name == target && rs[i].kind in ["qemu", "lxc", "openvz"]
    && forall j :: 0 <= j < i ==> !(rs[j].name == target && rs[j].kind in ["qemu", "lxc", "openvz"])
  }

  lemma {:induction false} HostEntryOfFirst(l: Lookup, rs: seq<Resource>, filtered: bool, valid: set<nat>,
                                            target: string, i: int)
    requires FirstMachine(rs, target, i)
    ensures HostEntry(l, rs, filtered, valid, target)
         == if filtered && rs[i].vmid !in valid then map[] else BuildHostVars(l, rs[i])
    decreases i
  {
    hide BuildHostVars;
    if i > 0 {
      assert forall j :: 0 <= j < |rs| - 1 ==> rs[1..][j] == rs[j + 1];
      assert FirstMachine(rs[1..], target, i - 1);
      HostEntryOfFirst(l, rs[1..], filtered, valid, target, i - 1);
    }
  }

  lemma {:induction false} SomeFirstMachine(rs: seq<Resource>, target: string)
    requires exists r :: r in rs && r.name == target && IsMachine(r)
    ensures exists i :: FirstMachine(rs, target, i)
  {
    if rs[0].name == target && IsMachine(rs[0]) {
      assert FirstMachine(rs, target, 0);
    } else {
      assert rs == [rs[0]] + rs[1..];
      SomeFirstMachine(rs[1..], target);
      var i :| FirstMachine(rs[1..], target, i);
      assert forall j :: 0 <= j < |rs| - 1 ==> rs[1..][j] == rs[j + 1];
      assert forall j :: 0 < j < |rs| ==> rs[j] == rs[1..][j - 1];
      assert FirstMachine(rs, target, i + 1);
    }
  }

  lemma HostEntryFirst(px: Proxmox, env: Env, l: Lookup, rs: seq<Resource>, target: string)
    ensures forall i :: FirstMachine(rs, target, i) ==>
      HostEntry(l, rs, RangeFilterEnabled(env), AllowedIds(px, env), target)
        == if Listed(px, env, rs[i]) then BuildHostVars(l, rs[i]) else map[]
    ensures (forall i :: !FirstMachine(rs, target, i)) ==>
      HostEntry(l, rs, RangeFilterEnabled(env), AllowedIds(px, env), target) == map[]
  {
    hide BuildHostVars, PoolIds, InPool;
    PoolMeans(px, env.rangeID);
    PoolMeans(px, ADMIN);
    forall i | FirstMachine(rs, target, i)
      ensures HostEntry(l, rs, RangeFilterEnabled(env), AllowedIds(px, env), target)
        == if Listed(px, env, rs[i]) then BuildHostVars(l, rs[i]) else map[]
    {
      HostEntryOfFirst(l, rs, RangeFilterEnabled(env), AllowedIds(px, env), target, i);
    }
    if exists r :: r in rs && r.name == target && IsMachine(r) {
      SomeFirstMachine(rs, target);
    } else {
      NoHostEntry(l, rs, RangeFilterEnabled(env), AllowedIds(px, env), target);
    }
  }

  method MainHost(px: Proxmox, env: Env, l: Lookup, resources: Option<seq<Resource>>, target: string)
    returns (vars: Vars)
    ensures resources.None? ==> vars == map[]
    ensures resources.Some? ==>
      forall i :: FirstMachine(resources.value, target, i) ==>
        vars == if Listed(px, env, resources.value[i]) then BuildHostVars(l, resources.value[i]) else map[]
    ensures resources.Some? && (forall i :: !FirstMachine(resources.value, target, i)) ==> vars == map[]
    ensures resources.Some? ==>
      vars == HostEntry(l, resources.value, RangeFilterEnabled(env), AllowedIds(px, env), target)
  {
    hide Listed, FirstMachine, InPool, HostOf;
    if resources.Some? {
      HostEntryFirst(px, env, l, resources.value, target);
    }
    hide KeptPool, LoadedPool, Names, BuildHostVars;
    var validVMIDs: set<nat> := {};
    if RangeFilterEnabled(env) {
      var tables := new Tables();
      tables.LoadPoolState(px, env);
      validVMIDs := tables.validVMIDs;
    }
    if resources.None? {
      return map[];
    }
    ghost var valid := AllowedIds(px, env);
    var rs := resources.value;
    assert rs[0..] == rs;
    for i := 0 to |rs|
      invariant HostEntry(l, rs[i..], RangeFilterEnabled(env), valid, target)
        == HostEntry(l, rs, RangeFilterEnabled(env), valid, target)
    {
      assert rs[i..][1..] == rs[i + 1..] && rs[i..][0] == rs[i];
      if rs[i].name != target {
        continue;
      }
      if IsMachine(rs[i]) {
        if RangeFilterEnabled(env) && rs[i].vmid !in validVMIDs {
          return map[];
        }
        return BuildHostVars(l, rs[i]);
      }
    }
    return map[];
  }

  /** At most one machine has that name. */
  ghost predicate Unambiguous(rs: seq<Resource>, target: string)
  {
    forall i, j :: 0 <= i < j < |rs| ==>
      !(rs[i].name == target && IsMachine(rs[i]) && rs[j].name == target && IsMachine(rs[j]))
  }

  lemma {:induction false} HostEntryOf(l: Lookup, rs: seq<Resource>, filtered: bool, valid: set<nat>, target: string,
                                       r: Resource)
    requires Unambiguous(rs, target) && r in rs && r.name == target && IsMachine(r)
    ensures HostEntry(l, rs, filtered, valid, target) == if filtered && r.vmid !in valid then map[]
      else BuildHostVars(l, r)
  {
    hide BuildHostVars, IsMachine;
    if r != rs[0] {
      assert rs == [rs[0]] + rs[1..];
      var i :| 0 <= i < |rs| && rs[i] == r;
      assert rs[1..][i - 1] == r;
      assert Unambiguous(rs[1..], target) by {
        assert forall k :: 0 <= k < |rs[1..]| ==> rs[1..][k] == rs[k + 1];
      }
      HostEntryOf(l, rs[1..], filtered, valid, target, r);
    }
  }

  lemma {:induction false} NoHostEntry(l: Lookup, rs: seq<Resource>, filtered: bool, valid: set<nat>, target: string)
    requires forall r :: r in rs ==> !(r.name == target && IsMachine(r))
    ensures HostEntry(l, rs, filtered, valid, target) == map[]
  {
    if rs != [] {
      NoHostEntry(l, rs[1..], filtered, valid, target);
    }
  }

  /** The single-host lookup is that host's entry in the list, whatever the
      order of completion, or empty when the list does not have the host. */
  lemma HostMatchesList(l: Lookup, rs: seq<Resource>, filtered: bool, valid: set<nat>, order: seq<Resource>,
                        target: string)
    requires Unambiguous(rs, target) && multiset(order) == multiset(Eligible(rs, filtered, valid))
    ensures HostEntry(l, rs, filtered, valid, target)
         == if target in Collected(l, order) then Collected(l, order)[target] else map[]
  {
    hide BuildHostVars, Collected, Unambiguous, IsMachine;
    CollectedFrom(l, order, target);
    forall r ensures r in order <==> r in rs && IsMachine(r) && (filtered ==> r.vmid in valid) {
      SameMembers(order, Eligible(rs, filtered, valid), r);
      EligibleMembers(rs, filtered, valid, r);
    }
    if r :| r in rs && r.name == target && IsMachine(r) {
      HostEntryOf(l, rs, filtered, valid, target, r);
      forall s | s in rs && s.name == target && IsMachine(s) ensures s == r {
        TwoMachines(rs, target, r, s);
      }
    } else {
      NoHostEntry(l, rs, filtered, valid, target);
    }
  }

  lemma TwoMachines(rs: seq<Resource>, target: string, r: Resource, s: Resource)
    requires Unambiguous(rs, target) && r in rs && s in rs && r.name == target && s.name == target && IsMachine(r)
      && IsMachine(s)
    ensures r == s
  {
    var i :| 0 <= i < |rs| && rs[i] == r;
    var j :| 0 <= j < |rs| && rs[j] == s;
    assert i == j;
  }
}

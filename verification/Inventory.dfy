/** The inventory itself: mainList and mainHost (dynamic-inventory/main.go). The
    worker goroutines each write one host under a lock, so a run is an order in
    which the eligible machines complete. */
module Inventory {
  import opened Text
  import opened PoolState

  datatype Resource = Resource(kind: string, vmid: nat, name: string, template: int)

  /** A host variable: a list of notes, or anything else by its printed form. */
  datatype Value = Printed(text: string) | List(items: seq<string>)
  type Vars = map<string, Value>

  /** Host variables gathered from Proxmox and from a machine's notes. */
  datatype Lookup = Lookup(gathered: Resource -> Vars, notes: Resource -> Vars)

  function Show(v: Value): string
  {
    match v
    case Printed(text) => text
    case List(items) => "[" + Join(items, ' ') + "]"
  }

  /** The template flag appears in the variables when it is not zero; notes come last and win. */
  function BuildHostVars(l: Lookup, r: Resource): Vars
  {
    (l.gathered(r) - {"proxmox_template"})
    + (if r.template != 0 then map["proxmox_template" := Printed(IntText(r.template))] else map[])
    + l.notes(r)
  }

  predicate IsMachine(r: Resource)
  {
    r.kind == "qemu" || r.kind == "lxc" || r.kind == "openvz"
  }

  predicate MarkedTemplate(v: Vars)
  {
    "proxmox_template" in v && Show(v["proxmox_template"]) == "1"
  }

  function NoteGroups(v: Vars): seq<string>
  {
    if "groups" in v && v["groups"].List? then v["groups"].items else []
  }

  predicate Running(v: Vars)
  {
    "proxmox_status" in v && Show(v["proxmox_status"]) == "running"
  }

  /** The group named after the operating system, if any. */
  function OsGroup(v: Vars): seq<string>
  {
    if "proxmox_os_id" in v && v["proxmox_os_id"] != Printed("") then [Show(v["proxmox_os_id"])] else []
  }

  /** The groups a host's own variables put it in. */
  function OwnGroups(v: Vars): seq<string>
  {
    NoteGroups(v) + (if Running(v) then ["running"] else []) + OsGroup(v)
  }

  // ---------------------------------------------------------------- Collecting the hosts

  function Eligible(rs: seq<Resource>, filtered: bool, valid: set<nat>): seq<Resource>
  {
    if rs == [] then []
    else
      var last := rs[|rs| - 1];
      Eligible(rs[..|rs| - 1], filtered, valid)
        + (if IsMachine(last) && (filtered ==> last.vmid in valid) then [last] else [])
  }

  function Collected(l: Lookup, order: seq<Resource>): map<string, Vars>
  {
    if order == [] then map[]
    else
      var last := order[|order| - 1];
      Collected(l, order[..|order| - 1])[last.name := BuildHostVars(l, last)]
  }

  function Visible(order: seq<Resource>): seq<string>
  {
    if order == [] then []
    else
      var last := order[|order| - 1];
      Visible(order[..|order| - 1]) + (if last.template == 1 then [] else [last.name])
  }

  method SelectMachines(rs: seq<Resource>, filtered: bool, valid: set<nat>) returns (out: seq<Resource>)
    ensures out == Eligible(rs, filtered, valid)
  {
    out := [];
    for i := 0 to |rs|
      invariant out == Eligible(rs[..i], filtered, valid)
    {
      assert rs[..i + 1][..i] == rs[..i];
      if !IsMachine(rs[i]) {
        continue;
      }
      if filtered && rs[i].vmid !in valid {
        continue;
      }
      out := out + [rs[i]];
    }
    assert rs[..|rs|] == rs;
  }

  method CollectHosts(l: Lookup, order: seq<Resource>) returns (hostVars: map<string, Vars>, allHosts: seq<string>)
    ensures hostVars == Collected(l, order) && allHosts == Visible(order)
  {
    hostVars, allHosts := map[], [];
    for i := 0 to |order|
      invariant hostVars == Collected(l, order[..i]) && allHosts == Visible(order[..i])
    {
      hide BuildHostVars;
      assert order[..i + 1][..i] == order[..i];
      hostVars := hostVars[order[i].name := BuildHostVars(l, order[i])];
      if order[i].template != 1 {
        allHosts := allHosts + [order[i].name];
      }
    }
    assert order[..|order|] == order;
  }

  // ---------------------------------------------------------------- Building the groups

  /** Go's append to a map entry, which starts out empty. */
  function Appended(groups: map<string, seq<string>>, g: string, h: string): map<string, seq<string>>
  {
    groups[g := (if g in groups then groups[g] else []) + [h]]
  }

  function Extended(groups: map<string, seq<string>>, gs: seq<string>, h: string): map<string, seq<string>>
  {
    if gs == [] then groups else Appended(Extended(groups, gs[..|gs| - 1], h), gs[|gs| - 1], h)
  }

  lemma ExtendedSnoc(groups: map<string, seq<string>>, gs: seq<string>, g: string, h: string)
    ensures Extended(groups, gs + [g], h) == Appended(Extended(groups, gs, h), g, h)
  {
    assert (gs + [g])[..|gs|] == gs;
  }

  /** Who is listed in a group: the pool's hosts and the hosts that name it. */
  ghost predicate ListedIn(pools: map<string, seq<string>>, hostVars: map<string, Vars>, done: set<string>, g: string,
                           h: string)
  {
    (g in pools && h in pools[g]) || (h in done && h in hostVars && g in OwnGroups(hostVars[h]))
  }

  ghost predicate GroupsCover(groups: map<string, seq<string>>, pools: map<string, seq<string>>,
                              hostVars: map<string, Vars>, done: set<string>)
  {
    && pools.Keys <= groups.Keys
    && (forall g :: g in groups ==> forall h :: h in groups[g] <==> ListedIn(pools, hostVars, done, g, h))
    && (forall g, h :: ListedIn(pools, hostVars, done, g, h) ==> g in groups)
  }

  lemma {:induction false} ExtendedMembers(groups: map<string, seq<string>>, gs: seq<string>, h: string)
    ensures var after := Extended(groups, gs, h);
            && groups.Keys <= after.Keys
            && (forall g :: g in gs ==> g in after)
            && (forall g :: g in after ==> g in groups || g in gs)
            && (forall g :: g in after ==>
                forall k :: k in after[g] <==> (g in groups && k in groups[g]) || (g in gs && k == h))
  {
    if gs != [] {
      var front, g := gs[..|gs| - 1], gs[|gs| - 1];
      ExtendedMembers(groups, front, h);
      assert gs == front + [g];
    }
  }

  /** The three appends for one host, in the order the code makes them. */
  method AddHost(groups: map<string, seq<string>>, h: string, v: Vars) returns (after: map<string, seq<string>>)
    ensures after == Extended(groups, OwnGroups(v), h)
  {
    hide Extended, Appended, NoteGroups, Running, Show;
    after := groups;
    var notes := NoteGroups(v);
    ExtendedNone(groups, h);
    for i := 0 to |notes|
      invariant after == Extended(groups, notes[..i], h)
    {
      assert notes[..i + 1] == notes[..i] + [notes[i]];
      ExtendedSnoc(groups, notes[..i], notes[i], h);
      after := Appended(after, notes[i], h);
    }
    assert notes[..|notes|] == notes;
    ghost var status := if Running(v) then ["running"] else [];
    if Running(v) {
      ExtendedSnoc(groups, notes, "running", h);
      after := Appended(after, "running", h);
    } else {
      assert notes + [] == notes;
    }
    assert after == Extended(groups, notes + status, h);
    if "proxmox_os_id" in v && v["proxmox_os_id"] != Printed("") {
      ExtendedSnoc(groups, notes + status, Show(v["proxmox_os_id"]), h);
      after := Appended(after, Show(v["proxmox_os_id"]), h);
    } else {
      assert notes + status + [] == notes + status;
    }
  }

  lemma ExtendedNone(groups: map<string, seq<string>>, h: string)
    ensures Extended(groups, [], h) == groups
  {
  }

  lemma CoverStep(groups: map<string, seq<string>>, pools: map<string, seq<string>>, hostVars: map<string, Vars>,
                  done: set<string>, h: string)
    requires GroupsCover(groups, pools, hostVars, done) && h in hostVars && h !in done
    ensures GroupsCover(Extended(groups, OwnGroups(hostVars[h]), h), pools, hostVars, done + {h})
  {
    hide OwnGroups, Extended;
    var own := OwnGroups(hostVars[h]);
    var after := Extended(groups, own, h);
    ExtendedMembers(groups, own, h);
    forall g, k
      ensures ListedIn(pools, hostVars, done + {h}, g, k) <==>
        ListedIn(pools, hostVars, done, g, k) || (k == h && g in own)
    {
    }
    forall g, k | g in after
      ensures k in after[g] <==> ListedIn(pools, hostVars, done + {h}, g, k)
    {
      assert k in after[g] <==> (g in groups && k in groups[g]) || (g in own && k == h);
      assert ListedIn(pools, hostVars, done, g, k) ==> g in groups;
    }
  }

  /** The loop over the host variables, in whatever order the map yields them. */
  method BuildGroups(pools: map<string, seq<string>>, hostVars: map<string, Vars>)
    returns (groups: map<string, seq<string>>)
    ensures GroupsCover(groups, pools, hostVars, hostVars.Keys)
  {
    groups := pools;
    var rest := hostVars.Keys;
    while rest != {}
      invariant rest <= hostVars.Keys && GroupsCover(groups, pools, hostVars, hostVars.Keys - rest)
    {
      hide GroupsCover, OwnGroups, Extended;
      var h :| h in rest;
      CoverStep(groups, pools, hostVars, hostVars.Keys - rest, h);
      groups := AddHost(groups, h, hostVars[h]);
      assert hostVars.Keys - (rest - {h}) == hostVars.Keys - rest + {h};
      rest := rest - {h};
    }
    assert hostVars.Keys - {} == hostVars.Keys;
  }

  // ---------------------------------------------------------------- The final groups

  predicate Distinct(xs: seq<string>)
  {
    forall i, j :: 0 <= i < j < |xs| ==> xs[i] != xs[j]
  }

  /** The hosts a group shows: listed, known, and not templates. */
  ghost predicate Shows(pools: map<string, seq<string>>, hostVars: map<string, Vars>, g: string, h: string)
  {
    h in hostVars && !MarkedTemplate(hostVars[h]) && ((g in pools && h in pools[g]) || g in OwnGroups(hostVars[h]))
  }

  ghost predicate Emitted(pools: map<string, seq<string>>, kept: set<string>, hostVars: map<string, Vars>, g: string)
  {
    g in kept || exists h :: Shows(pools, hostVars, g, h)
  }

  method CleanGroup(hosts: seq<string>, hostVars: map<string, Vars>) returns (valid: seq<string>)
    ensures Distinct(valid)
    ensures forall h :: h in valid <==> h in hosts && h in hostVars && !MarkedTemplate(hostVars[h])
  {
    valid := [];
    var seen: set<string> := {};
    for i := 0 to |hosts|
      invariant Distinct(valid) && (forall h :: h in seen <==> h in valid)
      invariant forall h :: h in valid <==> h in hosts[..i] && h in hostVars && !MarkedTemplate(hostVars[h])
    {
      hide MarkedTemplate;
      assert hosts[..i + 1] == hosts[..i] + [hosts[i]];
      var h := hosts[i];
      if h in hostVars && h !in seen {
        if !MarkedTemplate(hostVars[h]) {
          valid := valid + [h];
          seen := seen + {h};
        }
      }
    }
    assert hosts[..|hosts|] == hosts;
  }

  datatype Node = Hosts(hosts: seq<string>) | HostVars(vars: map<string, Vars>)
  type Results = map<string, Node>

  ghost predicate GroupNode(n: Node, pools: map<string, seq<string>>, hostVars: map<string, Vars>, g: string)
  {
    n.Hosts? && Distinct(n.hosts) && forall h :: h in n.hosts <==> Shows(pools, hostVars, g, h)
  }

  ghost predicate FinalGroups(results: Results, start: Results, pools: map<string, seq<string>>, kept: set<string>,
    hostVars: map<string, Vars>, done: set<string>)
  {
    forall g ::
      if g in done && Emitted(pools, kept, hostVars, g) then g in results && GroupNode(results[g], pools, hostVars, g)
      else if g in start then g in results && results[g] == start[g]
      else g !in results
  }

  lemma CleanedShows(groups: map<string, seq<string>>, pools: map<string, seq<string>>, kept: set<string>,
                     hostVars: map<string, Vars>, g: string, valid: seq<string>)
    requires GroupsCover(groups, pools, hostVars, hostVars.Keys) && g in groups && Distinct(valid)
    requires forall h :: h in valid <==> h in groups[g] && h in hostVars && !MarkedTemplate(hostVars[h])
    ensures GroupNode(Hosts(valid), pools, hostVars, g)
    ensures valid != [] || g in kept <==> Emitted(pools, kept, hostVars, g)
  {
    hide OwnGroups, MarkedTemplate;
    forall h ensures h in valid <==> Shows(pools, hostVars, g, h) {
      assert h in groups[g] <==> ListedIn(pools, hostVars, hostVars.Keys, g, h);
    }
    if valid != [] {
      assert valid[0] in valid;
    }
  }

  method FinishGroups(start: Results, groups: map<string, seq<string>>, pools: map<string, seq<string>>,
                      kept: set<string>, hostVars: map<string, Vars>)
    returns (results: Results)
    requires GroupsCover(groups, pools, hostVars, hostVars.Keys) && kept <= pools.Keys
    ensures FinalGroups(results, start, pools, kept, hostVars, groups.Keys)
  {
    results := start;
    var rest := groups.Keys;
    while rest != {}
      invariant rest <= groups.Keys && FinalGroups(results, start, pools, kept, hostVars, groups.Keys - rest)
    {
      hide GroupsCover, FinalGroups, Emitted, GroupNode, MarkedTemplate;
      var g :| g in rest;
      var valid := CleanGroup(groups[g], hostVars);
      CleanedShows(groups, pools, kept, hostVars, g, valid);
      FinalStep(results, start, pools, kept, hostVars, groups.Keys - rest, g, Hosts(valid));
      if |valid| > 0 || g in kept {
        results := results[g := Hosts(valid)];
      }
      assert groups.Keys - (rest - {g}) == groups.Keys - rest + {g};
      rest := rest - {g};
    }
    assert groups.Keys - {} == groups.Keys;
  }

  lemma FinalStep(results: Results, start: Results, pools: map<string, seq<string>>, kept: set<string>,
    hostVars: map<string, Vars>, done: set<string>, g: string, n: Node)
    requires FinalGroups(results, start, pools, kept, hostVars, done) && GroupNode(n, pools, hostVars, g) && g !in done
    ensures FinalGroups(if Emitted(pools, kept, hostVars, g) then results[g := n]
                        else results, start, pools, kept, hostVars, done + {g})
  {
    hide Emitted, GroupNode;
  }

  /** The inventory as the reader sees it, up to the order of each list. */
  ghost predicate IsInventory(results: Results, pools: map<string, seq<string>>, kept: set<string>, l: Lookup,
                              order: seq<Resource>)
  {
    var hostVars := Collected(l, order);
    var shown := (g: string) => Emitted(pools, kept, hostVars, g);
    && (forall g :: g in results <==> shown(g) || g == "all" || g == "_meta")
    && (forall g :: shown(g) ==> g in results && GroupNode(results[g], pools, hostVars, g))
    && (!shown("all") ==> "all" in results && results["all"] == Hosts(Visible(order)))
    && (!shown("_meta") ==> "_meta" in results && results["_meta"] == HostVars(hostVars))
  }

  lemma FinalIsInventory(results: Results, start: Results, groups: map<string, seq<string>>,
                         pools: map<string, seq<string>>, kept: set<string>, l: Lookup, order: seq<Resource>)
    requires var hostVars := Collected(l, order);
      && GroupsCover(groups, pools, hostVars, hostVars.Keys) && kept <= pools.Keys
      && FinalGroups(results, start, pools, kept, hostVars, groups.Keys)
      && start == map["all" := Hosts(Visible(order)), "_meta" := HostVars(hostVars)]
    ensures IsInventory(results, pools, kept, l, order)
  {
    hide GroupNode, MarkedTemplate, OwnGroups, Collected, Visible;
    var hostVars := Collected(l, order);
    forall g ensures Emitted(pools, kept, hostVars, g) ==> g in groups {
      if exists h :: Shows(pools, hostVars, g, h) {
        var h :| Shows(pools, hostVars, g, h);
        assert ListedIn(pools, hostVars, hostVars.Keys, g, h);
      }
    }
  }

  /** The workers finish in any order. */
  method RunWorkers(machines: seq<Resource>) returns (order: seq<Resource>)
    ensures multiset(order) == multiset(machines)
  {
    order := [];
    var rest := machines;
    while rest != []
      invariant multiset(order) + multiset(rest) == multiset(machines)
      decreases |rest|
    {
      var i :| 0 <= i < |rest|;
      assert rest == rest[..i] + [rest[i]] + rest[i + 1..];
      order := order + [rest[i]];
      rest := rest[..i] + rest[i + 1..];
    }
  }

  /** What the inventory lists, in terms of the environment: every machine, unless a
      range is asked for and not all ranges; then those in the range's pool, and for
      an admin those in ADMIN. */
  ghost predicate Listed(px: Proxmox, env: Env, r: Resource)
  {
    && (r.kind == "qemu" || r.kind == "lxc" || r.kind == "openvz")
    && (|| env.rangeID == "" || env.returnAllRanges
        || InPool(px, env.rangeID, r.vmid) || (env.userIsAdmin && InPool(px, "ADMIN", r.vmid)))
  }

  lemma {:induction false} EligibleExact(rs: seq<Resource>, filtered: bool, valid: set<nat>)
    ensures forall r ::
      multiset(Eligible(rs, filtered, valid))[r] == if IsMachine(r) && (filtered ==> r.vmid in valid)
        then multiset(rs)[r] else 0
  {
    if rs != [] {
      EligibleExact(rs[..|rs| - 1], filtered, valid);
      assert rs == rs[..|rs| - 1] + [rs[|rs| - 1]];
    }
  }

  lemma EligibleListed(px: Proxmox, env: Env, rs: seq<Resource>)
    ensures forall r ::
      multiset(Eligible(rs, RangeFilterEnabled(env), AllowedIds(px, env)))[r] == if Listed(px, env, r)
        then multiset(rs)[r] else 0
  {
    hide InPool, PoolIds;
    EligibleExact(rs, RangeFilterEnabled(env), AllowedIds(px, env));
    PoolMeans(px, env.rangeID);
    PoolMeans(px, ADMIN);
  }

  /** `order` is the order in which the workers finished. */
  method MainList(px: Proxmox, env: Env, l: Lookup, resources: seq<Resource>)
    returns (results: Results, tables: Tables, order: seq<Resource>)
    ensures fresh(tables)
    ensures forall r :: multiset(order)[r] == if Listed(px, env, r) then multiset(resources)[r] else 0
    ensures multiset(order) == multiset(Eligible(resources, RangeFilterEnabled(env), tables.validVMIDs))
    ensures tables.validVMIDs == AllowedIds(px, env)
    ensures forall g, h :: g in tables.groupMap ==>
      (h in tables.groupMap[g] <==> LoadedPool(px, env, g) && HostOf(px, g, h))
    ensures tables.groupMap.Keys == tables.poolGroups
    ensures forall g :: g in tables.poolGroups <==> KeptPool(px, env, g)
    ensures forall g :: g in tables.groupMap ==>
      Names(tables.groupMap[g]) == if LoadedPool(px, env, g) then PoolHosts(px, g) else {}
    ensures IsInventory(results, tables.groupMap, tables.poolGroups, l, order)
  {
    hide IsInventory, Collected, Visible, GroupsCover, FinalGroups, KeptPool, LoadedPool, AllowedIds, Names,
      Listed, HostOf, InPool, Eligible;
    EligibleListed(px, env, resources);
    tables := new Tables();
    tables.LoadPoolState(px, env);
    var machines := SelectMachines(resources, RangeFilterEnabled(env), tables.validVMIDs);
    order := RunWorkers(machines);
    var hostVars, allHosts := CollectHosts(l, order);
    var groups := BuildGroups(tables.groupMap, hostVars);
    var start: Results := map["all" := Hosts(allHosts), "_meta" := HostVars(hostVars)];
    results := FinishGroups(start, groups, tables.groupMap, tables.poolGroups, hostVars);
    FinalIsInventory(results, start, groups, tables.groupMap, tables.poolGroups, l, order);
  }
}

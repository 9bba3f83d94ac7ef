/** Pools and range filtering of the dynamic inventory: loadPoolState,
    loadPoolMembers and processMembers (dynamic-inventory/main.go). */
module PoolState {
  import opened Options

  /** The part of the environment that decides which pools count. */
  datatype Env = Env(rangeID: string, userIsAdmin: bool, returnAllRanges: bool)

  datatype Member = Member(kind: string, vmid: nat, name: string, template: int)

  /** What Proxmox answers: the list of pools, if it can be had, and each pool. */
  datatype Proxmox = Proxmox(pools: Option<seq<string>>, pool: string -> Option<seq<Member>>)

  const ADMIN := "ADMIN"

  predicate RangeFilterEnabled(env: Env)
  {
    env.rangeID != "" && !env.returnAllRanges
  }

  predicate Counted(m: Member)
  {
    m.kind == "qemu" || m.kind == "lxc"
  }

  /** The pools whose machines a range filter lets through. */
  predicate Selects(env: Env, poolID: string)
  {
    env.rangeID != "" && !env.returnAllRanges && (poolID == env.rangeID || (env.userIsAdmin && poolID == ADMIN))
  }

  /** The visible hosts of a pool, and the ids of its machines. */
  function HostsIn(ms: seq<Member>): set<string>
  {
    set m | m in ms && Counted(m) && m.template != 1 :: m.name
  }

  function IdsIn(ms: seq<Member>): set<nat>
  {
    set m | m in ms && Counted(m) :: m.vmid
  }

  function PoolHosts(px: Proxmox, poolID: string): set<string>
  {
    match px.pool(poolID)
    case None => {}
    case Some(ms) => HostsIn(ms)
  }

  function PoolIds(px: Proxmox, poolID: string): set<nat>
  {
    match px.pool(poolID)
    case None => {}
    case Some(ms) => IdsIn(ms)
  }

  function Names(xs: seq<string>): set<string>
  {
    set x | x in xs
  }

  /** The id is that of a machine in the pool. */
  ghost predicate InPool(px: Proxmox, g: string, id: nat)
  {
    px.pool(g).Some? && exists m :: m in px.pool(g).value && (m.kind == "qemu" || m.kind == "lxc") && m.vmid == id
  }

  /** A machine of the pool that is no template has this name. */
  ghost predicate HostOf(px: Proxmox, g: string, h: string)
  {
    px.pool(g).Some?
    && exists m :: m in px.pool(g).value && (m.kind == "qemu" || m.kind == "lxc") && m.template != 1 && m.name == h
  }

  lemma PoolMeans(px: Proxmox, g: string)
    ensures forall id :: id in PoolIds(px, g) <==> InPool(px, g, id)
    ensures forall h :: h in PoolHosts(px, g) <==> HostOf(px, g, h)
  {
  }

  /** The pools whose members are loaded. */
  ghost predicate LoadedPool(px: Proxmox, env: Env, g: string)
  {
    if env.rangeID != "" && !env.returnAllRanges then g == env.rangeID || (env.userIsAdmin && g == "ADMIN")
    else px.pools.Some? && g in px.pools.value && g != ""
  }

  /** The pools that stay groups even without a visible host. */
  ghost predicate KeptPool(px: Proxmox, env: Env, g: string)
  {
    || (env.rangeID != "" && g == env.rangeID)
    || (env.rangeID != "" && !env.returnAllRanges && env.userIsAdmin && g == "ADMIN" && px.pool(g).Some?)
    || ((env.rangeID == "" || env.returnAllRanges) && px.pools.Some? && g in px.pools.value && g != "")
  }

  /** The ids a range filter lets through. */
  function AllowedIds(px: Proxmox, env: Env): set<nat>
  {
    if env.rangeID == "" || env.returnAllRanges then {}
    else PoolIds(px, env.rangeID) + (if env.userIsAdmin then PoolIds(px, ADMIN) else {})
  }

  /** The three tables the loaders fill. */
  class Tables {
    var groupMap: map<string, seq<string>>
    var poolGroups: set<string>
    var validVMIDs: set<nat>

    constructor ()
      ensures groupMap == map[] && poolGroups == {} && validVMIDs == {}
    {
      groupMap := map[];
      poolGroups := {};
      validVMIDs := {};
    }

    method ProcessMembers(members: seq<Member>, poolID: string, env: Env)
      requires poolID in groupMap
      modifies this
      ensures poolGroups == old(poolGroups)
      ensures groupMap.Keys == old(groupMap.Keys)
      ensures forall g :: g in groupMap && g != poolID ==> groupMap[g] == old(groupMap[g])
      ensures Names(groupMap[poolID]) == Names(old(groupMap[poolID])) + HostsIn(members)
      ensures validVMIDs == old(validVMIDs) + (if Selects(env, poolID) then IdsIn(members) else {})
    {
      hide HostsIn, IdsIn, Names, Selects;
      NoMembers();
      assert members[..0] == [];
      for i := 0 to |members|
        invariant poolGroups == old(poolGroups) && groupMap.Keys == old(groupMap.Keys)
        invariant forall g :: g in groupMap && g != poolID ==> groupMap[g] == old(groupMap[g])
        invariant Names(groupMap[poolID]) == Names(old(groupMap[poolID])) + HostsIn(members[..i])
        invariant validVMIDs == old(validVMIDs) + (if Selects(env, poolID) then IdsIn(members[..i]) else {})
      {
        var m := members[i];
        MembersSnoc(members, i);
        if !Counted(m) {
          continue;
        }
        if m.template != 1 {
          NamesSnoc(groupMap[poolID], m.name);
          groupMap := groupMap[poolID := groupMap[poolID] + [m.name]];
        }
        if Selects(env, poolID) {
          validVMIDs := validVMIDs + {m.vmid};
        }
      }
      assert members[..|members|] == members;
    }

    method LoadPoolMembers(px: Proxmox, poolID: string, env: Env)
      modifies this
      ensures old(groupMap.Keys) <= groupMap.Keys
      ensures groupMap.Keys == old(groupMap.Keys) + (if poolID != "" && px.pool(poolID).Some? then {poolID} else {})
      ensures poolGroups == old(poolGroups) + (if poolID != "" && px.pool(poolID).Some? then {poolID} else {})
      ensures forall g :: g in old(groupMap) && g != poolID ==> groupMap[g] == old(groupMap[g])
      ensures poolID in groupMap && poolID != "" ==>
        Names(groupMap[poolID])
          == (if poolID in old(groupMap) then Names(old(groupMap[poolID])) else {}) + PoolHosts(px, poolID)
      ensures poolID == "" ==> groupMap == old(groupMap)
      ensures validVMIDs == old(validVMIDs) + (if Selects(env, poolID) && poolID != "" then PoolIds(px, poolID) else {})
    {
      if poolID == "" {
        return;
      }
      var pool := px.pool(poolID);
      if pool.None? {
        return;
      }
      if poolID !in groupMap {
        groupMap := groupMap[poolID := []];
      }
      poolGroups := poolGroups + {poolID};
      ProcessMembers(pool.value, poolID, env);
    }

    method LoadPoolState(px: Proxmox, env: Env)
      requires groupMap == map[] && poolGroups == {} && validVMIDs == {}
      modifies this
      ensures groupMap.Keys == poolGroups
      ensures forall g :: g in poolGroups <==> KeptPool(px, env, g)
      ensures forall g, h :: g in groupMap ==> (h in groupMap[g] <==> LoadedPool(px, env, g) && HostOf(px, g, h))
      ensures forall id :: id in validVMIDs <==>
        && env.rangeID != "" && !env.returnAllRanges
        && (InPool(px, env.rangeID, id) || (env.userIsAdmin && InPool(px, "ADMIN", id)))
      ensures forall g :: g in groupMap ==>
        Names(groupMap[g]) == if LoadedPool(px, env, g) then PoolHosts(px, g) else {}
      ensures validVMIDs == AllowedIds(px, env)
    {
      hide InPool, HostOf, PoolIds, PoolHosts;
      PoolMeans(px, env.rangeID);
      PoolMeans(px, ADMIN);
      if env.rangeID != "" {
        groupMap := groupMap[env.rangeID := []];
        poolGroups := {env.rangeID};
      }
      NamesEmpty();
      if RangeFilterEnabled(env) {
        LoadSelectedPools(px, env);
      } else if px.pools.Some? {
        LoadListedPools(px, env, px.pools.value);
      }
      forall g, h | g in groupMap
        ensures h in groupMap[g] <==> LoadedPool(px, env, g) && HostOf(px, g, h)
      {
        PoolMeans(px, g);
        assert h in groupMap[g] <==> h in Names(groupMap[g]);
      }
    }

    /** The filtered case: the requested range, and ADMIN for an admin. */
    method LoadSelectedPools(px: Proxmox, env: Env)
      requires RangeFilterEnabled(env)
      requires groupMap == map[env.rangeID := []] && poolGroups == {env.rangeID} && validVMIDs == {}
      modifies this
      ensures groupMap.Keys == poolGroups
      ensures forall g :: g in poolGroups <==> KeptPool(px, env, g)
      ensures forall g :: g in groupMap ==>
        Names(groupMap[g]) == if LoadedPool(px, env, g) then PoolHosts(px, g) else {}
      ensures validVMIDs == AllowedIds(px, env)
    {
      hide PoolHosts, PoolIds, Names;
      NamesEmpty();
      MissingPoolEmpty(px, env.rangeID);
      MissingPoolEmpty(px, ADMIN);
      LoadPoolMembers(px, env.rangeID, env);
      assert Names(groupMap[env.rangeID]) == PoolHosts(px, env.rangeID);
      if env.userIsAdmin {
        LoadPoolMembers(px, ADMIN, env);
      }
    }

    /** One listed pool starts out empty and is then loaded. */
    method LoadListedPool(px: Proxmox, env: Env, poolID: string)
      requires !RangeFilterEnabled(env) && poolID != "" && groupMap.Keys == poolGroups
      modifies this
      ensures groupMap.Keys == poolGroups == old(poolGroups) + {poolID}
      ensures forall g :: g in old(groupMap) && g != poolID ==> groupMap[g] == old(groupMap[g])
      ensures Names(groupMap[poolID]) == PoolHosts(px, poolID)
      ensures validVMIDs == old(validVMIDs)
    {
      hide PoolHosts, PoolIds, Names;
      NamesEmpty();
      MissingPoolEmpty(px, poolID);
      groupMap := groupMap[poolID := []];
      poolGroups := poolGroups + {poolID};
      LoadPoolMembers(px, poolID, env);
    }

    /** The unfiltered case: every pool Proxmox lists. */
    method LoadListedPools(px: Proxmox, env: Env, pools: seq<string>)
      requires !RangeFilterEnabled(env) && px.pools == Some(pools)
      requires poolGroups == (if env.rangeID != "" then {env.rangeID} else {}) && groupMap.Keys == poolGroups
        && validVMIDs == {}
      requires forall g :: g in groupMap ==> groupMap[g] == []
      modifies this
      ensures groupMap.Keys == poolGroups
      ensures forall g :: g in poolGroups <==> KeptPool(px, env, g)
      ensures forall g :: g in groupMap ==>
        Names(groupMap[g]) == if LoadedPool(px, env, g) then PoolHosts(px, g) else {}
      ensures validVMIDs == {}
    {
      hide PoolHosts, PoolIds, Names, KeptPool, LoadedPool, AllowedIds, Selects, RangeFilterEnabled;
      NamesEmpty();
      for i := 0 to |pools|
        invariant groupMap.Keys == poolGroups && validVMIDs == {}
        invariant forall g :: g in poolGroups <==>
          (env.rangeID != "" && g == env.rangeID) || (g in pools[..i] && g != "")
        invariant forall g :: g in groupMap ==>
          Names(groupMap[g]) == if g in pools[..i] && g != "" then PoolHosts(px, g) else {}
      {
        assert pools[..i + 1] == pools[..i] + [pools[i]];
        var poolID := pools[i];
        if poolID == "" {
          continue;
        }
        LoadListedPool(px, env, poolID);
      }
      assert pools[..|pools|] == pools;
      ListedMeans(px, env, pools);
    }
  }

  /** What being kept and being loaded come to without a filter. */
  lemma ListedMeans(px: Proxmox, env: Env, pools: seq<string>)
    requires !RangeFilterEnabled(env) && px.pools == Some(pools)
    ensures forall g :: KeptPool(px, env, g) <==> (env.rangeID != "" && g == env.rangeID) || (g in pools && g != "")
    ensures forall g :: LoadedPool(px, env, g) <==> g in pools && g != ""
  {
  }

  lemma MissingPoolEmpty(px: Proxmox, g: string)
    ensures px.pool(g).None? ==> PoolHosts(px, g) == {} && PoolIds(px, g) == {}
  {
  }

  lemma NamesEmpty()
    ensures Names([]) == {}
  {
  }

  lemma NamesSnoc(xs: seq<string>, x: string)
    ensures Names(xs + [x]) == Names(xs) + {x}
  {
  }

  lemma NoMembers()
    ensures HostsIn([]) == {} && IdsIn([]) == {}
  {
  }

  lemma MembersSnoc(ms: seq<Member>, i: nat)
    requires i < |ms|
    ensures HostsIn(ms[..i + 1])
      == HostsIn(ms[..i]) + (if Counted(ms[i]) && ms[i].template != 1 then {ms[i].name} else {})
    ensures IdsIn(ms[..i + 1]) == IdsIn(ms[..i]) + (if Counted(ms[i]) then {ms[i].vmid} else {})
  {
    assert ms[..i + 1] == ms[..i] + [ms[i]];
  }
}

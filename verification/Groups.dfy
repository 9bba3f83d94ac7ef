/** Bulk changes of group membership with a rollback per user:
    ludus-api/api_group_management.go. Record saves succeed; looking a user up,
    the Proxmox call and the playbook of every range may fail in any pattern. */
module Groups {

  datatype Group = Group(members: set<string>, managers: set<string>)

  /** The `groups` field of every user record, and every group record. */
  datatype Database = Database(userGroups: map<string, set<string>>, groups: map<string, Group>)

  datatype Role = Outside | Member | Manager

  function RoleOf(db: Database, g: string, u: string): Role
    requires g in db.groups
  {
    if u in db.groups[g].managers then Manager else if u in db.groups[g].members then Member else Outside
  }

  function RoleFor(asManager: bool): Role
  {
    if asManager then Manager else Member
  }

  /** The two sides of the relation agree, and nobody holds two roles. */
  ghost predicate Consistent(db: Database)
  {
    && (forall u, g :: u in db.userGroups && g in db.groups ==>
        (g in db.userGroups[u] <==> u in db.groups[g].members || u in db.groups[g].managers))
    && (forall g :: g in db.groups ==> db.groups[g].members !! db.groups[g].managers)
    && (forall g :: g in db.groups ==> db.groups[g].members + db.groups[g].managers <= db.userGroups.Keys)
  }

  /** What the access control playbook of one range comes to. A playbook error on
      a range that is not deployed is passed over. */
  datatype RangeOutcome = PlaybookOk | RouterOff | NotDeployed | Deployed | DeployCheckFailed

  predicate Blocks(o: RangeOutcome)
  {
    o.RouterOff? || o.Deployed? || o.DeployCheckFailed?
  }

  predicate Blocked(playbooks: seq<RangeOutcome>)
  {
    exists o :: o in playbooks && Blocks(o)
  }

  /** What the outside world does while one user of the request is handled. */
  datatype Weather = Weather(lookupOk: bool, proxmoxOk: bool, playbooks: seq<RangeOutcome>)

  function Joined(group: Group, u: string, asManager: bool): Group
  {
    if asManager then group.(managers := group.managers + {u}) else group.(members := group.members + {u})
  }

  function Parted(group: Group, u: string, asManager: bool): Group
  {
    if asManager then group.(managers := group.managers - {u}) else group.(members := group.members - {u})
  }

  /** A request under way: the database, the group record it holds in memory,
      and the two lists it will answer with. */
  datatype Session = Session(db: Database, group: Group, success: seq<string>, errors: seq<string>)

  function Saved(db: Database, g: string, u: string, of: set<string>, group: Group): Database
  {
    Database(db.userGroups[u := of], db.groups[g := group])
  }

  function AddItem(s: Session, g: string, u: string, asManager: bool, w: Weather): Session
  {
    if !w.lookupOk || u !in s.db.userGroups || g in s.db.userGroups[u] then s.(errors := s.errors + [u])
    else
      var joined := Joined(s.group, u, asManager);
      var parted := Parted(joined, u, asManager);
      var of := s.db.userGroups[u];
      if !w.proxmoxOk then s.(group := parted, errors := s.errors + [u])
      else if Blocked(w.playbooks) then
        Session(Saved(s.db, g, u, of + {g} - {g}, parted), parted, s.success, s.errors + [u])
      else Session(Saved(s.db, g, u, of + {g}, joined), joined, s.success + [u], s.errors)
  }

  /** `loaded` is the group's list of managers as the request loaded it: the role
      of a user is read from that list, which later changes do not refresh. */
  function RemoveItem(s: Session, loaded: set<string>, g: string, u: string, w: Weather): Session
  {
    if !w.lookupOk || u !in s.db.userGroups || !w.proxmoxOk then s.(errors := s.errors + [u])
    else
      var parted := Parted(s.group, u, u in loaded);
      var joined := Joined(parted, u, u in loaded);
      var of := s.db.userGroups[u];
      if Blocked(w.playbooks) then
        Session(Saved(s.db, g, u, of - {g} + {g}, joined), joined, s.success, s.errors + [u])
      else Session(Saved(s.db, g, u, of - {g}, parted), parted, s.success + [u], s.errors)
  }

  function AddFirst(s: Session, g: string, ids: seq<string>, managers: seq<string>, ws: seq<Weather>, n: nat): Session
    requires n <= |ids| == |ws|
  {
    if n == 0 then s
    else AddItem(AddFirst(s, g, ids, managers, ws, n - 1), g, ids[n - 1], ids[n - 1] in managers, ws[n - 1])
  }

  function RemoveFirst(s: Session, loaded: set<string>, g: string, ids: seq<string>, ws: seq<Weather>, n: nat): Session
    requires n <= |ids| == |ws|
  {
    if n == 0 then s
    else RemoveItem(RemoveFirst(s, loaded, g, ids, ws, n - 1), loaded, g, ids[n - 1], ws[n - 1])
  }

  function Start(db: Database, g: string): Session
    requires g in db.groups
  {
    Session(db, db.groups[g], [], [])
  }

  datatype Response = NoGroup | Forbidden | BadRequest | Done(success: seq<string>, errors: seq<string>)

  class Directory {
    var userGroups: map<string, set<string>>
    var groups: map<string, Group>

    constructor (db: Database)
      ensures Db() == db
    {
      userGroups := db.userGroups;
      groups := db.groups;
    }

    ghost function Db(): Database
      reads this
    {
      Database(userGroups, groups)
    }

    /** The loop over the group's ranges stops at the first one that blocks. */
    method RunPlaybooks(playbooks: seq<RangeOutcome>) returns (playbookError: bool)
      ensures playbookError <==> Blocked(playbooks)
    {
      for i := 0 to |playbooks|
        invariant !Blocked(playbooks[..i])
      {
        assert playbooks[..i + 1] == playbooks[..i] + [playbooks[i]];
        if Blocks(playbooks[i]) {
          return true;
        }
      }
      assert playbooks[..|playbooks|] == playbooks;
      return false;
    }

    method AddUsersToGroup(actor: string, isAdmin: bool, g: string, ids: seq<string>, managers: seq<string>,
                           ws: seq<Weather>)
      returns (response: Response)
      requires |ids| == |ws|
      modifies this
      ensures !response.Done? ==> Db() == old(Db())
      ensures response.NoGroup? <==> g !in old(groups)
      ensures response.Forbidden? <==> g in old(groups) && !isAdmin && RoleOf(old(Db()), g, actor) != Manager
      ensures response.BadRequest? <==>
        g in old(groups) && (isAdmin || RoleOf(old(Db()), g, actor) == Manager) && ids == []
      ensures response.Done? ==>
        var end := AddFirst(Start(old(Db()), g), g, ids, managers, ws, |ids|);
        Db() == end.db && response == Done(end.success, end.errors)
    {
      if g !in groups {
        return NoGroup;
      }
      if actor !in groups[g].managers && !isAdmin {
        return Forbidden;
      }
      if ids == [] {
        return BadRequest;
      }
      var group := groups[g];
      var success: seq<string>, errors: seq<string> := [], [];
      ghost var start := Start(Db(), g);
      for i := 0 to |ids|
        invariant Session(Db(), group, success, errors) == AddFirst(start, g, ids, managers, ws, i)
      {
        hide AddFirst, Blocked;
        AddNext(start, g, ids, managers, ws, i);
        var u := ids[i];
        var isManager := u in managers;
        if !ws[i].lookupOk || u !in userGroups {
          errors := errors + [u];
          continue;
        }
        var of := userGroups[u];
        if g in of {
          errors := errors + [u];
          continue;
        }
        of := of + {g};
        group := Joined(group, u, isManager);
        if !ws[i].proxmoxOk {
          errors := errors + [u];
          group := Parted(group, u, isManager);
          continue;
        }
        ghost var db := Db();
        ghost var savedOf, savedGroup := of, group;
        userGroups := userGroups[u := of];
        groups := groups[g := group];
        assert Db() == Saved(db, g, u, of, group);
        hide Saved, Joined, Parted;
        var playbookError := RunPlaybooks(ws[i].playbooks);
        if playbookError {
          of := of - {g};
          userGroups := userGroups[u := of];
          group := Parted(group, u, isManager);
          groups := groups[g := group];
          SavedIs(db, g, u, savedOf, savedGroup, of, group);
          SavedTwice(db, g, u, savedOf, savedGroup, of, group);
          errors := errors + [u];
        } else {
          success := success + [u];
        }
      }
      return Done(success, errors);
    }

    method RemoveUsersFromGroup(actor: string, isAdmin: bool, g: string, ids: seq<string>, ws: seq<Weather>)
      returns (response: Response)
      requires |ids| == |ws|
      modifies this
      ensures !response.Done? ==> Db() == old(Db())
      ensures response.NoGroup? <==> g !in old(groups)
      ensures response.Forbidden? <==> g in old(groups) && !isAdmin && RoleOf(old(Db()), g, actor) != Manager
      ensures response.BadRequest? <==>
        g in old(groups) && (isAdmin || RoleOf(old(Db()), g, actor) == Manager) && ids == []
      ensures response.Done? ==>
        var end := RemoveFirst(Start(old(Db()), g), old(groups[g].managers), g, ids, ws, |ids|);
        Db() == end.db && response == Done(end.success, end.errors)
    {
      if g !in groups {
        return NoGroup;
      }
      if actor !in groups[g].managers && !isAdmin {
        return Forbidden;
      }
      if ids == [] {
        return BadRequest;
      }
      var group := groups[g];
      var loaded := group.managers;
      var success: seq<string>, errors: seq<string> := [], [];
      ghost var start := Start(Db(), g);
      for i := 0 to |ids|
        invariant Session(Db(), group, success, errors) == RemoveFirst(start, loaded, g, ids, ws, i)
      {
        hide RemoveFirst, Blocked;
        RemoveNext(start, loaded, g, ids, ws, i);
        var u := ids[i];
        if !ws[i].lookupOk || u !in userGroups {
          errors := errors + [u];
          continue;
        }
        if !ws[i].proxmoxOk {
          errors := errors + [u];
          continue;
        }
        var of := userGroups[u] - {g};
        var isManager := u in loaded;
        group := Parted(group, u, isManager);
        ghost var db := Db();
        ghost var savedOf, savedGroup := of, group;
        userGroups := userGroups[u := of];
        groups := groups[g := group];
        assert Db() == Saved(db, g, u, of, group);
        hide Saved, Joined, Parted;
        var playbookError := RunPlaybooks(ws[i].playbooks);
        if playbookError {
          group := Joined(group, u, isManager);
          groups := groups[g := group];
          of := of + {g};
          userGroups := userGroups[u := of];
          SavedIs(db, g, u, savedOf, savedGroup, of, group);
          SavedTwice(db, g, u, savedOf, savedGroup, of, group);
          errors := errors + [u];
        } else {
          success := success + [u];
        }
      }
      return Done(success, errors);
    }
  }

  /** Saving a record after another, field by field. */
  lemma SavedIs(db: Database, g: string, u: string, of: set<string>, group: Group, of2: set<string>, group2: Group)
    ensures Saved(Saved(db, g, u, of, group), g, u, of2, group2)
         == Database(Saved(db, g, u, of, group).userGroups[u := of2], Saved(db, g, u, of, group).groups[g := group2])
  {
  }

  /** A second save of the same records replaces the first. */
  lemma SavedTwice(db: Database, g: string, u: string, of: set<string>, group: Group, of2: set<string>, group2: Group)
    ensures Saved(Saved(db, g, u, of, group), g, u, of2, group2) == Saved(db, g, u, of2, group2)
  {
  }

  lemma AddNext(s: Session, g: string, ids: seq<string>, managers: seq<string>, ws: seq<Weather>, n: nat)
    requires n < |ids| == |ws|
    ensures AddFirst(s, g, ids, managers, ws, n + 1)
         == AddItem(AddFirst(s, g, ids, managers, ws, n), g, ids[n], ids[n] in managers, ws[n])
  {
  }

  lemma RemoveNext(s: Session, loaded: set<string>, g: string, ids: seq<string>, ws: seq<Weather>, n: nat)
    requires n < |ids| == |ws|
    ensures RemoveFirst(s, loaded, g, ids, ws, n + 1)
         == RemoveItem(RemoveFirst(s, loaded, g, ids, ws, n), loaded, g, ids[n], ws[n])
  {
  }

  // ---------------------------------------------------------------- One user of a request

  /** Between two users of a request: memory agrees with the database, and every
      current role is the one the list loaded at the start gives. */
  ghost predicate Settled(s: Session, loaded: set<string>, g: string)
  {
    && Consistent(s.db) && g in s.db.groups && s.group == s.db.groups[g]
    && s.group.managers <= loaded && s.group.members !! loaded
  }

  ghost predicate OthersKept(before: Database, after: Database, g: string, u: string)
    requires g in before.groups
  {
    && after.userGroups.Keys == before.userGroups.Keys && after.groups.Keys == before.groups.Keys
    && (forall h :: h in before.groups && h != g ==> after.groups[h] == before.groups[h])
    && (forall v :: v != u ==> RoleOf(after, g, v) == RoleOf(before, g, v))
    && (forall v :: v in before.userGroups ==> after.userGroups[v] - {g} == before.userGroups[v] - {g})
  }

  ghost predicate InMemory(s: Session, g: string)
  {
    Consistent(s.db) && g in s.db.groups && s.group == s.db.groups[g]
  }

  lemma AddedConsistent(db: Database, g: string, u: string, asManager: bool)
    requires Consistent(db) && g in db.groups && u in db.userGroups && g !in db.userGroups[u]
    ensures var after := Saved(db, g, u, db.userGroups[u] + {g}, Joined(db.groups[g], u, asManager));
            Consistent(after) && RoleOf(after, g, u) == RoleFor(asManager) && OthersKept(db, after, g, u)
  {
  }

  lemma RemovedConsistent(db: Database, g: string, u: string, asManager: bool)
    requires Consistent(db) && g in db.groups && u in db.userGroups
    requires RoleOf(db, g, u) == Outside || RoleOf(db, g, u) == RoleFor(asManager)
    ensures var after := Saved(db, g, u, db.userGroups[u] - {g}, Parted(db.groups[g], u, asManager));
            Consistent(after) && RoleOf(after, g, u) == Outside && OthersKept(db, after, g, u)
  {
  }

  /** The user of an add that goes through. */
  ghost predicate Passes(db: Database, u: string, w: Weather)
  {
    w.lookupOk && u in db.userGroups && w.proxmoxOk && Clear(w)
  }

  /** Every range's playbook works, or fails on a range that is not deployed. */
  ghost predicate Clear(w: Weather)
  {
    forall o :: o in w.playbooks ==> o.PlaybookOk? || o.NotDeployed?
  }

  lemma ClearIff(w: Weather)
    ensures Clear(w) <==> !Blocked(w.playbooks)
  {
  }

  /** Taking back an add leaves the record as it was. */
  lemma JoinThenPart(db: Database, g: string, u: string, asManager: bool)
    requires Consistent(db) && g in db.groups && u in db.userGroups && g !in db.userGroups[u]
    ensures Parted(Joined(db.groups[g], u, asManager), u, asManager) == db.groups[g]
    ensures Saved(db, g, u, db.userGroups[u] + {g} - {g}, db.groups[g]) == db
  {
    assert db.userGroups[u] + {g} - {g} == db.userGroups[u];
    var group := db.groups[g];
    assert group.members + {u} - {u} == group.members && group.managers + {u} - {u} == group.managers;
  }

  lemma AddItemRole(s: Session, g: string, u: string, asManager: bool, w: Weather)
    requires InMemory(s, g)
    ensures var t := AddItem(s, g, u, asManager, w);
            var before := RoleOf(s.db, g, u);
            && InMemory(t, g) && OthersKept(s.db, t.db, g, u)
            && RoleOf(t.db, g, u) == (if before == Outside && Passes(s.db, u, w) then RoleFor(asManager) else before)
            && (t.errors != s.errors ==> t.db == s.db)
            && t.success == s.success + (if before == Outside && Passes(s.db, u, w) then [u] else [])
            && t.errors == s.errors + (if before == Outside && Passes(s.db, u, w) then [] else [u])
  {
    ClearIff(w);
    hide Blocked, Clear;
    if w.lookupOk && u in s.db.userGroups && g !in s.db.userGroups[u] {
      AddedConsistent(s.db, g, u, asManager);
      JoinThenPart(s.db, g, u, asManager);
    }
  }

  /** The user of a remove that gets as far as changing the records. */
  predicate Reaches(db: Database, u: string, w: Weather)
  {
    w.lookupOk && u in db.userGroups && w.proxmoxOk
  }

  lemma PartThenJoin(db: Database, g: string, u: string, asManager: bool)
    requires g in db.groups && u in db.userGroups
    requires g in db.userGroups[u]
    requires u in (if asManager then db.groups[g].managers else db.groups[g].members)
    ensures Joined(Parted(db.groups[g], u, asManager), u, asManager) == db.groups[g]
    ensures Saved(db, g, u, db.userGroups[u] - {g} + {g}, db.groups[g]) == db
  {
    assert db.userGroups[u] - {g} + {g} == db.userGroups[u];
    var group := db.groups[g];
    if asManager {
      assert group.managers - {u} + {u} == group.managers;
    } else {
      assert group.members - {u} + {u} == group.members;
    }
  }

  lemma PartOutsider(db: Database, g: string, u: string, asManager: bool)
    requires Consistent(db) && g in db.groups && u in db.userGroups && RoleOf(db, g, u) == Outside
    ensures Joined(Parted(db.groups[g], u, asManager), u, asManager) == Joined(db.groups[g], u, asManager)
    ensures db.userGroups[u] - {g} + {g} == db.userGroups[u] + {g}
    ensures g !in db.userGroups[u]
  {
    var group := db.groups[g];
    assert group.members - {u} == group.members && group.managers - {u} == group.managers;
  }

  lemma RemoveItemRole(s: Session, loaded: set<string>, g: string, u: string, w: Weather)
    requires Settled(s, loaded, g)
    ensures var t := RemoveItem(s, loaded, g, u, w);
            && InMemory(t, g) && OthersKept(s.db, t.db, g, u)
            && RoleOf(t.db, g, u) == (if !Reaches(s.db, u, w) then RoleOf(s.db, g, u)
                                      else if Clear(w) then Outside else RoleFor(u in loaded))
            && t.success == s.success + (if Reaches(s.db, u, w) && Clear(w) then [u] else [])
            && t.errors == s.errors + (if Reaches(s.db, u, w) && Clear(w) then [] else [u])
  {
    ClearIff(w);
    hide Blocked, Clear;
    if Reaches(s.db, u, w) {
      RemovedConsistent(s.db, g, u, u in loaded);
      if RoleOf(s.db, g, u) == Outside {
        PartOutsider(s.db, g, u, u in loaded);
        AddedConsistent(s.db, g, u, u in loaded);
      } else {
        PartThenJoin(s.db, g, u, u in loaded);
      }
    }
  }

  lemma RemoveItemSettled(s: Session, loaded: set<string>, g: string, u: string, w: Weather)
    requires Settled(s, loaded, g)
    ensures Settled(RemoveItem(s, loaded, g, u, w), loaded, g)
  {
    RemoveItemRole(s, loaded, g, u, w);
    hide Blocked, Consistent;
  }

  // ---------------------------------------------------------------- Whole requests

  /** After a bulk add, whoever was in the group has the role they had; anyone
      else is in exactly if one of their turns went through. */
  lemma {:induction false} BulkAddRoles(db: Database, g: string, ids: seq<string>, managers: seq<string>,
                                        ws: seq<Weather>, n: nat, u: string)
    requires Consistent(db) && g in db.groups && n <= |ids| == |ws|
    ensures var end := AddFirst(Start(db, g), g, ids, managers, ws, n);
            && InMemory(end, g) && end.db.userGroups.Keys == db.userGroups.Keys
            && end.db.groups.Keys == db.groups.Keys
            && RoleOf(end.db, g, u)
               == (if RoleOf(db, g, u) == Outside && (exists i :: 0 <= i < n && ids[i] == u && Passes(db, u, ws[i]))
                   then RoleFor(u in managers) else RoleOf(db, g, u))
  {
    hide Blocked, Consistent;
    if n > 0 {
      BulkAddRoles(db, g, ids, managers, ws, n - 1, u);
      var s := AddFirst(Start(db, g), g, ids, managers, ws, n - 1);
      AddItemRole(s, g, ids[n - 1], ids[n - 1] in managers, ws[n - 1]);
      assert ids[n - 1] == u && Passes(db, u, ws[n - 1]) ==>
        exists i :: 0 <= i < n && ids[i] == u && Passes(db, u, ws[i]);
      assert forall i :: 0 <= i < n && ids[i] == u && Passes(db, u, ws[i]) && i != n - 1 ==> 0 <= i < n - 1;
    }
  }

  /** A turn of `u` that changes the records in a bulk remove. */
  predicate Counts(db: Database, ids: seq<string>, ws: seq<Weather>, u: string, i: int)
    requires |ids| == |ws|
  {
    0 <= i < |ids| && ids[i] == u && Reaches(db, u, ws[i])
  }

  /** None of the first n turns after turn i counts for the user. */
  ghost predicate LastTurn(db: Database, ids: seq<string>, ws: seq<Weather>, u: string, i: nat, n: nat)
    requires n <= |ids| == |ws|
  {
    forall j :: i < j < n ==> !Counts(db, ids, ws, u, j)
  }

  /** After a bulk remove, a user's role is decided by their last turn that
      reached the records: out if the playbooks let it through, and otherwise
      back with the role the group listed at the start. Repeated users and
      users from outside the group are covered. */
  lemma {:induction false} BulkRemoveRoles(db: Database, g: string, ids: seq<string>, ws: seq<Weather>, n: nat,
                                           u: string)
    requires Consistent(db) && g in db.groups && n <= |ids| == |ws|
    ensures var loaded := db.groups[g].managers;
            var end := RemoveFirst(Start(db, g), loaded, g, ids, ws, n);
            && Settled(end, loaded, g) && end.db.userGroups.Keys == db.userGroups.Keys
            && end.db.groups.Keys == db.groups.Keys
            && ((forall i :: 0 <= i < n ==> !Counts(db, ids, ws, u, i)) ==> RoleOf(end.db, g, u) == RoleOf(db, g, u))
            && (forall i :: 0 <= i < n && Counts(db, ids, ws, u, i) && LastTurn(db, ids, ws, u, i, n) ==>
                RoleOf(end.db, g, u) == if Clear(ws[i]) then Outside else RoleFor(u in loaded))
  {
    var loaded := db.groups[g].managers;
    if n > 0 {
      BulkRemoveRoles(db, g, ids, ws, n - 1, u);
      var s := RemoveFirst(Start(db, g), loaded, g, ids, ws, n - 1);
      RemoveItemRole(s, loaded, g, ids[n - 1], ws[n - 1]);
      RemoveItemSettled(s, loaded, g, ids[n - 1], ws[n - 1]);
      hide Blocked, Consistent;
      assert Counts(db, ids, ws, u, n - 1) <==> ids[n - 1] == u && Reaches(s.db, u, ws[n - 1]);
    }
  }

  // ---------------------------------------------------------------- The answer

  /** The ids whose verdict is `want`, in order. */
  function Sifted(ids: seq<string>, verdicts: seq<bool>, want: bool): seq<string>
    requires |ids| == |verdicts|
  {
    if ids == [] then []
    else
      Sifted(ids[..|ids| - 1], verdicts[..|ids| - 1], want)
      + (if verdicts[|ids| - 1] == want then [ids[|ids| - 1]] else [])
  }

  /** Every id is in exactly one of the two lists, as often as it was asked for. */
  lemma {:induction false} SiftedPartitions(ids: seq<string>, verdicts: seq<bool>)
    requires |ids| == |verdicts|
    ensures multiset(Sifted(ids, verdicts, true)) + multiset(Sifted(ids, verdicts, false)) == multiset(ids)
  {
    if ids != [] {
      SiftedPartitions(ids[..|ids| - 1], verdicts[..|ids| - 1]);
      assert ids == ids[..|ids| - 1] + [ids[|ids| - 1]];
    }
  }

  lemma SiftedSnoc(ids: seq<string>, verdicts: seq<bool>, u: string, v: bool, want: bool)
    requires |ids| == |verdicts|
    ensures Sifted(ids + [u], verdicts + [v], want) == Sifted(ids, verdicts, want) + (if v == want then [u] else [])
  {
    assert (ids + [u])[..|ids|] == ids && (verdicts + [v])[..|ids|] == verdicts;
  }

  /** Turn i brings its user in: from outside, with everything working, for the first time. */
  ghost predicate BringsIn(db: Database, g: string, ids: seq<string>, ws: seq<Weather>, i: int)
    requires g in db.groups && |ids| == |ws|
  {
    && 0 <= i < |ids| && RoleOf(db, g, ids[i]) == Outside && Passes(db, ids[i], ws[i])
    && forall j :: 0 <= j < i && ids[j] == ids[i] ==> !Passes(db, ids[j], ws[j])
  }

  /** In terms of the records as they are at turn i: the user is outside, and the turn goes through. */
  lemma BringsInNow(db: Database, now: Database, g: string, ids: seq<string>, ws: seq<Weather>, i: nat, role: Role)
    requires g in db.groups && g in now.groups && i < |ids| == |ws| && role != Outside
    requires now.userGroups.Keys == db.userGroups.Keys
    requires RoleOf(now, g, ids[i])
      == if RoleOf(db, g, ids[i]) == Outside
        && (exists j :: 0 <= j < i && ids[j] == ids[i] && Passes(db, ids[i], ws[j]))
         then role else RoleOf(db, g, ids[i])
    ensures BringsIn(db, g, ids, ws, i) <==> RoleOf(now, g, ids[i]) == Outside && Passes(now, ids[i], ws[i])
  {
    SameUsersPass(db, now, ids[i], ws[i]);
    hide Passes, RoleOf, Reaches;
  }

  /** The answer to a bulk add: the ids asked for in two lists, in order, the users
      this request brought in and all the others. */
  lemma {:induction false} BulkAddAnswer(db: Database, g: string, ids: seq<string>, managers: seq<string>,
                                         ws: seq<Weather>, n: nat, verdicts: seq<bool>)
    requires Consistent(db) && g in db.groups && n <= |ids| == |ws|
    requires |verdicts| == n && forall i :: 0 <= i < n ==> (verdicts[i] <==> BringsIn(db, g, ids, ws, i))
    ensures var end := AddFirst(Start(db, g), g, ids, managers, ws, n);
            end.success == Sifted(ids[..n], verdicts, true) && end.errors == Sifted(ids[..n], verdicts, false)
  {
    if n > 0 {
      hide Passes, Consistent, AddFirst, AddItem, Sifted, BringsIn, RoleOf;
      AddNext(Start(db, g), g, ids, managers, ws, n - 1);
      var u, s := ids[n - 1], AddFirst(Start(db, g), g, ids, managers, ws, n - 1);
      BulkAddAnswer(db, g, ids, managers, ws, n - 1, verdicts[..n - 1]);
      BulkAddRoles(db, g, ids, managers, ws, n - 1, u);
      AddItemRole(s, g, u, u in managers, ws[n - 1]);
      BringsInNow(db, s.db, g, ids, ws, n - 1, RoleFor(u in managers));
      assert ids[..n] == ids[..n - 1] + [u] && verdicts == verdicts[..n - 1] + [verdicts[n - 1]];
      SiftedSnoc(ids[..n - 1], verdicts[..n - 1], u, verdicts[n - 1], true);
      SiftedSnoc(ids[..n - 1], verdicts[..n - 1], u, verdicts[n - 1], false);
    }
  }

  lemma SameUsersPass(a: Database, b: Database, u: string, w: Weather)
    requires a.userGroups.Keys == b.userGroups.Keys
    ensures Passes(a, u, w) == Passes(b, u, w) && Reaches(a, u, w) == Reaches(b, u, w)
  {
    assert u in a.userGroups.Keys <==> u in b.userGroups.Keys;
  }

  lemma StaysSettled(db: Database, g: string, ids: seq<string>, ws: seq<Weather>, n: nat)
    requires Consistent(db) && g in db.groups && n <= |ids| == |ws|
    ensures var s := RemoveFirst(Start(db, g), db.groups[g].managers, g, ids, ws, n);
            Settled(s, db.groups[g].managers, g) && s.db.userGroups.Keys == db.userGroups.Keys
  {
    hide RemoveFirst, RoleOf, Settled, Consistent;
    BulkRemoveRoles(db, g, ids, ws, n, "");
  }

  lemma RemoveItemAnswer(s: Session, loaded: set<string>, g: string, u: string, w: Weather)
    requires Settled(s, loaded, g)
    ensures var t := RemoveItem(s, loaded, g, u, w);
            && t.success == s.success + (if Reaches(s.db, u, w) && Clear(w) then [u] else [])
            && t.errors == s.errors + (if Reaches(s.db, u, w) && Clear(w) then [] else [u])
  {
    hide RemoveItem, Settled, InMemory, OthersKept, RoleOf, Reaches, Clear;
    RemoveItemRole(s, loaded, g, u, w);
  }

  /** The answer to a bulk removal: the users whose removal went through, and all the others. */
  lemma {:induction false} BulkRemoveAnswer(db: Database, g: string, ids: seq<string>, ws: seq<Weather>, n: nat,
                                            verdicts: seq<bool>)
    requires Consistent(db) && g in db.groups && n <= |ids| == |ws|
    requires |verdicts| == n
    requires forall i :: 0 <= i < n ==> (verdicts[i] <==> Reaches(db, ids[i], ws[i]) && Clear(ws[i]))
    ensures var end := RemoveFirst(Start(db, g), db.groups[g].managers, g, ids, ws, n);
            end.success == Sifted(ids[..n], verdicts, true) && end.errors == Sifted(ids[..n], verdicts, false)
  {
    if n > 0 {
      hide Passes, Consistent, Clear, Reaches, RemoveFirst, RemoveItem, RoleOf, Sifted, Settled;
      RemoveNext(Start(db, g), db.groups[g].managers, g, ids, ws, n - 1);
      var loaded, u := db.groups[g].managers, ids[n - 1];
      var s := RemoveFirst(Start(db, g), loaded, g, ids, ws, n - 1);
      BulkRemoveAnswer(db, g, ids, ws, n - 1, verdicts[..n - 1]);
      StaysSettled(db, g, ids, ws, n - 1);
      RemoveItemAnswer(s, loaded, g, u, ws[n - 1]);
      SameUsersPass(db, s.db, u, ws[n - 1]);
      assert ids[..n] == ids[..n - 1] + [u] && verdicts == verdicts[..n - 1] + [verdicts[n - 1]];
      SiftedSnoc(ids[..n - 1], verdicts[..n - 1], u, verdicts[n - 1], true);
      SiftedSnoc(ids[..n - 1], verdicts[..n - 1], u, verdicts[n - 1], false);
    }
  }

  // ---------------------------------------------------------------- Runs

  datatype Request =
    | AddUsers(g: string, ids: seq<string>, managers: seq<string>, ws: seq<Weather>)
    | RemoveUsers(g: string, ids: seq<string>, ws: seq<Weather>)

  predicate WellPosed(r: Request)
  {
    |r.ids| == |r.ws|
  }

  function Handle(db: Database, r: Request): Database
    requires WellPosed(r)
  {
    if r.g !in db.groups then db
    else
      match r
      case AddUsers(g, ids, managers, ws) => AddFirst(Start(db, g), g, ids, managers, ws, |ids|).db
      case RemoveUsers(g, ids, ws) => RemoveFirst(Start(db, g), db.groups[g].managers, g, ids, ws, |ids|).db
  }

  function RunRequests(db: Database, rs: seq<Request>): Database
    requires forall r :: r in rs ==> WellPosed(r)
    decreases |rs|
  {
    if rs == [] then db else RunRequests(Handle(db, rs[0]), rs[1..])
  }

  /** Every run of bulk adds and removes keeps the two sides of the relation in
      agreement and the two roles apart, whatever fails on the way. */
  lemma {:induction false} RunsStayConsistent(db: Database, rs: seq<Request>)
    requires Consistent(db) && forall r :: r in rs ==> WellPosed(r)
    ensures Consistent(RunRequests(db, rs))
    decreases |rs|
  {
    hide Consistent;
    if rs != [] {
      var r := rs[0];
      assert r in rs && WellPosed(r);
      if r.g in db.groups {
        if r.AddUsers? {
          BulkAddRoles(db, r.g, r.ids, r.managers, r.ws, |r.ids|, "");
        } else {
          BulkRemoveRoles(db, r.g, r.ids, r.ws, |r.ids|, "");
        }
      }
      assert Consistent(Handle(db, r));
      RunsStayConsistent(Handle(db, r), rs[1..]);
    }
  }

  // ---------------------------------------------------------------- The failed remove

  ghost predicate RemoveFails(db: Database, g: string, u: string, w: Weather)
    requires g in db.groups
  {
    RemoveItem(Start(db, g), db.groups[g].managers, g, u, w).errors != []
  }

  /** A failed remove gives back the records as they were, whatever failed, if
      and only if the user was in the group to begin with. */
  lemma FailedRemoveRestoresIff(db: Database, g: string, u: string)
    requires Consistent(db) && g in db.groups && u in db.userGroups
    ensures (forall w :: RemoveFails(db, g, u, w) ==>
              RemoveItem(Start(db, g), db.groups[g].managers, g, u, w).db == db)
            <==> RoleOf(db, g, u) != Outside
  {
    var loaded := db.groups[g].managers;
    if RoleOf(db, g, u) != Outside {
      forall w | RemoveFails(db, g, u, w) ensures RemoveItem(Start(db, g), loaded, g, u, w).db == db {
        if Reaches(db, u, w) {
          PartThenJoin(db, g, u, u in loaded);
        }
      }
    } else {
      var w := Weather(true, true, [RouterOff]);
      assert !Clear(w) by {
        assert RouterOff in w.playbooks;
      }
      FailedRemoveAdds(db, g, u, w);
    }
  }

  /** The other side of it: an outsider whose removal is blocked becomes a member. */
  lemma FailedRemoveAdds(db: Database, g: string, u: string, w: Weather)
    requires Consistent(db) && g in db.groups && u in db.userGroups && RoleOf(db, g, u) == Outside
    requires w.lookupOk && w.proxmoxOk && !Clear(w)
    ensures RemoveFails(db, g, u, w)
    ensures RoleOf(RemoveItem(Start(db, g), db.groups[g].managers, g, u, w).db, g, u) == Member
  {
    hide Blocked, Clear;
    RemoveItemRole(Start(db, g), db.groups[g].managers, g, u, w);
  }
}

/** BuildBlueprintDir (ludus-api/blueprint_dir.go): the staged directory of a
    blueprint made from a range config, with a requirements.yml worked out from
    the roles on the server, and cleaned up unless it was committed. */
module BlueprintDir {
  import opened StringOrder
  import opened Options
  import opened Source
  import opened Routing

  /** A roles directory: the roles in it, each with the version that
      ansible-galaxy recorded, if it installed the role. */
  type RoleStore = map<string, Option<string>>

  datatype Server = Server(subscriptions: set<string>, userRoles: RoleStore, globalRoles: Option<RoleStore>)

  datatype Origin = Subscription | Galaxy(version: string) | Custom

  function FromStore(store: RoleStore, role: string): Origin
    requires role in store
  {
    if store[role].Some? then Galaxy(store[role].value) else Custom
  }

  /** The catalog first, then the user's roles, then the global ones; a role found
      nowhere is left to Galaxy. */
  function OriginOf(server: Server, role: string): Origin
  {
    if role in server.subscriptions then Subscription
    else if role in server.userRoles then FromStore(server.userRoles, role)
    else if server.globalRoles.Some? && role in server.globalRoles.value then FromStore(server.globalRoles.value, role)
    else Galaxy("")
  }

  /** The role is on the server, where it counts, without a version that Galaxy recorded. */
  ghost predicate CustomOn(server: Server, role: string)
  {
    && role !in server.subscriptions
    && (|| (role in server.userRoles && server.userRoles[role].None?)
        || (role !in server.userRoles && server.globalRoles.Some? && role in server.globalRoles.value
            && server.globalRoles.value[role].None?))
  }

  /** The role is to be had from Galaxy: in the version recorded for the user's copy, or
      else for the global one, or in any version if there is no copy. */
  ghost predicate FetchedAs(server: Server, role: string, version: string)
  {
    && role !in server.subscriptions
    && (|| (role in server.userRoles && server.userRoles[role] == Some(version))
        || (role !in server.userRoles && server.globalRoles.Some? && role in server.globalRoles.value
            && server.globalRoles.value[role] == Some(version))
        || (role !in server.userRoles && !(server.globalRoles.Some? && role in server.globalRoles.value)
            && version == ""))
  }

  lemma OriginIff(server: Server, role: string)
    ensures OriginOf(server, role) == Subscription <==> role in server.subscriptions
    ensures OriginOf(server, role) == Custom <==> CustomOn(server, role)
    ensures forall v :: OriginOf(server, role) == Galaxy(v) <==> FetchedAs(server, role, v)
  {
  }

  function GalaxyEntries(server: Server, roles: seq<string>): seq<Requirement>
  {
    if roles == [] then []
    else
      var r := roles[|roles| - 1];
      GalaxyEntries(server, roles[..|roles| - 1])
      + (if OriginOf(server, r).Galaxy? then [Requirement(r, OriginOf(server, r).version, "")] else [])
  }

  function OfOrigin(server: Server, roles: seq<string>, o: Origin): seq<string>
  {
    if roles == [] then []
    else
      var r := roles[|roles| - 1];
      OfOrigin(server, roles[..|roles| - 1], o) + (if OriginOf(server, r) == o then [r] else [])
  }

  datatype Content = Content(config: Option<seq<VM>>, requirements: Requirements)

  /** The directory under construction; None when it does not exist. */
  class Staging {
    var content: Option<Content>

    constructor (content: Option<Content>)
      ensures this.content == content
    {
      this.content := content;
    }
  }

  datatype Faults = Faults(mkdirOk: bool, configOk: bool, requirementsOk: bool, removeOk: bool)

  /** The requirements a build leaves: what the roles need, or what was there. */
  ghost function BuiltRequirements(server: Server, vms: seq<VM>, before: Requirements): Requirements
  {
    var roles := SortedList(RoleRefs(vms));
    var doc := RequirementsDoc(GalaxyEntries(server, roles), [], OfOrigin(server, roles, Subscription));
    if doc.roles == [] && doc.subscriptionRoles == [] then before else Parsed(doc)
  }

  ghost predicate NoCustomRoles(server: Server, vms: seq<VM>)
  {
    forall r :: r in RoleRefs(vms) ==> !CustomOn(server, r)
  }

  ghost predicate NeedsRequirements(vms: seq<VM>)
  {
    RoleRefs(vms) != {}
  }

  ghost predicate BuildSucceeds(server: Server, config: Option<seq<VM>>, f: Faults)
  {
    && f.mkdirOk && f.configOk && config.Some? && NoCustomRoles(server, config.value)
    && (NeedsRequirements(config.value) ==> f.requirementsOk)
  }

  /** `config` is None when the bytes are not a valid range config. */
  method BuildBlueprintDir(staging: Staging, server: Server, config: Option<seq<VM>>, f: Faults) returns (ok: bool)
    modifies staging
    ensures ok <==> BuildSucceeds(server, config, f)
    ensures ok ==>
      var before := if old(staging.content).Some? then old(staging.content).value.requirements else Absent;
      staging.content == Some(Content(config, BuiltRequirements(server, config.value, before)))
    ensures !ok && !f.mkdirOk ==> staging.content == old(staging.content)
    ensures !ok && f.mkdirOk && f.removeOk ==> staging.content == None
  {
    if !f.mkdirOk {
      return false;
    }
    if staging.content.None? {
      staging.content := Some(Content(None, Absent));
    }
    var committed := FillDirectory(staging, server, config, f);
    if !committed && f.removeOk {
      staging.content := None;
    }
    return committed;
  }

  method FillDirectory(staging: Staging, server: Server, config: Option<seq<VM>>, f: Faults) returns (committed: bool)
    requires staging.content.Some?
    modifies staging
    ensures committed <==> BuildSucceeds(server, config, f.(mkdirOk := true))
    ensures committed ==>
      staging.content
        == Some(Content(config, BuiltRequirements(server, config.value, old(staging.content).value.requirements)))
  {
    if !f.configOk {
      return false;
    }
    staging.content := Some(staging.content.value.(config := config));
    if config.None? {
      return false;
    }
    var _, roleNames := InferFromRangeConfig(config.value);
    AscendingUnique(roleNames, SortedList(RoleRefs(config.value)));
    var requirementsRoles, subscriptionRefs, customLocalRoles := ClassifyRoles(server, roleNames);
    CustomMeans(server, config.value, roleNames);
    if |customLocalRoles| > 0 {
      return false;
    }
    NothingNeeded(server, roleNames);
    EmptyElements(roleNames);
    if |requirementsRoles| > 0 || |subscriptionRefs| > 0 {
      var doc := RequirementsDoc(requirementsRoles, [], subscriptionRefs);
      if !f.requirementsOk {
        return false;
      }
      staging.content := Some(staging.content.value.(requirements := Parsed(doc)));
    }
    return true;
  }

  method ClassifyRoles(server: Server, roleNames: seq<string>)
    returns (requirementsRoles: seq<Requirement>, subscriptionRefs: seq<string>, customLocalRoles: seq<string>)
    ensures requirementsRoles == GalaxyEntries(server, roleNames)
    ensures subscriptionRefs == OfOrigin(server, roleNames, Subscription)
    ensures customLocalRoles == OfOrigin(server, roleNames, Custom)
    ensures forall e :: e in requirementsRoles <==>
      e.name in roleNames && FetchedAs(server, e.name, e.version) && e.origin == ""
    ensures forall r :: r in subscriptionRefs <==> r in roleNames && r in server.subscriptions
    ensures forall r :: r in customLocalRoles <==> r in roleNames && CustomOn(server, r)
  {
    requirementsRoles, subscriptionRefs, customLocalRoles := [], [], [];
    for i := 0 to |roleNames|
      invariant requirementsRoles == GalaxyEntries(server, roleNames[..i])
      invariant subscriptionRefs == OfOrigin(server, roleNames[..i], Subscription)
      invariant customLocalRoles == OfOrigin(server, roleNames[..i], Custom)
    {
      assert roleNames[..i + 1][..i] == roleNames[..i];
      var r := roleNames[i];
      if r in server.subscriptions {
        subscriptionRefs := subscriptionRefs + [r];
        continue;
      }
      var src := server.userRoles;
      if r !in server.userRoles {
        if server.globalRoles.Some? && r in server.globalRoles.value {
          src := server.globalRoles.value;
        } else {
          requirementsRoles := requirementsRoles + [Requirement(r, "", "")];
          continue;
        }
      }
      if src[r].Some? {
        requirementsRoles := requirementsRoles + [Requirement(r, src[r].value, "")];
        continue;
      }
      customLocalRoles := customLocalRoles + [r];
    }
    assert roleNames[..|roleNames|] == roleNames;
    ListsMean(server, roleNames);
  }

  lemma {:induction false} OriginMembers(server: Server, roles: seq<string>, o: Origin, r: string)
    ensures r in OfOrigin(server, roles, o) <==> r in roles && OriginOf(server, r) == o
  {
    hide OriginOf;
    if roles != [] {
      OriginMembers(server, roles[..|roles| - 1], o, r);
      assert roles == roles[..|roles| - 1] + [roles[|roles| - 1]];
    }
  }

  lemma {:induction false} EntryMembers(server: Server, roles: seq<string>, e: Requirement)
    ensures e in GalaxyEntries(server, roles) <==>
      e.name in roles && OriginOf(server, e.name) == Galaxy(e.version) && e.origin == ""
  {
    hide OriginOf;
    if roles != [] {
      EntryMembers(server, roles[..|roles| - 1], e);
      assert roles == roles[..|roles| - 1] + [roles[|roles| - 1]];
    }
  }

  lemma ListsMean(server: Server, roles: seq<string>)
    ensures forall e :: e in GalaxyEntries(server, roles) <==>
      e.name in roles && FetchedAs(server, e.name, e.version) && e.origin == ""
    ensures forall r :: r in OfOrigin(server, roles, Subscription) <==> r in roles && r in server.subscriptions
    ensures forall r :: r in OfOrigin(server, roles, Custom) <==> r in roles && CustomOn(server, r)
  {
    hide OriginOf, FetchedAs, CustomOn;
    forall e
      ensures e in GalaxyEntries(server, roles) <==>
        e.name in roles && FetchedAs(server, e.name, e.version) && e.origin == ""
    {
      EntryMembers(server, roles, e);
      OriginIff(server, e.name);
    }
    forall r
      ensures r in OfOrigin(server, roles, Subscription) <==> r in roles && r in server.subscriptions
      ensures r in OfOrigin(server, roles, Custom) <==> r in roles && CustomOn(server, r)
    {
      OriginMembers(server, roles, Subscription, r);
      OriginMembers(server, roles, Custom, r);
      OriginIff(server, r);
    }
  }

  lemma CustomMeans(server: Server, vms: seq<VM>, roles: seq<string>)
    requires Elements(roles) == RoleRefs(vms)
    ensures OfOrigin(server, roles, Custom) == [] <==> NoCustomRoles(server, vms)
  {
    hide OriginOf, RoleRefs, CustomOn;
    var custom := OfOrigin(server, roles, Custom);
    forall r ensures r in custom <==> r in RoleRefs(vms) && CustomOn(server, r) {
      OriginMembers(server, roles, Custom, r);
      OriginIff(server, r);
      assert r in roles <==> r in Elements(roles);
    }
    if custom != [] {
      assert custom[0] in custom;
    }
  }

  /** Without custom roles, no requirements are written exactly when no role is referenced. */
  lemma NothingNeeded(server: Server, roles: seq<string>)
    requires OfOrigin(server, roles, Custom) == []
    ensures GalaxyEntries(server, roles) == [] && OfOrigin(server, roles, Subscription) == [] <==> roles == []
  {
    hide OriginOf;
    if roles != [] {
      var r := roles[0];
      OriginMembers(server, roles, Custom, r);
      OriginMembers(server, roles, Subscription, r);
      if OriginOf(server, r).Galaxy? {
        EntryMembers(server, roles, Requirement(r, OriginOf(server, r).version, ""));
      }
    }
  }

  /** A built directory declares exactly the roles its config references: those of the
      catalog as subscription roles, the others as Galaxy roles in the version found. */
  lemma BuiltDeclaresExactly(server: Server, vms: seq<VM>)
    requires NoCustomRoles(server, vms)
    ensures var doc := StrictDoc(BuiltRequirements(server, vms, Absent));
            DeclaredNames(doc.roles) + DeclaredSubscriptions(doc.subscriptionRoles) == RoleRefs(vms)
            && DeclaredNames(doc.roles) !! DeclaredSubscriptions(doc.subscriptionRoles) && doc.collections == []
            && (forall e :: e in doc.roles <==>
                  e.name in RoleRefs(vms) && FetchedAs(server, e.name, e.version) && e.origin == "")
            && (forall r :: r in doc.subscriptionRoles <==> r in RoleRefs(vms) && r in server.subscriptions)
  {
    var roles := SortedList(RoleRefs(vms));
    RefsNamed(vms);
    hide OriginOf, RoleRefs, FetchedAs, CustomOn;
    ListsMean(server, roles);
    assert forall x :: x in roles <==> x in Elements(roles);
    CustomMeans(server, vms, roles);
    NothingNeeded(server, roles);
    var doc := StrictDoc(BuiltRequirements(server, vms, Absent));
    assert doc == RequirementsDoc(GalaxyEntries(server, roles), [], OfOrigin(server, roles, Subscription));
    forall r
      ensures r in DeclaredNames(doc.roles) <==> r in RoleRefs(vms) && OriginOf(server, r).Galaxy?
      ensures r in DeclaredSubscriptions(doc.subscriptionRoles) <==>
        r in RoleRefs(vms) && OriginOf(server, r) == Subscription
    {
      assert r in roles <==> r in Elements(roles);
      OriginIff(server, r);
      OriginMembers(server, roles, Subscription, r);
      forall e | e in doc.roles ensures e.name in roles && OriginOf(server, e.name).Galaxy? {
        EntryMembers(server, roles, e);
      }
      if r in roles && OriginOf(server, r).Galaxy? {
        var e := Requirement(r, OriginOf(server, r).version, "");
        EntryMembers(server, roles, e);
        assert e in doc.roles && e.name == r;
      }
    }
    forall r | r in RoleRefs(vms) ensures OriginOf(server, r) != Custom {
      OriginIff(server, r);
    }
  }

  lemma RefsNamed(vms: seq<VM>)
    ensures "" !in RoleRefs(vms)
  {
  }

  /** So the undeclared-dependency check never reports a role of a blueprint that
      was built into a fresh directory, whatever source it is shipped in. */
  lemma BuiltPassesTheCheck(w: WalkedSource, server: Server, id: string, vms: seq<VM>, ref: string)
    requires NoCustomRoles(server, vms)
    requires ref in ConfigRoles(WalkedBlueprint(Some(id), Some(vms), BuiltRequirements(server, vms, Absent)))
    ensures Declared(w, WalkedBlueprint(Some(id), Some(vms), BuiltRequirements(server, vms, Absent)), ref)
  {
    BuiltDeclaresExactly(server, vms);
    hide RoleRefs, BuiltRequirements, NoCustomRoles;
    assert ref in Elements(SortedList(RoleRefs(vms)));
  }
}

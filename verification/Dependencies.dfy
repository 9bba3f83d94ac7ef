/** What an install fetches for a blueprint beyond the artifacts the source ships:
    installUnionedAnsible and installVendoredGalaxyRoles (ludus-api/source_install.go,
    ludus-api/blueprint_resolver.go), and the claims it records. */
module Dependencies {
  import opened Source
  import opened Selection
  import opened Routing
  import opened Ledger

  /** One reported result, under the kind its claim is recorded with. */
  datatype DepResult = DepResult(kind: DepKind, name: string, version: string, ok: bool)
  type DepKind = k: Kind | !LocalKind(k) witness GalaxyRole

  /** The kinds of artifacts the source ships itself. */
  predicate LocalKind(k: Kind)
  {
    k.Template? || k.LocalRole? || k.LocalCollection?
  }

  /** One entry of what ansible-galaxy reports; `present` is an "already installed". */
  datatype Reported = Reported(name: string, version: string, ok: bool, present: bool)
  datatype GalaxyRun = GalaxyRun(failed: bool, results: seq<Reported>)

  /** What lies outside: the licence server, the copies, ansible-galaxy. The galaxy
      runs are given the requirements left after the vendored names are stripped. */
  datatype Outside = Outside(
    licensed: bool, catalogEmpty: bool,
    copyOk: (RoleDir, string) -> bool, roleVersion: RoleDir -> string,
    rolesRun: Requirements -> GalaxyRun, collectionsRun: Requirements -> GalaxyRun,
    installedVersion: string -> string, subscriptionOk: string -> bool)

  // ---------------------------------------------------------------- The results, part by part

  function Copy(name: string, dir: RoleDir, o: Outside): DepResult
  {
    DepResult(GalaxyRole, name, if o.copyOk(dir, name) then o.roleVersion(dir) else "", o.copyOk(dir, name))
  }

  function Copies(names: seq<string>, published: map<string, RoleDir>, o: Outside): seq<DepResult>
  {
    if names == [] then []
    else
      var last := names[|names| - 1];
      Copies(names[..|names| - 1], published, o) + (if last in published then [Copy(last, published[last], o)] else [])
  }

  /** The version a requirements file asks of a role: the last one given. */
  function RequestedVersion(roles: seq<Requirement>, name: string): string
  {
    if roles == [] then ""
    else
      var last := roles[|roles| - 1];
      if last.name == name && last.name != "" && last.version != "" then last.version
      else RequestedVersion(roles[..|roles| - 1], name)
  }

  /** detectGalaxyVersionMismatches: a role that was there already in another version is a failure. */
  function Mismatched(r: Reported, req: Requirements, o: Outside): bool
  {
    var want, have := RequestedVersion(StrictDoc(req).roles, r.name), o.installedVersion(r.name);
    r.ok && r.present && want != "" && have != "" && have != want
  }

  function RoleResult(r: Reported, req: Requirements, o: Outside): DepResult
  {
    DepResult(GalaxyRole, r.name, r.version, r.ok && !Mismatched(r, req, o))
  }

  function RoleResults(req: Requirements, o: Outside): seq<DepResult>
  {
    var run := o.rolesRun(req);
    (if run.failed && run.results == [] then [DepResult(GalaxyRole, "", "", false)] else [])
    + seq(|run.results|, i requires 0 <= i < |run.results| => RoleResult(run.results[i], req, o))
  }

  function CollectionResults(req: Requirements, o: Outside): seq<DepResult>
  {
    var run := o.collectionsRun(req);
    (if run.failed && run.results == [] then [DepResult(GalaxyCollection, "", "", false)] else [])
    + seq(|run.results|, i requires 0 <= i < |run.results| =>
        DepResult(GalaxyCollection, run.results[i].name, run.results[i].version, run.results[i].ok))
  }

  /** The version asked for is that of the last entry for the role that gives one. */
  lemma {:induction false} RequestedIsLast(roles: seq<Requirement>, name: string, i: nat)
    requires i < |roles| && roles[i].name == name && name != "" && roles[i].version != ""
    requires forall j :: i < j < |roles| ==> !(roles[j].name == name && roles[j].version != "")
    ensures RequestedVersion(roles, name) == roles[i].version
  {
    if i < |roles| - 1 {
      RequestedIsLast(roles[..|roles| - 1], name, i);
    }
  }

  lemma {:induction false} NothingRequested(roles: seq<Requirement>, name: string)
    requires forall r :: r in roles && r.name == name && name != "" ==> r.version == ""
    ensures RequestedVersion(roles, name) == ""
  {
    if roles != [] {
      assert roles[|roles| - 1] in roles;
      NothingRequested(roles[..|roles| - 1], name);
    }
  }

  function SubscriptionResults(names: seq<string>, o: Outside): seq<DepResult>
  {
    seq(|names|, i requires 0 <= i < |names| => DepResult(SubscriptionRole, names[i], "", o.subscriptionOk(names[i])))
  }

  /** The source's vendored names, as installUnionedAnsible collects them. */
  datatype Vendored = Vendored(roles: set<string>, published: map<string, RoleDir>, collections: set<string>)

  ghost function VendoredBy(w: WalkedSource): Vendored
  {
    Vendored(VendoredRoles(w.localRoles), PublishedRoles(w.localRoles), VendoredCollections(w.localCollections))
  }

  /** Subscription roles are declared, and cannot be had. */
  predicate Blocked(req: Requirements, o: Outside)
  {
    NamedOnly(StrictDoc(req).subscriptionRoles) != [] && (!o.licensed || o.catalogEmpty)
  }

  lemma BlockedIff(req: Requirements, o: Outside)
    ensures Blocked(req, o) <==>
      && req.Parsed? && (exists n :: n in req.doc.subscriptionRoles && n != "")
      && !(o.licensed && !o.catalogEmpty)
  {
    NamedOnlyExact(StrictDoc(req).subscriptionRoles);
    var named := NamedOnly(StrictDoc(req).subscriptionRoles);
    if named != [] {
      assert named[0] in named;
    }
  }

  function BlueprintResults(req: Requirements, v: Vendored, o: Outside): seq<DepResult>
  {
    if Blocked(req, o) then [DepResult(SubscriptionRole, "", "", false)]
    else
      var toGalaxy := Filtered(req, v.roles, v.collections);
      Copies(NamedOnly(Names(StrictDoc(req).roles)), v.published, o)
      + (if LooseDoc(toGalaxy).roles != [] then RoleResults(toGalaxy, o) else [])
      + (if StrictDoc(toGalaxy).collections != [] then CollectionResults(toGalaxy, o) else [])
      + SubscriptionResults(NamedOnly(StrictDoc(req).subscriptionRoles), o)
  }

  // ---------------------------------------------------------------- The claims

  /** The inserts the results lead to. */
  function DepCalls(source: string, results: seq<DepResult>, f: (Kind, string) -> Faults): seq<Call>
  {
    if results == [] then []
    else
      var r := results[|results| - 1];
      DepCalls(source, results[..|results| - 1], f)
      + (if r.ok then [Insert(source, r.kind, r.name, r.version, f(r.kind, r.name))] else [])
  }

  lemma {:induction false} DepCallsConcat(source: string, a: seq<DepResult>, b: seq<DepResult>,
                                          f: (Kind, string) -> Faults)
    ensures DepCalls(source, a + b, f) == DepCalls(source, a, f) + DepCalls(source, b, f)
  {
    if b == [] {
      assert a + b == a;
    } else {
      DepCallsConcat(source, a, b[..|b| - 1], f);
      assert (a + b)[..|a + b| - 1] == a + b[..|b| - 1];
    }
  }

  lemma DepCallsSnoc(rows: seq<Artifact>, source: string, front: seq<DepResult>, r: DepResult,
                     f: (Kind, string) -> Faults, indexed: bool)
    ensures After(rows, DepCalls(source, front + [r], f), indexed)
      == var before := After(rows, DepCalls(source, front, f), indexed);
         if r.ok then Inserted(before, source, r.kind, r.name, r.version, f(r.kind, r.name), indexed) else before
  {
    hide Inserted;
    assert (front + [r])[..|front|] == front;
    var calls := DepCalls(source, front, f);
    var call := Insert(source, r.kind, r.name, r.version, f(r.kind, r.name));
    assert (calls + [call])[..|calls|] == calls && calls + [] == calls;
  }

  /** A row without a name is not written. */
  lemma NamelessNotInserted(rows: seq<Artifact>, source: string, kind: Kind, version: string, f: Faults, indexed: bool)
    ensures Inserted(rows, source, kind, "", version, f, indexed) == rows
  {
    StorableIff(kind, "");
  }

  lemma NoCalls(rows: seq<Artifact>, source: string, f: (Kind, string) -> Faults, indexed: bool)
    ensures After(rows, DepCalls(source, [], f), indexed) == rows
  {
  }

  /** Records the good ones of some results, in order. A result without a name
      leaves no row, whether the caller skips it or the table refuses it. */
  method Record(table: Table, source: string, results: seq<DepResult>, f: (Kind, string) -> Faults)
    modifies table`rows
    ensures table.rows == After(old(table.rows), DepCalls(source, results, f), table.indexed)
  {
    hide After, DepCalls, Inserted;
    NoCalls(table.rows, source, f, table.indexed);
    assert results[..0] == [];
    for i := 0 to |results|
      invariant table.rows == After(old(table.rows), DepCalls(source, results[..i], f), table.indexed)
    {
      var r := results[i];
      assert results[..i + 1] == results[..i] + [r];
      DepCallsSnoc(old(table.rows), source, results[..i], r, f, table.indexed);
      NamelessNotInserted(table.rows, source, r.kind, r.version, f(r.kind, r.name), table.indexed);
      if r.ok && (r.name != "" || !r.kind.GalaxyCollection?) {
        table.InsertSourceArtifact(source, r.kind, r.name, r.version, f(r.kind, r.name));
      }
    }
    assert results[..|results|] == results;
  }

  lemma NoCopies(published: map<string, RoleDir>, o: Outside)
    ensures Copies([], published, o) == []
  {
  }

  lemma CopiesSnoc(front: seq<string>, n: string, published: map<string, RoleDir>, o: Outside)
    ensures Copies(front + [n], published, o)
         == Copies(front, published, o) + (if n in published then [Copy(n, published[n], o)] else [])
  {
    assert (front + [n])[..|front|] == front;
  }

  method InstallVendoredGalaxyRoles(table: Table, source: string, req: Requirements, published: map<string, RoleDir>,
                                    o: Outside, f: (Kind, string) -> Faults)
    returns (out: seq<DepResult>)
    modifies table`rows
    ensures out == Copies(NamedOnly(Names(StrictDoc(req).roles)), published, o)
    ensures table.rows == After(old(table.rows), DepCalls(source, out, f), table.indexed)
  {
    var required, _, _ := DeclaredFromRequirements(req);
    out := [];
    hide After, DepCalls, Copies, Copy, Inserted;
    ghost var before := table.rows;
    NoCalls(before, source, f, table.indexed);
    NoCopies(published, o);
    assert required[..0] == [];
    for i := 0 to |required|
      invariant out == Copies(required[..i], published, o)
      invariant table.rows == After(before, DepCalls(source, out, f), table.indexed)
    {
      assert required[..i + 1] == required[..i] + [required[i]];
      CopiesSnoc(required[..i], required[i], published, o);
      if required[i] !in published {
        assert out + [] == out;
        continue;
      }
      var res := Copy(required[i], published[required[i]], o);
      Record(table, source, [res], f);
      RecordedConcat(before, source, out, [res], f, table.indexed);
      out := out + [res];
    }
    assert required[..|required|] == required;
  }

  /** The dependencies of one blueprint, in the order they are reported and claimed. */
  method InstallRolesForBlueprint(table: Table, source: string, req: Requirements, v: Vendored, o: Outside,
                                  f: (Kind, string) -> Faults)
    returns (out: seq<DepResult>)
    modifies table`rows
    ensures out == BlueprintResults(req, v, o)
    ensures table.rows == After(old(table.rows), DepCalls(source, out, f), table.indexed)
  {
    hide After, DepCalls, RoleResults, CollectionResults, Copies;
    ghost var before := table.rows;
    var _, _, declaredSub := DeclaredFromRequirements(req);
    var galaxyRequirements := FilterRequirements(req, v.roles, v.collections);
    if declaredSub != [] && (!o.licensed || o.catalogEmpty) {
      out := [DepResult(SubscriptionRole, "", "", false)];
      NothingRecorded(before, source, out, f, table.indexed);
      return;
    }
    out := InstallVendoredGalaxyRoles(table, source, req, v.published, o, f);
    if LooseDoc(galaxyRequirements).roles != [] {
      var results := RoleResults(galaxyRequirements, o);
      Record(table, source, results, f);
      RecordedConcat(before, source, out, results, f, table.indexed);
      out := out + results;
    } else {
      assert out + [] == out;
    }
    if StrictDoc(galaxyRequirements).collections != [] {
      var results := CollectionResults(galaxyRequirements, o);
      Record(table, source, results, f);
      RecordedConcat(before, source, out, results, f, table.indexed);
      out := out + results;
    } else {
      assert out + [] == out;
    }
    var subs := SubscriptionResults(declaredSub, o);
    Record(table, source, subs, f);
    RecordedConcat(before, source, out, subs, f, table.indexed);
    out := out + subs;
  }

  lemma NothingRecorded(rows: seq<Artifact>, source: string, results: seq<DepResult>, f: (Kind, string) -> Faults,
                        indexed: bool)
    requires |results| == 1 && !results[0].ok
    ensures After(rows, DepCalls(source, results, f), indexed) == rows
  {
    assert DepCalls(source, results[..0], f) == [];
  }

  lemma RecordedConcat(rows: seq<Artifact>, source: string, a: seq<DepResult>, b: seq<DepResult>,
                       f: (Kind, string) -> Faults, indexed: bool)
    ensures After(After(rows, DepCalls(source, a, f), indexed), DepCalls(source, b, f), indexed)
         == After(rows, DepCalls(source, a + b, f), indexed)
  {
    DepCallsConcat(source, a, b, f);
    AfterConcat(rows, DepCalls(source, a, f), DepCalls(source, b, f), indexed);
  }

  /** The results of all the selected blueprints; each one meets its own outside. */
  ghost function UnionResults(bps: seq<WalkedBlueprint>, selected: seq<string>, v: Vendored,
                              outside: string -> Outside): seq<DepResult>
  {
    if bps == [] then []
    else
      var last := bps[|bps| - 1];
      UnionResults(bps[..|bps| - 1], selected, v, outside)
      + (if Selected(last, selected) then BlueprintResults(last.requirements, v, outside(last.manifest.value)) else [])
  }

  lemma NoUnion(selected: seq<string>, v: Vendored, outside: string -> Outside)
    ensures UnionResults([], selected, v, outside) == []
  {
  }

  lemma UnionSnoc(front: seq<WalkedBlueprint>, bp: WalkedBlueprint, selected: seq<string>, v: Vendored,
                  outside: string -> Outside)
    ensures UnionResults(front + [bp], selected, v, outside)
         == UnionResults(front, selected, v, outside)
            + (if Selected(bp, selected) then BlueprintResults(bp.requirements, v, outside(bp.manifest.value)) else [])
  {
    hide BlueprintResults;
    assert (front + [bp])[..|front|] == front;
  }

  method InstallUnionedAnsible(table: Table, source: string, walked: WalkedSource, selected: seq<string>,
                               outside: string -> Outside, f: (Kind, string) -> Faults)
    returns (out: seq<DepResult>)
    modifies table`rows
    ensures out == UnionResults(walked.blueprints, selected, VendoredBy(walked), outside)
    ensures table.rows == After(old(table.rows), DepCalls(source, out, f), table.indexed)
  {
    var vendoredRoles, published := VendoredRoleNames(walked);
    var vendoredCollections := VendoredCollectionFQCNs(walked);
    var v := Vendored(vendoredRoles, published, vendoredCollections);
    hide DepCalls, BlueprintResults, UnionResults, After, VendoredRoles, PublishedRoles, VendoredCollections;
    ghost var before := table.rows;
    NoCalls(before, source, f, table.indexed);
    NoUnion(selected, v, outside);
    assert walked.blueprints[..0] == [];
    out := [];
    for i := 0 to |walked.blueprints|
      invariant out == UnionResults(walked.blueprints[..i], selected, v, outside)
      invariant table.rows == After(before, DepCalls(source, out, f), table.indexed)
    {
      var bp := walked.blueprints[i];
      assert walked.blueprints[..i + 1] == walked.blueprints[..i] + [bp];
      UnionSnoc(walked.blueprints[..i], bp, selected, v, outside);
      if bp.manifest.None? || bp.manifest.value !in selected {
        assert out + [] == out;
        continue;
      }
      var results := InstallRolesForBlueprint(table, source, bp.requirements, v, outside(bp.manifest.value), f);
      RecordedConcat(before, source, out, results, f, table.indexed);
      out := out + results;
    }
    assert walked.blueprints[..|walked.blueprints|] == walked.blueprints;
  }

  // ---------------------------------------------------------------- What the results are

  /** Dependencies are claimed under their own kinds. */
  lemma {:induction false} DepCallsExact(source: string, results: seq<DepResult>, f: (Kind, string) -> Faults)
    ensures forall c :: c in DepCalls(source, results, f) <==>
      exists r :: r in results && r.ok && c == Insert(source, r.kind, r.name, r.version, f(r.kind, r.name))
  {
    if results != [] {
      var front, last := results[..|results| - 1], results[|results| - 1];
      DepCallsExact(source, front, f);
      assert results == front + [last];
    }
  }

  lemma {:induction false} CopiesExact(names: seq<string>, published: map<string, RoleDir>, o: Outside)
    ensures forall r :: r in Copies(names, published, o) <==>
      r.name in names && r.name in published && r == Copy(r.name, published[r.name], o)
  {
    if names != [] {
      var front, last := names[..|names| - 1], names[|names| - 1];
      CopiesExact(front, published, o);
      assert names == front + [last];
    }
  }

  lemma {:induction false} UnionExact(bps: seq<WalkedBlueprint>, selected: seq<string>, v: Vendored,
                                      outside: string -> Outside)
    ensures forall r :: r in UnionResults(bps, selected, v, outside) <==>
      exists bp :: bp in bps && Selected(bp, selected)
        && r in BlueprintResults(bp.requirements, v, outside(bp.manifest.value))
  {
    hide BlueprintResults;
    if bps != [] {
      var front, last := bps[..|bps| - 1], bps[|bps| - 1];
      UnionExact(front, selected, v, outside);
      assert bps == front + [last];
    }
  }

  lemma {:induction false} NamedOnlyExact(names: seq<string>)
    ensures forall n :: n in NamedOnly(names) <==> n in names && n != ""
  {
    if names != [] {
      NamedOnlyExact(names[..|names| - 1]);
      assert names == names[..|names| - 1] + [names[|names| - 1]];
    }
  }

  /** A good role result is turned into a failure exactly when the role was there already
      in a version other than the one the requirements ask for, both being known. */
  lemma MismatchIff(r: Reported, req: Requirements, o: Outside)
    ensures RoleResult(r, req, o).ok <==>
      && r.ok
      && !(r.present && o.installedVersion(r.name) != ""
           && RequestedVersion(StrictDoc(req).roles, r.name) !in ["", o.installedVersion(r.name)])
    ensures RoleResult(r, req, o).kind == GalaxyRole && RoleResult(r, req, o).name == r.name
    ensures RoleResult(r, req, o).version == r.version
  {
  }

  /** What is reported for a blueprint that is not blocked, result by result: a copy of
      every required role the source publishes; whatever the two Galaxy runs report, each
      if its section has an entry left, or one nameless failure for a run that reports
      nothing; and every subscription role. */
  lemma ResultsExact(req: Requirements, v: Vendored, o: Outside, r: DepResult)
    requires !Blocked(req, o)
    ensures var toGalaxy := Filtered(req, v.roles, v.collections);
            var roles, collections := o.rolesRun(toGalaxy), o.collectionsRun(toGalaxy);
      r in BlueprintResults(req, v, o) <==>
        || (r.name != "" && r.name in Names(StrictDoc(req).roles) && r.name in v.published
            && var worked := o.copyOk(v.published[r.name], r.name);
               r == DepResult(GalaxyRole, r.name, if worked then o.roleVersion(v.published[r.name]) else "", worked))
        || (LooseDoc(toGalaxy).roles != []
            && ((exists g :: g in roles.results && r == RoleResult(g, toGalaxy, o))
                || (roles.failed && roles.results == [] && r == DepResult(GalaxyRole, "", "", false))))
        || (StrictDoc(toGalaxy).collections != []
            && ((exists g :: g in collections.results && r == DepResult(GalaxyCollection, g.name, g.version, g.ok))
                || (collections.failed && collections.results == []
                    && r == DepResult(GalaxyCollection, "", "", false))))
        || (r.name != "" && r.name in StrictDoc(req).subscriptionRoles
            && r == DepResult(SubscriptionRole, r.name, "", o.subscriptionOk(r.name)))
  {
    var toGalaxy := Filtered(req, v.roles, v.collections);
    var declared := NamedOnly(Names(StrictDoc(req).roles));
    NamedOnlyExact(Names(StrictDoc(req).roles));
    NamedOnlyExact(StrictDoc(req).subscriptionRoles);
    CopiesExact(declared, v.published, o);
    RoleResultsExact(toGalaxy, o, r);
    CollectionResultsExact(toGalaxy, o, r);
    SubscriptionResultsExact(NamedOnly(StrictDoc(req).subscriptionRoles), o, r);
    hide Copies, RoleResults, CollectionResults, SubscriptionResults, RoleResult, NamedOnly, Names, Filtered;
  }

  lemma RoleResultsExact(req: Requirements, o: Outside, r: DepResult)
    ensures r in RoleResults(req, o) <==>
      || (exists g :: g in o.rolesRun(req).results && r == RoleResult(g, req, o))
      || (o.rolesRun(req).failed && o.rolesRun(req).results == [] && r == DepResult(GalaxyRole, "", "", false))
  {
    hide RoleResult;
    var run := o.rolesRun(req);
    var tail := seq(|run.results|, i requires 0 <= i < |run.results| => RoleResult(run.results[i], req, o));
    if g :| g in run.results && r == RoleResult(g, req, o) {
      var i :| 0 <= i < |run.results| && run.results[i] == g;
      assert tail[i] == r;
    }
  }

  lemma CollectionResultsExact(req: Requirements, o: Outside, r: DepResult)
    ensures r in CollectionResults(req, o) <==>
      || (exists g :: g in o.collectionsRun(req).results && r == DepResult(GalaxyCollection, g.name, g.version, g.ok))
      || (o.collectionsRun(req).failed && o.collectionsRun(req).results == []
          && r == DepResult(GalaxyCollection, "", "", false))
  {
    var run := o.collectionsRun(req);
    var tail := seq(|run.results|, i requires 0 <= i < |run.results| =>
      DepResult(GalaxyCollection, run.results[i].name, run.results[i].version, run.results[i].ok));
    if g :| g in run.results && r == DepResult(GalaxyCollection, g.name, g.version, g.ok) {
      var i :| 0 <= i < |run.results| && run.results[i] == g;
      assert tail[i] == r;
    }
  }

  lemma SubscriptionResultsExact(names: seq<string>, o: Outside, r: DepResult)
    ensures r in SubscriptionResults(names, o) <==>
      r.name in names && r == DepResult(SubscriptionRole, r.name, "", o.subscriptionOk(r.name))
  {
    if r.name in names {
      var i :| 0 <= i < |names| && names[i] == r.name;
      assert SubscriptionResults(names, o)[i] == DepResult(SubscriptionRole, r.name, "", o.subscriptionOk(r.name));
    }
  }

  /** A declared role of a blueprint that is not blocked comes from exactly one
      place. Either the entry goes to Galaxy, or the source vendors it; then the
      expanded selection installs it under its own name, and a second copy is made
      under the published identity if that is how the entry names it. */
  lemma DeclaredRoleServed(w: WalkedSource, sel: Sel, bp: WalkedBlueprint, r: Requirement, outside: string -> Outside)
    requires bp in w.blueprints && Selected(bp, sel.blueprints) && bp.requirements.Parsed?
    requires r in bp.requirements.doc.roles && r.name != "" && !Blocked(bp.requirements, outside(bp.manifest.value))
    ensures var v := VendoredBy(w);
            var toGalaxy := StrictDoc(Filtered(bp.requirements, v.roles, v.collections));
      && (r in toGalaxy.roles <==> r.name !in v.roles)
      && (r.name in v.roles ==> exists n :: KnownAs(w.localRoles, r.name, n) && n in Expanded(sel, w).localRoles)
      && (r.name in v.published ==> r.name in v.roles)
      && (r.name in v.published ==>
            Copy(r.name, v.published[r.name], outside(bp.manifest.value))
              in UnionResults(w.blueprints, sel.blueprints, v, outside))
  {
    var v, o := VendoredBy(w), outside(bp.manifest.value);
    StrippingPartitions(bp.requirements.doc.roles, v.roles);
    if r.name in v.roles {
      StrippedRoleSelected(w, sel, bp, r);
    }
    if r.name in v.published {
      PublishedVendored(w.localRoles);
      NameListed(bp.requirements.doc.roles, r);
      NamedOnlyExact(Names(bp.requirements.doc.roles));
      CopiesExact(NamedOnly(Names(bp.requirements.doc.roles)), v.published, o);
      UnionExact(w.blueprints, sel.blueprints, v, outside);
      assert Copy(r.name, v.published[r.name], o) in BlueprintResults(bp.requirements, v, o);
    }
  }

  lemma PublishedVendored(dirs: seq<RoleDir>)
    ensures forall g :: g in PublishedRoles(dirs) ==> g in VendoredRoles(dirs)
  {
    hide RoleGalaxyName, PublishedRoles;
    PublishedExact(dirs);
  }

  /** A blueprint that declares subscription roles which cannot be had installs no
      dependency at all, and makes the whole install a partial one. */
  lemma BlockedFails(w: WalkedSource, selected: seq<string>, bp: WalkedBlueprint, v: Vendored,
                     outside: string -> Outside)
    requires bp in w.blueprints && Selected(bp, selected) && Blocked(bp.requirements, outside(bp.manifest.value))
    ensures forall r :: r in BlueprintResults(bp.requirements, v, outside(bp.manifest.value)) ==> !r.ok
    ensures exists r :: r in UnionResults(w.blueprints, selected, v, outside) && !r.ok
  {
    UnionExact(w.blueprints, selected, v, outside);
    assert DepResult(SubscriptionRole, "", "", false)
      in BlueprintResults(bp.requirements, v, outside(bp.manifest.value));
  }
}

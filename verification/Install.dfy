/** The install of a source (ludus-api/source_sync.go): selection, blueprint
    rows, registration of shipped artifacts, dependency claims, and the law that
    ties what was installed to the selection the ledger gives back. */
module Install {
  import opened StringOrder
  import opened Source
  import opened Selection
  import opened SelectionLaws
  import opened Ledger
  import opened Dependencies
  import opened BlueprintRows

  // ---------------------------------------------------------------- Registration of shipped artifacts

  datatype ArtifactResult = ArtifactResult(name: string, ok: bool)

  ghost predicate AllOk(results: seq<ArtifactResult>)
  {
    forall i :: 0 <= i < |results| ==> results[i].ok
  }

  /** What happens to each name: whether its copy works, and what the database does. */
  datatype Luck = Luck(installOk: string -> bool, faults: string -> Faults)

  /** The inserts of one registration loop: one for each wanted name it could install, in order. */
  function NamedCalls(source: string, kind: Kind, names: seq<string>, wanted: seq<string>, luck: Luck): seq<Call>
  {
    if names == [] then []
    else
      var n := names[|names| - 1];
      NamedCalls(source, kind, names[..|names| - 1], wanted, luck)
      + (if n in wanted && luck.installOk(n) then [Insert(source, kind, n, "", luck.faults(n))] else [])
  }

  lemma AllOkConcat(a: seq<ArtifactResult>, b: seq<ArtifactResult>)
    ensures AllOk(a + b) <==> AllOk(a) && AllOk(b)
  {
    assert forall i :: 0 <= i < |a| ==> (a + b)[i] == a[i];
    assert forall i :: 0 <= i < |b| ==> (a + b)[|a| + i] == b[i];
  }

  /** One walked artifact: skipped, failed, or installed and claimed. */
  method RegisterOne(table: Table, source: string, kind: Kind, name: string, wanted: seq<string>, installed: bool,
                     f: Faults)
    returns (results: seq<ArtifactResult>)
    modifies table`rows
    ensures table.rows == if name in wanted && installed
                          then Inserted(old(table.rows), source, kind, name, "", f, table.indexed)
                          else old(table.rows)
    ensures results == if name in wanted then [ArtifactResult(name, installed)] else []
  {
    if name !in wanted {
      return [];
    }
    if installed {
      table.InsertSourceArtifact(source, kind, name, "", f);
    }
    results := [ArtifactResult(name, installed)];
  }

  /** The calls of one more name. */
  lemma NamedSnoc(rows: seq<Artifact>, source: string, kind: Kind, front: seq<string>, n: string, wanted: seq<string>,
                  luck: Luck, indexed: bool)
    ensures After(rows, NamedCalls(source, kind, front + [n], wanted, luck), indexed)
      == var before := After(rows, NamedCalls(source, kind, front, wanted, luck), indexed);
         if n in wanted && luck.installOk(n) then Inserted(before, source, kind, n, "", luck.faults(n), indexed)
         else before
  {
    assert (front + [n])[..|front|] == front;
    var calls := NamedCalls(source, kind, front, wanted, luck);
    var call := Insert(source, kind, n, "", luck.faults(n));
    assert (calls + [call])[..|calls|] == calls && calls + [] == calls;
  }

  lemma NoNamedCalls(rows: seq<Artifact>, source: string, kind: Kind, wanted: seq<string>, luck: Luck, indexed: bool)
    ensures After(rows, NamedCalls(source, kind, [], wanted, luck), indexed) == rows
    ensures AllOk([])
  {
  }

  lemma AllOkOne(results: seq<ArtifactResult>)
    ensures |results| == 0 ==> AllOk(results)
    ensures |results| == 1 ==> (AllOk(results) <==> results[0].ok)
  {
  }

  lemma WorkedSnoc(front: seq<string>, name: string, wanted: seq<string>, luck: Luck)
    ensures (forall n :: n in front + [name] && n in wanted ==> luck.installOk(n))
       <==> (forall n :: n in front && n in wanted ==> luck.installOk(n)) && (name in wanted ==> luck.installOk(name))
  {
  }

  /** registerTemplates and registerLocalRoles: `names` are the identities of the
      walked directories. */
  method RegisterNamed(table: Table, source: string, kind: Kind, names: seq<string>, wanted: seq<string>, luck: Luck)
    returns (results: seq<ArtifactResult>)
    modifies table`rows
    ensures table.rows == After(old(table.rows), NamedCalls(source, kind, names, wanted, luck), table.indexed)
    ensures AllOk(results) <==> forall n :: n in names && n in wanted ==> luck.installOk(n)
  {
    results := [];
    hide NamedCalls, After, Inserted, AllOk;
    NoNamedCalls(table.rows, source, kind, wanted, luck, table.indexed);
    assert names[..0] == [];
    for i := 0 to |names|
      invariant table.rows == After(old(table.rows), NamedCalls(source, kind, names[..i], wanted, luck), table.indexed)
      invariant AllOk(results) <==> forall n :: n in names[..i] && n in wanted ==> luck.installOk(n)
    {
      var name := names[i];
      assert names[..i + 1] == names[..i] + [name];
      WorkedSnoc(names[..i], name, wanted, luck);
      NamedSnoc(old(table.rows), source, kind, names[..i], name, wanted, luck, table.indexed);
      var more := RegisterOne(table, source, kind, name, wanted, luck.installOk(name), luck.faults(name));
      AllOkConcat(results, more);
      AllOkOne(more);
      results := results + more;
    }
    assert names[..|names|] == names;
  }

  /** Every directory has a name, and every wanted one installed. */
  ghost predicate CollectionsOk(dirs: seq<CollectionDir>, wanted: seq<string>, luck: Luck)
  {
    && (forall d :: d in dirs ==> CollectionName(d) != "")
    && (forall n :: n in CollectionNames(dirs) && n in wanted ==> luck.installOk(n))
  }

  lemma CollectionsSnoc(front: seq<CollectionDir>, dir: CollectionDir, wanted: seq<string>, luck: Luck)
    ensures CollectionsOk(front + [dir], wanted, luck) <==>
      CollectionsOk(front, wanted, luck) && CollectionName(dir) != ""
        && (CollectionName(dir) in wanted ==> luck.installOk(CollectionName(dir)))
    ensures CollectionNames(front + [dir])
      == CollectionNames(front) + (if CollectionName(dir) == "" then [] else [CollectionName(dir)])
  {
    var all := front + [dir];
    assert all[..|front|] == front;
    hide CollectionName;
    if CollectionName(dir) == "" {
      assert dir in all;
    } else {
      WorkedSnoc(CollectionNames(front), CollectionName(dir), wanted, luck);
    }
    assert (forall d :: d in all ==> CollectionName(d) != "") <==>
      (forall d :: d in front ==> CollectionName(d) != "") && CollectionName(dir) != "" by {
      assert dir in all;
    }
  }

  /** One directory of the collections. */
  method RegisterCollection(table: Table, source: string, dir: CollectionDir, wanted: seq<string>, luck: Luck)
    returns (results: seq<ArtifactResult>)
    modifies table`rows
    ensures var n := CollectionName(dir);
      table.rows == if n != "" && n in wanted && luck.installOk(n)
                    then Inserted(old(table.rows), source, LocalCollection, n, "", luck.faults(n), table.indexed)
                    else old(table.rows)
    ensures var n := CollectionName(dir); AllOk(results) <==> n != "" && (n in wanted ==> luck.installOk(n))
  {
    hide CollectionName, Inserted;
    var name := CollectionName(dir);
    if name == "" {
      results := [ArtifactResult(dir.base, false)];
      assert !results[0].ok;
      return;
    }
    results := RegisterOne(table, source, LocalCollection, name, wanted, luck.installOk(name), luck.faults(name));
    assert name in wanted ==> results[0].ok == luck.installOk(name);
  }

  /** The calls of one more directory. */
  lemma CollectionCallsSnoc(rows: seq<Artifact>, source: string, front: seq<CollectionDir>, dir: CollectionDir,
                            wanted: seq<string>, luck: Luck, indexed: bool)
    ensures After(rows, NamedCalls(source, LocalCollection, CollectionNames(front + [dir]), wanted, luck), indexed)
      == var before := After(rows, NamedCalls(source, LocalCollection, CollectionNames(front), wanted, luck), indexed);
         var n := CollectionName(dir);
         if n != "" && n in wanted && luck.installOk(n)
         then Inserted(before, source, LocalCollection, n, "", luck.faults(n), indexed) else before
  {
    CollectionsSnoc(front, dir, wanted, luck);
    hide CollectionName, CollectionNames, NamedCalls, After, Inserted;
    var names, n := CollectionNames(front), CollectionName(dir);
    if n == "" {
      assert names + [] == names;
    } else {
      NamedSnoc(rows, source, LocalCollection, names, n, wanted, luck, indexed);
    }
  }

  lemma NoCollections(rows: seq<Artifact>, source: string, wanted: seq<string>, luck: Luck, indexed: bool)
    ensures After(rows, NamedCalls(source, LocalCollection, CollectionNames([]), wanted, luck), indexed) == rows
    ensures AllOk([]) && CollectionsOk([], wanted, luck)
  {
  }

  /** registerLocalCollections: a directory without a usable galaxy.yml is a
      failure even when nothing selected it. The claims it tries to insert are of
      a kind the table does not take, so its rows stay as they were. */
  method RegisterLocalCollections(table: Table, source: string, dirs: seq<CollectionDir>, wanted: seq<string>,
                                  luck: Luck)
    returns (results: seq<ArtifactResult>)
    modifies table`rows
    ensures table.rows
      == After(old(table.rows), NamedCalls(source, LocalCollection, CollectionNames(dirs), wanted, luck), table.indexed)
    ensures table.rows == old(table.rows)
    ensures AllOk(results) <==> CollectionsOk(dirs, wanted, luck)
  {
    results := [];
    hide CollectionName, CollectionNames, CollectionsOk, AllOk, NamedCalls, After, Inserted;
    NoCollections(table.rows, source, wanted, luck, table.indexed);
    assert dirs[..0] == [];
    for i := 0 to |dirs|
      invariant table.rows
             == After(old(table.rows), NamedCalls(source, LocalCollection, CollectionNames(dirs[..i]), wanted, luck),
                      table.indexed)
      invariant AllOk(results) <==> CollectionsOk(dirs[..i], wanted, luck)
    {
      assert dirs[..i + 1] == dirs[..i] + [dirs[i]];
      CollectionsSnoc(dirs[..i], dirs[i], wanted, luck);
      CollectionCallsSnoc(old(table.rows), source, dirs[..i], dirs[i], wanted, luck, table.indexed);
      var more := RegisterCollection(table, source, dirs[i], wanted, luck);
      AllOkConcat(results, more);
      results := results + more;
    }
    assert dirs[..|dirs|] == dirs;
    CollectionsRefused(old(table.rows), source, CollectionNames(dirs), wanted, luck, table.indexed);
  }

  lemma {:induction false} CollectionsRefused(rows: seq<Artifact>, source: string, names: seq<string>,
                                              wanted: seq<string>, luck: Luck, indexed: bool)
    ensures After(rows, NamedCalls(source, LocalCollection, names, wanted, luck), indexed) == rows
  {
    if names != [] {
      var front, n := names[..|names| - 1], names[|names| - 1];
      CollectionsRefused(rows, source, front, wanted, luck, indexed);
      assert names == front + [n];
      NamedSnoc(rows, source, LocalCollection, front, n, wanted, luck, indexed);
      StorableIff(LocalCollection, n);
    }
  }

  // ---------------------------------------------------------------- selectionFromClaims

  method NamesClaimed(table: Table, source: string, kind: Kind, available: seq<string>) returns (names: seq<string>)
    ensures Elements(names) == Claims(table.rows, source, kind) * Elements(available)
  {
    names := [];
    for i := 0 to |table.rows|
      invariant Elements(names) == Claims(table.rows[..i], source, kind) * Elements(available)
    {
      var r := table.rows[i];
      assert table.rows[..i + 1] == table.rows[..i] + [r];
      assert Claims(table.rows[..i] + [r], source, kind)
        == Claims(table.rows[..i], source, kind) + (if r.source == source && r.kind == kind then {r.name} else {});
      if r.source != source || r.kind != kind || r.name !in available {
        continue;
      }
      ElementsSnoc(names, r.name);
      names := names + [r.name];
    }
    assert table.rows[..|table.rows|] == table.rows;
  }

  method SubsClaimed(table: BlueprintTable, source: string, available: seq<string>) returns (ids: seq<string>)
    ensures Elements(ids) == Subs(table.rows, source) * Elements(available)
  {
    ids := [];
    for i := 0 to |table.rows|
      invariant Elements(ids) == Subs(table.rows[..i], source) * Elements(available)
    {
      var r := table.rows[i];
      assert table.rows[..i + 1] == table.rows[..i] + [r];
      assert Subs(table.rows[..i] + [r], source)
        == Subs(table.rows[..i], source) + (if r.source == source then {r.sub} else {});
      if r.source != source || r.sub !in available {
        continue;
      }
      ElementsSnoc(ids, r.sub);
      ids := ids + [r.sub];
    }
    assert table.rows[..|table.rows|] == table.rows;
  }

  /** Which of the four queries work; one that fails reads as no rows. */
  datatype Queries = Queries(blueprints: bool, artifacts: Kind -> bool)

  const ALL_WORK := Queries(true, (k: Kind) => true)

  /** The selection the ledger describes, seen as sets: claims still shipped by this walk. */
  ghost predicate FromClaims(sel: Sel, claims: seq<Artifact>, rows: seq<BlueprintRow>, source: string, w: WalkedSource,
                             q: Queries)
  {
    && Elements(sel.blueprints) == (if q.blueprints then Subs(rows, source) * Elements(Snapshot(w).blueprints) else {})
    && Elements(sel.templates) == Read(claims, source, Template, Snapshot(w).templates, q)
    && Elements(sel.localRoles) == Read(claims, source, LocalRole, Snapshot(w).localRoles, q)
    && Elements(sel.localCollections) == Read(claims, source, LocalCollection, Snapshot(w).localCollections, q)
  }

  ghost function Read(claims: seq<Artifact>, source: string, k: Kind, available: seq<string>, q: Queries): set<string>
  {
    if q.artifacts(k) then Claims(claims, source, k) * Elements(available) else {}
  }

  method SelectionFromClaims(ledger: Table, blueprints: BlueprintTable, source: string, walked: WalkedSource,
                             q: Queries)
    returns (sel: InstallSelection)
    ensures fresh(sel) && FromClaims(sel.Value(), ledger.rows, blueprints.rows, source, walked, q)
  {
    hide Claims, Subs, Snapshot;
    var available := SnapshotWalkedAsSelection(walked);
    sel := new InstallSelection(Sel([], [], [], []));
    NoNames();
    if q.blueprints {
      sel.blueprints := SubsClaimed(blueprints, source, available.blueprints);
    }
    if q.artifacts(Template) {
      sel.templates := NamesClaimed(ledger, source, Template, available.templates);
    }
    if q.artifacts(LocalRole) {
      sel.localRoles := NamesClaimed(ledger, source, LocalRole, available.localRoles);
    }
    if q.artifacts(LocalCollection) {
      sel.localCollections := NamesClaimed(ledger, source, LocalCollection, available.localCollections);
    }
  }

  lemma NoNames()
    ensures Elements([]) == {}
  {
  }

  lemma FromClaimsWithin(sel: Sel, claims: seq<Artifact>, rows: seq<BlueprintRow>, source: string, w: WalkedSource,
                         q: Queries)
    requires FromClaims(sel, claims, rows, source, w, q)
    ensures Within(sel, Snapshot(w))
  {
    hide Claims, Subs, Snapshot;
    forall x
      ensures x in sel.blueprints ==> x in Snapshot(w).blueprints
      ensures x in sel.templates ==> x in Snapshot(w).templates
      ensures x in sel.localRoles ==> x in Snapshot(w).localRoles
      ensures x in sel.localCollections ==> x in Snapshot(w).localCollections
    {
      assert x in sel.blueprints <==> x in Elements(sel.blueprints);
      assert x in sel.templates <==> x in Elements(sel.templates);
      assert x in sel.localRoles <==> x in Elements(sel.localRoles);
      assert x in sel.localCollections <==> x in Elements(sel.localCollections);
    }
  }

  // ---------------------------------------------------------------- runSourceInstall

  datatype Request = ReapplyClaims | Everything | Chosen(sel: Sel)
  datatype Status = SyncOk | Partial | Refused

  /** Everything outside this code: queries, file copies, saves, deletes, galaxy runs. */
  datatype World = World(queries: Queries, installOk: (Kind, string) -> bool, faults: (Kind, string) -> Faults,
                         rows: RowFaults, saveSource: bool, outside: string -> Outside, noDeps: bool)

  ghost predicate Acceptable(request: Request, walked: WalkedSource)
  {
    request.Chosen? ==> Within(request.sel, Snapshot(walked))
  }

  function LuckOf(world: World, k: Kind): Luck
  {
    Luck(n => world.installOk(k, n), n => world.faults(k, n))
  }

  /** Everything selected installs, and every collection directory has a name. */
  ghost predicate CopiesWork(used: Sel, walked: WalkedSource, world: World)
  {
    && (forall k, n :: LocalKind(k) && n in NamesOfKind(used, k) ==> world.installOk(k, n))
    && (forall d :: d in walked.localCollections ==> CollectionName(d) != "")
  }

  /** The dependency results of an install. */
  ghost function DepResults(used: Sel, walked: WalkedSource, world: World): seq<DepResult>
  {
    if world.noDeps then [] else UnionResults(walked.blueprints, used.blueprints, VendoredBy(walked), world.outside)
  }

  /** The source's blueprints after an install: the old ones still shipped, and the selected ones. */
  ghost predicate SubsAfter(before: seq<BlueprintRow>, after: seq<BlueprintRow>, source: string, walked: WalkedSource,
                            used: Sel)
  {
    Subs(after, source) == (Subs(before, source) * Elements(Snapshot(walked).blueprints)) + Elements(used.blueprints)
  }

  /** Every insert the registration loops make. */
  ghost function LocalCalls(source: string, walked: WalkedSource, used: Sel, world: World): seq<Call>
  {
    NamedCalls(source, Template, walked.templates, used.templates, LuckOf(world, Template))
    + NamedCalls(source, LocalRole, RoleNames(walked.localRoles), used.localRoles, LuckOf(world, LocalRole))
    + NamedCalls(source, LocalCollection, CollectionNames(walked.localCollections), used.localCollections,
                 LuckOf(world, LocalCollection))
  }

  /** Every insert an install makes, in order. */
  ghost function InstallCalls(source: string, walked: WalkedSource, used: Sel, world: World): seq<Call>
  {
    LocalCalls(source, walked, used, world) + DepCalls(source, DepResults(used, walked, world), world.faults)
  }

  /** The three registration loops, in order. */
  method RegisterAll(ledger: Table, source: string, walked: WalkedSource, sel: Sel, world: World) returns (ok: bool)
    requires Within(sel, Snapshot(walked))
    modifies ledger`rows
    ensures ledger.rows == After(old(ledger.rows), LocalCalls(source, walked, sel, world), ledger.indexed)
    ensures ok <==> CopiesWork(sel, walked, world)
  {
    hide NamedCalls, After, Within, CollectionsOk, CopiesWork;
    ghost var t0, r0 := NamedCalls(source, Template, walked.templates, sel.templates, LuckOf(world, Template)),
      NamedCalls(source, LocalRole, RoleNames(walked.localRoles), sel.localRoles, LuckOf(world, LocalRole));
    ghost var c0 := NamedCalls(source, LocalCollection, CollectionNames(walked.localCollections), sel.localCollections,
                               LuckOf(world, LocalCollection));
    AfterConcat(old(ledger.rows), t0, r0, ledger.indexed);
    AfterConcat(old(ledger.rows), t0 + r0, c0, ledger.indexed);
    var t := RegisterNamed(ledger, source, Template, walked.templates, sel.templates, LuckOf(world, Template));
    var r := RegisterNamed(ledger, source, LocalRole, RoleNames(walked.localRoles), sel.localRoles,
                           LuckOf(world, LocalRole));
    var c := RegisterLocalCollections(ledger, source, walked.localCollections, sel.localCollections,
                                      LuckOf(world, LocalCollection));
    var tOk, rOk, cOk := Succeeded(t), Succeeded(r), Succeeded(c);
    ok := tOk && rOk && cOk;
    WantedInstalled(sel, walked, world);
  }

  /** The switch on the kind of request. */
  method ChooseSelection(ledger: Table, blueprints: BlueprintTable, source: string, walked: WalkedSource,
                         request: Request, q: Queries)
    returns (sel: InstallSelection, valid: bool)
    ensures fresh(sel)
    ensures valid <==> Acceptable(request, walked)
    ensures valid ==> Within(sel.Value(), Snapshot(walked))
    ensures valid ==>
      match request
      case ReapplyClaims => FromClaims(sel.Value(), ledger.rows, blueprints.rows, source, walked, q)
      case Everything => sel.Value() == Snapshot(walked)
      case Chosen(chosen) => sel.Value() == chosen
  {
    hide Snapshot;
    match request {
      case ReapplyClaims =>
        sel := SelectionFromClaims(ledger, blueprints, source, walked, q);
        FromClaimsWithin(sel.Value(), ledger.rows, blueprints.rows, source, walked, q);
        valid := true;
      case Everything =>
        sel := SnapshotWalkedAsSelection(walked);
        valid := true;
      case Chosen(chosen) =>
        sel := new InstallSelection(chosen);
        valid := ValidateSelectionAgainstWalk(sel, walked);
    }
  }

  method RunSourceInstall(ledger: Table, blueprints: BlueprintTable, src: SourceRecord, walked: WalkedSource,
                          request: Request, world: World)
    returns (status: Status, ghost asked: Sel, ghost used: Sel)
    modifies ledger`rows, blueprints
    ensures Proper(old(blueprints.rows), src) ==> Proper(blueprints.rows, src)
    ensures OnlyWalked(old(blueprints.rows), blueprints.rows, src.id, walked.blueprints, used.blueprints)
    ensures forall r :: r in old(blueprints.rows) ==>
      || r in blueprints.rows
      || (r.source == src.id && (r.sub in used.blueprints || r.sub !in Snapshot(walked).blueprints))
    ensures !status.Refused? && NoTwins(walked.blueprints) ==>
      Fresh(blueprints.rows, src.id, walked.blueprints, used.blueprints)
    ensures !Acceptable(request, walked) ==>
      status == Refused && ledger.rows == old(ledger.rows) && blueprints.rows == old(blueprints.rows)
    ensures ledger.rows == if status.Refused? then old(ledger.rows)
                           else After(old(ledger.rows), InstallCalls(src.id, walked, used, world), ledger.indexed)
    ensures NoTwins(walked.blueprints) ==>
      (status.Refused? <==>
        || !Acceptable(request, walked) || !world.saveSource || !world.rows.collectionFound
        || exists id :: id in used.blueprints && !Storing(old(blueprints.rows), src, id, world.rows))
    ensures !status.Refused? ==>
      forall id :: id in used.blueprints ==> Storing(old(blueprints.rows), src, id, world.rows)
    ensures Acceptable(request, walked) ==>
      used == Expanded(asked, walked) && Within(used, Snapshot(walked)) && Expanded(used, walked) == used
    ensures Acceptable(request, walked) ==>
      match request
      case ReapplyClaims => FromClaims(asked, old(ledger.rows), old(blueprints.rows), src.id, walked, world.queries)
      case Everything => asked == used == Snapshot(walked)
      case Chosen(sel) => asked == sel
    ensures !status.Refused? && world.rows.listOk && (forall s :: world.rows.deleteOk(s)) ==>
      SubsAfter(old(blueprints.rows), blueprints.rows, src.id, walked, used)
    ensures !status.Refused? ==>
      (status == SyncOk <==>
         && CopiesWork(used, walked, world)
         && (world.noDeps
             || forall r :: r in UnionResults(walked.blueprints, used.blueprints, VendoredBy(walked), world.outside) ==>
                  r.ok))
  {
    hide FromClaims, Expanded, Subs, Within, Snapshot, NoTwins, Storing, CopiesWork, Proper, Acceptable, After,
      LocalCalls, DepCalls, Fresh;
    var sel, valid := ChooseSelection(ledger, blueprints, src.id, walked, request, world.queries);
    asked := sel.Value();
    used := asked;
    NothingStored(blueprints.rows, src.id, walked.blueprints, []);
    if !valid {
      return Refused, asked, used;
    }
    ExpandSelectionWithBlueprintDeps(sel, walked);
    used := sel.Value();
    ExpansionKeepsValid(asked, walked);
    ExpansionIdempotent(asked, walked);
    SnapshotIsClosed(walked);
    if !world.saveSource {
      return Refused, asked, used;
    }
    SelectedWithin(used, walked);
    var stored := blueprints.UpsertSourceBlueprints(src, walked, sel.blueprints, world.rows);
    assert forall id :: id in used.blueprints <==> id in Elements(used.blueprints);
    if !stored {
      return Refused, asked, used;
    }
    var chosen := Sel(sel.blueprints, sel.templates, sel.localRoles, sel.localCollections);
    var registered := RegisterAll(ledger, src.id, walked, chosen, world);
    var deps: seq<DepResult> := [];
    ghost var registeredRows := ledger.rows;
    if !world.noDeps {
      deps := InstallUnionedAnsible(ledger, src.id, walked, sel.blueprints, world.outside, world.faults);
    }
    assert ledger.rows == After(registeredRows, DepCalls(src.id, deps, world.faults), ledger.indexed) by {
      NoCalls(registeredRows, src.id, world.faults, ledger.indexed);
    }
    AfterConcat(old(ledger.rows), LocalCalls(src.id, walked, used, world), DepCalls(src.id, deps, world.faults),
                ledger.indexed);
    var depsOk := DepsOk(deps);
    status := if registered && depsOk then SyncOk else Partial;
  }

  predicate DepsOk(results: seq<DepResult>)
    ensures DepsOk(results) <==> forall r :: r in results ==> r.ok
  {
    forall i :: 0 <= i < |results| ==> results[i].ok
  }

  predicate Succeeded(results: seq<ArtifactResult>)
    ensures Succeeded(results) <==> AllOk(results)
  {
    forall i :: 0 <= i < |results| ==> results[i].ok
  }

  function NamesOfKind(sel: Sel, k: Kind): seq<string>
  {
    match k
    case Template => sel.templates
    case LocalRole => sel.localRoles
    case LocalCollection => sel.localCollections
    case _ => []
  }

  lemma SelectedWithin(used: Sel, walked: WalkedSource)
    requires Within(used, Snapshot(walked))
    ensures Elements(used.blueprints) * Elements(Ids(walked.blueprints)) == Elements(used.blueprints)
    ensures Snapshot(walked).blueprints == Ids(walked.blueprints)
  {
  }

  /** The loops report success exactly when every copy works. */
  lemma WantedInstalled(sel: Sel, walked: WalkedSource, world: World)
    requires Within(sel, Snapshot(walked))
    ensures CopiesWork(sel, walked, world) <==>
      && (forall n :: n in walked.templates && n in sel.templates ==> world.installOk(Template, n))
      && (forall n :: n in RoleNames(walked.localRoles) && n in sel.localRoles ==> world.installOk(LocalRole, n))
      && CollectionsOk(walked.localCollections, sel.localCollections, LuckOf(world, LocalCollection))
  {
    hide CollectionName;
    assert LocalKind(Template) && LocalKind(LocalRole) && LocalKind(LocalCollection);
    if CopiesWork(sel, walked, world) {
      assert forall n :: n in sel.templates ==> n in NamesOfKind(sel, Template);
      assert forall n :: n in sel.localRoles ==> n in NamesOfKind(sel, LocalRole);
      assert forall n :: n in sel.localCollections ==> n in NamesOfKind(sel, LocalCollection);
    }
  }
}

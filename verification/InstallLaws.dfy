/** Laws of an install: what it leaves in the ledger, and what of it the
    selection read back from the ledger contains. */
module InstallLaws {
  import opened StringOrder
  import opened Source
  import opened Selection
  import opened SelectionLaws
  import opened Ledger
  import opened LedgerLaws
  import opened BlueprintRows
  import opened Dependencies
  import opened Install

  // ---------------------------------------------------------------- What an install claims

  /** The selected names of a kind that were both installed and recorded. */
  ghost function Landed(used: Sel, world: World, k: Kind): set<string>
  {
    set n | n in NamesOfKind(used, k) && world.installOk(k, n) && Recording(k, n, world.faults(k, n))
  }

  /** The dependencies of a kind that were reported good and recorded. */
  ghost function Fetched(used: Sel, w: WalkedSource, world: World, k: Kind): set<string>
  {
    if world.noDeps then {}
    else
      set r | r in UnionResults(w.blueprints, used.blueprints, VendoredBy(w), world.outside) && r.ok && r.kind == k
        && Recording(k, r.name, world.faults(k, r.name)) :: r.name
  }

  lemma {:induction false} NamedCallsExact(source: string, kind: Kind, names: seq<string>, wanted: seq<string>,
                                           luck: Luck)
    ensures forall c :: c in NamedCalls(source, kind, names, wanted, luck) <==>
      exists n :: n in names && n in wanted && luck.installOk(n) && c == Insert(source, kind, n, "", luck.faults(n))
  {
    if names != [] {
      var front, last := names[..|names| - 1], names[|names| - 1];
      NamedCallsExact(source, kind, front, wanted, luck);
      assert names == front + [last];
    }
  }

  /** The calls for names that the walk has and the selection wants. */
  lemma WantedCallsExact(source: string, kind: Kind, names: seq<string>, used: Sel, world: World)
    requires forall n :: n in NamesOfKind(used, kind) ==> n in names
    ensures forall c :: c in NamedCalls(source, kind, names, NamesOfKind(used, kind), LuckOf(world, kind)) <==>
      exists n :: n in NamesOfKind(used, kind) && world.installOk(kind, n)
        && c == Insert(source, kind, n, "", world.faults(kind, n))
  {
    NamedCallsExact(source, kind, names, NamesOfKind(used, kind), LuckOf(world, kind));
  }

  /** c is the insert of a selected artifact. */
  ghost predicate LocalCall(c: Call, source: string, used: Sel, world: World)
  {
    exists k, n :: LocalKind(k) && n in NamesOfKind(used, k) && world.installOk(k, n)
      && c == Insert(source, k, n, "", world.faults(k, n))
  }

  /** c is the insert of a good dependency. */
  ghost predicate DepCall(c: Call, source: string, used: Sel, w: WalkedSource, world: World)
  {
    exists r :: r in DepResults(used, w, world) && r.ok
      && c == Insert(source, r.kind, r.name, r.version, world.faults(r.kind, r.name))
  }

  lemma LocalCallsExact(source: string, w: WalkedSource, used: Sel, world: World)
    requires Within(used, Snapshot(w))
    ensures forall c :: c in LocalCalls(source, w, used, world) <==> LocalCall(c, source, used, world)
  {
    WantedCallsExact(source, Template, w.templates, used, world);
    WantedCallsExact(source, LocalRole, RoleNames(w.localRoles), used, world);
    WantedCallsExact(source, LocalCollection, CollectionNames(w.localCollections), used, world);
    hide NamedCalls, RoleNames, CollectionNames;
    assert LocalKind(Template) && LocalKind(LocalRole) && LocalKind(LocalCollection);
    assert NamesOfKind(used, Template) == used.templates && NamesOfKind(used, LocalRole) == used.localRoles
      && NamesOfKind(used, LocalCollection) == used.localCollections;
  }

  lemma InstallCallsExact(source: string, w: WalkedSource, used: Sel, world: World)
    requires Within(used, Snapshot(w))
    ensures forall c :: c in InstallCalls(source, w, used, world) <==>
      LocalCall(c, source, used, world) || DepCall(c, source, used, w, world)
  {
    LocalCallsExact(source, w, used, world);
    DepCallsExact(source, DepResults(used, w, world), world.faults);
    hide LocalCalls, DepCalls, DepResults, LocalCall;
  }

  /** Whatever fails on the way, an install claims exactly what landed of its
      selection, and the good dependencies, each under its own kind. */
  lemma InstallClaims(before: seq<Artifact>, source: string, w: WalkedSource, used: Sel, world: World, indexed: bool,
                      s: string, k: Kind)
    requires Within(used, Snapshot(w))
    ensures Claims(After(before, InstallCalls(source, w, used, world), indexed), s, k)
      == Claims(before, s, k)
         + (if s != source then {} else if LocalKind(k) then Landed(used, world, k) else Fetched(used, w, world, k))
  {
    var calls := InstallCalls(source, w, used, world);
    InstallCallsExact(source, w, used, world);
    hide InstallCalls, DepResults, Recording, Within, NamesOfKind, After, Claims;
    InsertsClaim(before, calls, indexed, s, k);
    assert ClaimedBy(calls, s, k) == if s != source then {} else if LocalKind(k) then Landed(used, world, k)
      else Fetched(used, w, world, k) by {
      ClaimedByInstall(calls, source, w, used, world, s, k);
    }
  }

  lemma ClaimedByInstall(calls: seq<Call>, source: string, w: WalkedSource, used: Sel, world: World, s: string, k: Kind)
    requires forall c :: c in calls <==> LocalCall(c, source, used, world) || DepCall(c, source, used, w, world)
    ensures ClaimedBy(calls, s, k)
         == if s != source then {} else if LocalKind(k) then Landed(used, world, k) else Fetched(used, w, world, k)
  {
    hide UnionResults, Recording, NamesOfKind;
    if s == source && LocalKind(k) {
      forall n | n in Landed(used, world, k) ensures n in ClaimedBy(calls, s, k) {
        assert LocalCall(Insert(source, k, n, "", world.faults(k, n)), source, used, world);
      }
    } else if s == source {
      forall n | n in Fetched(used, w, world, k) ensures n in ClaimedBy(calls, s, k) {
        var r :| r in DepResults(used, w, world) && r.ok && r.kind == k && r.name == n
          && Recording(k, n, world.faults(k, n));
        assert DepCall(Insert(source, k, n, r.version, world.faults(k, n)), source, used, w, world);
      }
    }
  }

  /** With the index, or while no lookup fails, an install keeps one row per claim;
      while no lookup fails, the same install once more leaves the ledger row by
      row as it was. */
  lemma ReinstallChangesNothing(before: seq<Artifact>, source: string, w: WalkedSource, used: Sel, world: World,
                                indexed: bool)
    requires Unique(before) && Within(used, Snapshot(w)) && forall k, n :: world.faults(k, n).lookupOk
    ensures var calls := InstallCalls(source, w, used, world);
            Unique(After(before, calls, indexed))
              && After(After(before, calls, indexed), calls, indexed) == After(before, calls, indexed)
  {
    var calls := InstallCalls(source, w, used, world);
    var f := (s: string, k: Kind, n: string) => world.faults(k, n);
    InstallCallsExact(source, w, used, world);
    hide InstallCalls, Unique, After, Within, DepResults, NamesOfKind;
    assert Steady(calls, f);
    LedgerStaysUnique(before, calls, indexed);
    RunAgain(before, calls, f, indexed);
  }

  lemma NoCollectionLands(used: Sel, world: World)
    ensures Landed(used, world, LocalCollection) == {}
  {
    forall n ensures !Storable(LocalCollection, n) {
      StorableIff(LocalCollection, n);
    }
  }

  // ---------------------------------------------------------------- Installs in which everything works

  /** Every query, copy, save and delete works. */
  ghost predicate Works(used: Sel, world: World)
  {
    && world.queries.blueprints && (forall k :: world.queries.artifacts(k))
    && world.rows.listOk && (forall s :: world.rows.deleteOk(s))
    && forall k, n | LocalKind(k) && n in NamesOfKind(used, k) ::
         world.installOk(k, n) && world.faults(k, n).collectionFound && world.faults(k, n).saveOk
  }

  /** The ledger gained exactly the selection, under the three local kinds. */
  ghost predicate Gains(before: seq<Artifact>, after: seq<Artifact>, source: string, used: Sel)
  {
    forall s, k | LocalKind(k) :: Claims(after, s, k)
      == Claims(before, s, k) + (if s == source then Elements(NamesOfKind(used, k)) else {})
  }

  lemma NamesNotEmpty(w: WalkedSource)
    ensures "" !in Snapshot(w).templates && "" !in Snapshot(w).localRoles
  {
    hide LocalRoleName;
    assert forall i :: 0 <= i < |w.localRoles| ==> LocalRoleName(w.localRoles[i]) != "";
  }

  /** When everything works, all of the templates and roles land, and none of the collections. */
  lemma WorkingLands(w: WalkedSource, used: Sel, world: World)
    requires Within(used, Snapshot(w)) && Works(used, world)
    ensures Landed(used, world, Template) == Elements(used.templates)
    ensures Landed(used, world, LocalRole) == Elements(used.localRoles)
    ensures Landed(used, world, LocalCollection) == {}
  {
    NamesNotEmpty(w);
    NoCollectionLands(used, world);
    hide Snapshot;
    forall k, n | k in [Template, LocalRole] && n in NamesOfKind(used, k) ensures LocalKind(k) && Storable(k, n) {
      StorableIff(k, n);
    }
    hide Storable;
    assert forall n :: n in used.templates ==> n in NamesOfKind(used, Template);
    assert forall n :: n in used.localRoles ==> n in NamesOfKind(used, LocalRole);
  }

  /** An install in which everything works gains its whole selection if and only
      if the selection has no collection. */
  lemma AllLandedGainsIff(before: seq<Artifact>, source: string, w: WalkedSource, used: Sel, world: World,
                          indexed: bool)
    requires Within(used, Snapshot(w)) && Works(used, world) && Unclaimed(before, LocalCollection)
    ensures Gains(before, After(before, InstallCalls(source, w, used, world), indexed), source, used) <==>
      used.localCollections == []
  {
    var after := After(before, InstallCalls(source, w, used, world), indexed);
    WorkingLands(w, used, world);
    forall s, k | LocalKind(k)
      ensures Claims(after, s, k) == Claims(before, s, k) + (if s == source then Landed(used, world, k) else {})
    {
      InstallClaims(before, source, w, used, world, indexed, s, k);
    }
    hide Claims, Landed, Within, Works, After, InstallCalls;
    assert LocalKind(LocalCollection);
    NoElements(used.localCollections);
    assert Claims(after, source, LocalCollection) == {};
  }

  /** No install leaves a claim on a collection, whatever works or fails. */
  lemma InstallsKeepCollectionsUnclaimed(before: seq<Artifact>, source: string, w: WalkedSource, used: Sel,
                                         world: World, indexed: bool)
    requires Unclaimed(before, LocalCollection) && Within(used, Snapshot(w))
    ensures Unclaimed(After(before, InstallCalls(source, w, used, world), indexed), LocalCollection)
  {
    forall s ensures Claims(After(before, InstallCalls(source, w, used, world), indexed), s, LocalCollection) == {} {
      InstallClaims(before, source, w, used, world, indexed, s, LocalCollection);
      NoCollectionLands(used, world);
      hide Claims, Landed, After, InstallCalls, Within;
    }
  }

  // ---------------------------------------------------------------- Reading the selection back

  /** `back` holds what `prev` held and what `used` holds, kind by kind. */
  ghost predicate ReadsBack(prev: Sel, used: Sel, back: Sel)
  {
    && Elements(back.blueprints) == Elements(prev.blueprints) + Elements(used.blueprints)
    && Elements(back.templates) == Elements(prev.templates) + Elements(used.templates)
    && Elements(back.localRoles) == Elements(prev.localRoles) + Elements(used.localRoles)
    && Elements(back.localCollections) == Elements(prev.localCollections) + Elements(used.localCollections)
  }

  lemma NoElements(xs: seq<string>)
    ensures Elements(xs) == {} <==> xs == []
  {
    if xs != [] {
      assert xs[0] in Elements(xs);
    }
  }

  /** Without a claim on a collection, none is read back. */
  lemma NoCollectionReadBack(sel: Sel, claims: seq<Artifact>, rows: seq<BlueprintRow>, source: string, w: WalkedSource,
                             q: Queries)
    requires Unclaimed(claims, LocalCollection) && FromClaims(sel, claims, rows, source, w, q)
    ensures sel.localCollections == []
  {
    hide Claims, Subs, Snapshot;
    assert Claims(claims, source, LocalCollection) == {};
    NoElements(sel.localCollections);
  }

  /** The tables after an install are those RunSourceInstall leaves. */
  ghost predicate Outcome(before: seq<Artifact>, after: seq<Artifact>, rowsBefore: seq<BlueprintRow>,
                          rowsAfter: seq<BlueprintRow>, source: string, w: WalkedSource, used: Sel, world: World,
                          indexed: bool)
  {
    after == After(before, InstallCalls(source, w, used, world), indexed)
      && SubsAfter(rowsBefore, rowsAfter, source, w, used)
  }

  /** After an install in which everything works, on a ledger any run of calls may
      have left, the selection read back is what was claimed before and is still
      shipped together with what was installed, if and only if nothing installed
      was a collection. Blueprints, templates and roles always come back. */
  lemma ClaimsGiveBackSelectionIff(calls: seq<Call>, indexed: bool, after: seq<Artifact>, rowsBefore: seq<BlueprintRow>,
                                   rowsAfter: seq<BlueprintRow>, source: string, w: WalkedSource, asked: Sel,
                                   world: World, prev: Sel, back: Sel)
    requires Within(asked, Snapshot(w)) && Works(Expanded(asked, w), world)
    requires Outcome(After([], calls, indexed), after, rowsBefore, rowsAfter, source, w, Expanded(asked, w), world,
                     indexed)
    requires FromClaims(prev, After([], calls, indexed), rowsBefore, source, w, world.queries)
    requires FromClaims(back, after, rowsAfter, source, w, world.queries)
    ensures ReadsBack(prev, Expanded(asked, w), back) <==> Expanded(asked, w).localCollections == []
    ensures ReadsBack(prev, Expanded(asked, w).(localCollections := []), back)
  {
    hide InstallCalls, Works, FromClaims, Expanded, Within, After, Snapshot;
    var before, used := After([], calls, indexed), Expanded(asked, w);
    CollectionsNeverClaimed(calls, indexed);
    ExpansionKeepsValid(asked, w);
    InstallsKeepCollectionsUnclaimed(before, source, w, used, world, indexed);
    NoCollectionReadBack(prev, before, rowsBefore, source, w, world.queries);
    NoCollectionReadBack(back, after, rowsAfter, source, w, world.queries);
    OtherKindsComeBack(before, after, rowsBefore, rowsAfter, source, w, used, world, indexed, prev, back);
    NoElements(used.localCollections);
    NoElements([]);
  }

  lemma OtherKindsComeBack(before: seq<Artifact>, after: seq<Artifact>, rowsBefore: seq<BlueprintRow>,
                           rowsAfter: seq<BlueprintRow>, source: string, w: WalkedSource, used: Sel, world: World,
                           indexed: bool, prev: Sel, back: Sel)
    requires Within(used, Snapshot(w)) && Works(used, world)
    requires Outcome(before, after, rowsBefore, rowsAfter, source, w, used, world, indexed)
    requires FromClaims(prev, before, rowsBefore, source, w, world.queries)
    requires FromClaims(back, after, rowsAfter, source, w, world.queries)
    ensures Elements(back.blueprints) == Elements(prev.blueprints) + Elements(used.blueprints)
    ensures Elements(back.templates) == Elements(prev.templates) + Elements(used.templates)
    ensures Elements(back.localRoles) == Elements(prev.localRoles) + Elements(used.localRoles)
  {
    WorkingLands(w, used, world);
    WithinElements(used, Snapshot(w));
    assert LocalKind(Template) && LocalKind(LocalRole);
    InstallClaims(before, source, w, used, world, indexed, source, Template);
    InstallClaims(before, source, w, used, world, indexed, source, LocalRole);
    hide Claims, Subs, Snapshot, Landed, After, InstallCalls, Within;
  }

  lemma WithinElements(sel: Sel, available: Sel)
    requires Within(sel, available)
    ensures Elements(available.blueprints) * Elements(sel.blueprints) == Elements(sel.blueprints)
    ensures Elements(available.templates) * Elements(sel.templates) == Elements(sel.templates)
    ensures Elements(available.localRoles) * Elements(sel.localRoles) == Elements(sel.localRoles)
  {
  }

  /** A reapply asks for no collection: it reinstalls exactly those its blueprints require. */
  lemma ReappliedCollections(calls: seq<Call>, indexed: bool, rows: seq<BlueprintRow>, source: string, w: WalkedSource,
                             q: Queries, asked: Sel)
    requires FromClaims(asked, After([], calls, indexed), rows, source, w, q)
    ensures asked.localCollections == []
    ensures forall c :: c in Expanded(asked, w).localCollections <==> NeedsCollection(w, asked.blueprints, c)
  {
    CollectionsNeverClaimed(calls, indexed);
    NoCollectionReadBack(asked, After([], calls, indexed), rows, source, w, q);
    ExpandedExact(asked, w);
  }

  // ---------------------------------------------------------------- A collection is lost

  const ALL_FOUND := Faults(true, true, true)
  const ROWS_WORK :=
    RowFaults(true, (s: string) => true, (s: string) => true, (s: string) => true, true, (s: string) => true)
  const NOTHING_FETCHED := Outside(true, false, (d: RoleDir, n: string) => true, (d: RoleDir) => "",
                                   (r: Requirements) => GalaxyRun(false, []), (r: Requirements) => GalaxyRun(false, []),
                                   (n: string) => "", (n: string) => true)
  const ALL_GOOD := World(ALL_WORK, (k: Kind, n: string) => true, (k: Kind, n: string) => ALL_FOUND, ROWS_WORK, true,
                          (id: string) => NOTHING_FETCHED, false)

  lemma OnlyCollection(dir: CollectionDir)
    requires CollectionName(dir) != ""
    ensures Snapshot(WalkedSource([], [], [], [dir])) == Sel([], [], [], [CollectionName(dir)])
  {
    var dirs := [dir];
    assert dirs[..|dirs| - 1] == [];
    assert CollectionNames([]) == [];
  }

  /** A source with one collection, installed whole on new tables while everything
      works: the install reports success, and the selection read back is empty. */
  method InstallOneCollection(src: SourceRecord, dir: CollectionDir)
    returns (status: Status, back: Sel, ghost used: Sel)
    requires CollectionName(dir) != ""
    ensures used == Sel([], [], [], [CollectionName(dir)])
    ensures status == SyncOk && back == Sel([], [], [], [])
  {
    var ledger := new Table(true);
    var blueprints := new BlueprintTable();
    var walked := WalkedSource([], [], [], [dir]);
    OnlyCollection(dir);
    ghost var asked;
    status, asked, used := RunSourceInstall(ledger, blueprints, src, walked, Everything, ALL_GOOD);
    var sel := SelectionFromClaims(ledger, blueprints, src.id, walked, ALL_WORK);
    back := sel.Value();
    InstallsKeepCollectionsUnclaimed([], src.id, walked, used, ALL_GOOD, true);
    NoCollectionReadBack(back, ledger.rows, blueprints.rows, src.id, walked, ALL_WORK);
    NoElements(back.blueprints);
    NoElements(back.templates);
    NoElements(back.localRoles);
  }
}

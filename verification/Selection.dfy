/** Install selections of a source (ludus-api/source_sync.go): the snapshot of a
    walk, the validation against it, and the expansion of a selection with what
    its blueprints need. */
module Selection {
  import opened StringOrder
  import opened Source

  datatype Sel = Sel(blueprints: seq<string>, templates: seq<string>, localRoles: seq<string>,
                     localCollections: seq<string>)

  class InstallSelection {
    var blueprints: seq<string>
    var templates: seq<string>
    var localRoles: seq<string>
    var localCollections: seq<string>

    function Value(): Sel
      reads this
    {
      Sel(blueprints, templates, localRoles, localCollections)
    }

    constructor (sel: Sel)
      ensures Value() == sel
    {
      blueprints, templates, localRoles, localCollections :=
        sel.blueprints, sel.templates, sel.localRoles, sel.localCollections;
    }
  }

  // ---------------------------------------------------------------- appendUnique

  function AppendUnique(xs: seq<string>, x: string): seq<string>
  {
    if x in xs then xs else xs + [x]
  }

  function AppendAll(xs: seq<string>, more: seq<string>): seq<string>
  {
    if more == [] then xs else AppendUnique(AppendAll(xs, more[..|more| - 1]), more[|more| - 1])
  }

  lemma {:induction false} AppendAllElements(xs: seq<string>, more: seq<string>)
    ensures xs <= AppendAll(xs, more)
    ensures forall x :: x in AppendAll(xs, more) <==> x in xs || x in more
    ensures (forall x :: x in more ==> x in xs) ==> AppendAll(xs, more) == xs
  {
    if more != [] {
      AppendAllElements(xs, more[..|more| - 1]);
      assert more == more[..|more| - 1] + [more[|more| - 1]];
    }
  }

  lemma {:induction false} AppendAllConcat(xs: seq<string>, a: seq<string>, b: seq<string>)
    ensures AppendAll(xs, a + b) == AppendAll(AppendAll(xs, a), b)
  {
    if b == [] {
      assert a + b == a;
    } else {
      AppendAllConcat(xs, a, b[..|b| - 1]);
      assert (a + b)[..|a + b| - 1] == a + b[..|b| - 1];
    }
  }

  method AppendEach(xs: seq<string>, more: seq<string>) returns (out: seq<string>)
    ensures out == AppendAll(xs, more)
  {
    out := xs;
    for i := 0 to |more|
      invariant out == AppendAll(xs, more[..i])
    {
      out := AppendUnique(out, more[i]);
      assert more[..i + 1][..i] == more[..i];
    }
    assert more[..|more|] == more;
  }

  // ---------------------------------------------------------------- The snapshot of a walk

  function Ids(bps: seq<WalkedBlueprint>): seq<string>
  {
    if bps == [] then []
    else Ids(bps[..|bps| - 1]) + (if bps[|bps| - 1].manifest.Some? then [bps[|bps| - 1].manifest.value] else [])
  }

  function RoleNames(dirs: seq<RoleDir>): seq<string>
  {
    seq(|dirs|, i requires 0 <= i < |dirs| => LocalRoleName(dirs[i]))
  }

  function CollectionNames(dirs: seq<CollectionDir>): seq<string>
  {
    if dirs == [] then []
    else CollectionNames(dirs[..|dirs| - 1])
         + (if CollectionName(dirs[|dirs| - 1]) != "" then [CollectionName(dirs[|dirs| - 1])] else [])
  }

  function Snapshot(w: WalkedSource): Sel
  {
    Sel(Ids(w.blueprints), w.templates, RoleNames(w.localRoles), CollectionNames(w.localCollections))
  }

  method SnapshotWalkedAsSelection(walked: WalkedSource) returns (sel: InstallSelection)
    ensures fresh(sel) && sel.Value() == Snapshot(walked)
  {
    hide LocalRoleName, CollectionName;
    sel := new InstallSelection(Sel([], [], [], []));
    for i := 0 to |walked.blueprints|
      invariant sel.Value() == Sel(Ids(walked.blueprints[..i]), [], [], [])
    {
      assert walked.blueprints[..i + 1][..i] == walked.blueprints[..i];
      if walked.blueprints[i].manifest.None? {
        continue;
      }
      sel.blueprints := sel.blueprints + [walked.blueprints[i].manifest.value];
    }
    assert walked.blueprints[..|walked.blueprints|] == walked.blueprints;
    for i := 0 to |walked.templates|
      invariant sel.Value() == Sel(Ids(walked.blueprints), walked.templates[..i], [], [])
    {
      sel.templates := sel.templates + [walked.templates[i]];
    }
    for i := 0 to |walked.localRoles|
      invariant sel.Value() == Sel(Ids(walked.blueprints), walked.templates, RoleNames(walked.localRoles)[..i], [])
    {
      sel.localRoles := sel.localRoles + [LocalRoleName(walked.localRoles[i])];
    }
    for i := 0 to |walked.localCollections|
      invariant sel.Value() == Sel(Ids(walked.blueprints), walked.templates, RoleNames(walked.localRoles),
                                   CollectionNames(walked.localCollections[..i]))
    {
      assert walked.localCollections[..i + 1][..i] == walked.localCollections[..i];
      if CollectionName(walked.localCollections[i]) == "" {
        continue;
      }
      sel.localCollections := sel.localCollections + [CollectionName(walked.localCollections[i])];
    }
    assert walked.localCollections[..|walked.localCollections|] == walked.localCollections;
  }

  lemma {:induction false} CollectionNamesElements(dirs: seq<CollectionDir>)
    ensures Elements(CollectionNames(dirs)) == VendoredCollections(dirs)
  {
    hide CollectionName;
    if dirs != [] {
      var front, d := dirs[..|dirs| - 1], dirs[|dirs| - 1];
      CollectionNamesElements(front);
      assert dirs == front + [d];
      assert VendoredCollections(front + [d])
        == VendoredCollections(front) + (if CollectionName(d) != "" then {CollectionName(d)} else {});
    }
  }

  // ---------------------------------------------------------------- Validation

  ghost predicate Within(sel: Sel, available: Sel)
  {
    && (forall x :: x in sel.blueprints ==> x in available.blueprints)
    && (forall x :: x in sel.templates ==> x in available.templates)
    && (forall x :: x in sel.localRoles ==> x in available.localRoles)
    && (forall x :: x in sel.localCollections ==> x in available.localCollections)
  }

  method CountMissing(wanted: seq<string>, available: seq<string>) returns (missing: seq<string>)
    ensures missing == [] <==> forall x :: x in wanted ==> x in available
    ensures forall x :: x in missing ==> x in wanted && x !in available
  {
    missing := [];
    for i := 0 to |wanted|
      invariant missing == [] <==> forall x :: x in wanted[..i] ==> x in available
      invariant forall x :: x in missing ==> x in wanted && x !in available
    {
      if wanted[i] !in available {
        missing := missing + [wanted[i]];
      }
    }
  }

  method ValidateSelectionAgainstWalk(sel: InstallSelection, walked: WalkedSource) returns (ok: bool)
    ensures ok <==> Within(sel.Value(), Snapshot(walked))
  {
    var available := SnapshotWalkedAsSelection(walked);
    var t := CountMissing(sel.templates, available.templates);
    var b := CountMissing(sel.blueprints, available.blueprints);
    var r := CountMissing(sel.localRoles, available.localRoles);
    var c := CountMissing(sel.localCollections, available.localCollections);
    ok := t + b + r + c == [];
  }

  // ---------------------------------------------------------------- What a blueprint needs

  ghost function Mapped(refs: seq<string>, m: map<string, string>): seq<string>
  {
    if refs == [] then []
    else Mapped(refs[..|refs| - 1], m) + (if refs[|refs| - 1] in m then [m[refs[|refs| - 1]]] else [])
  }

  ghost function Kept(refs: seq<string>, shipped: set<string>): seq<string>
  {
    if refs == [] then []
    else Kept(refs[..|refs| - 1], shipped) + (if refs[|refs| - 1] in shipped then [refs[|refs| - 1]] else [])
  }

  function Names(entries: seq<Requirement>): seq<string>
  {
    seq(|entries|, i requires 0 <= i < |entries| => entries[i].name)
  }

  ghost predicate Selected(bp: WalkedBlueprint, ids: seq<string>)
  {
    bp.manifest.Some? && bp.manifest.value in ids
  }

  ghost function BlueprintDeps(bp: WalkedBlueprint, ids: seq<string>, w: WalkedSource): Sel
  {
    if !Selected(bp, ids) then Sel([], [], [], [])
    else
      var m, doc := RefMap(w.localRoles), LooseDoc(bp.requirements);
      Sel([],
          Kept(ConfigTemplates(bp), Elements(w.templates)),
          Mapped(ConfigRoles(bp), m) + Mapped(Names(doc.roles), m),
          Kept(Names(doc.collections), VendoredCollections(w.localCollections)))
  }

  ghost function AllDeps(bps: seq<WalkedBlueprint>, ids: seq<string>, w: WalkedSource): Sel
  {
    if bps == [] then Sel([], [], [], [])
    else
      var a, b := AllDeps(bps[..|bps| - 1], ids, w), BlueprintDeps(bps[|bps| - 1], ids, w);
      Sel([], a.templates + b.templates, a.localRoles + b.localRoles, a.localCollections + b.localCollections)
  }

  ghost function Widened(sel: Sel, deps: Sel): Sel
  {
    Sel(sel.blueprints, AppendAll(sel.templates, deps.templates),
        AppendAll(sel.localRoles, deps.localRoles), AppendAll(sel.localCollections, deps.localCollections))
  }

  ghost function Expanded(sel: Sel, w: WalkedSource): Sel
  {
    Widened(sel, AllDeps(w.blueprints, sel.blueprints, w))
  }

  lemma {:induction false} NoIdsNoDeps(bps: seq<WalkedBlueprint>, w: WalkedSource)
    ensures AllDeps(bps, [], w) == Sel([], [], [], [])
  {
    if bps != [] {
      NoIdsNoDeps(bps[..|bps| - 1], w);
    }
  }

  // ---------------------------------------------------------------- The source's loops

  /** The names that are not empty, in order. */
  function NamedOnly(names: seq<string>): seq<string>
  {
    if names == [] then []
    else NamedOnly(names[..|names| - 1]) + (if names[|names| - 1] == "" then [] else [names[|names| - 1]])
  }

  method KeepNamed(names: seq<string>) returns (out: seq<string>)
    ensures out == NamedOnly(names)
  {
    out := [];
    for i := 0 to |names|
      invariant out == NamedOnly(names[..i])
    {
      assert names[..i + 1][..i] == names[..i];
      if names[i] != "" {
        out := out + [names[i]];
      }
    }
    assert names[..|names|] == names;
  }

  /** declaredFromRequirements: nothing for an absent or malformed file. */
  method DeclaredFromRequirements(req: Requirements)
    returns (roles: seq<string>, collections: seq<string>, subscriptionRoles: seq<string>)
    ensures var doc := StrictDoc(req);
            roles == NamedOnly(Names(doc.roles)) && collections == NamedOnly(Names(doc.collections))
            && subscriptionRoles == NamedOnly(doc.subscriptionRoles)
  {
    var doc := StrictDoc(req);
    roles := KeepNamed(Names(doc.roles));
    collections := KeepNamed(Names(doc.collections));
    subscriptionRoles := KeepNamed(doc.subscriptionRoles);
  }

  method ParseBlueprintConfigRefs(bp: WalkedBlueprint, localRoleNames: map<string, string>)
    returns (templates: seq<string>, localRoles: seq<string>, galaxyRoles: seq<string>, galaxyCollections: seq<string>)
    requires forall k :: k in localRoleNames ==> localRoleNames[k] != ""
    ensures templates == ConfigTemplates(bp)
    ensures localRoles == AppendAll([], Mapped(ConfigRoles(bp), localRoleNames))
    ensures galaxyRoles == NamedOnly(Names(StrictDoc(bp.requirements).roles))
    ensures galaxyCollections == NamedOnly(Names(StrictDoc(bp.requirements).collections))
  {
    var roleRefs, subscriptionRoles;
    galaxyRoles, galaxyCollections, subscriptionRoles := DeclaredFromRequirements(bp.requirements);
    templates, roleRefs := ConfigRefs(bp);
    localRoles := [];
    for i := 0 to |roleRefs|
      invariant localRoles == AppendAll([], Mapped(roleRefs[..i], localRoleNames))
    {
      assert roleRefs[..i + 1][..i] == roleRefs[..i];
      assert Mapped(roleRefs[..i], localRoleNames) + [] == Mapped(roleRefs[..i], localRoleNames);
      if roleRefs[i] in localRoleNames {
        AppendOne([], Mapped(roleRefs[..i], localRoleNames), localRoleNames[roleRefs[i]]);
        localRoles := AppendUnique(localRoles, localRoleNames[roleRefs[i]]);
      }
    }
    assert roleRefs[..|roleRefs|] == roleRefs;
  }

  lemma AppendOne(xs: seq<string>, more: seq<string>, x: string)
    ensures AppendAll(xs, more + [x]) == AppendUnique(AppendAll(xs, more), x)
  {
    assert (more + [x])[..|more|] == more;
  }

  lemma AppendTwice(xs: seq<string>, more: seq<string>)
    ensures AppendAll(xs, AppendAll([], more)) == AppendAll(xs, more)
    decreases |more|
  {
    if more != [] {
      var front, x := more[..|more| - 1], more[|more| - 1];
      AppendTwice(xs, front);
      AppendAllElements([], front);
      AppendAllElements(xs, front);
      AppendOne(xs, AppendAll([], front), x);
    }
  }

  method ExpandSelectionWithBlueprintDeps(sel: InstallSelection?, walked: WalkedSource)
    modifies sel
    ensures sel != null ==> sel.Value() == Expanded(old(sel.Value()), walked)
  {
    if sel == null {
      return;
    }
    hide AppendAll, Mapped, Kept, RefMap, ConfigTemplates, ConfigRoles, VendoredCollections, AllDeps, Widened,
      WidenedBy;
    ghost var before := sel.Value();
    WidenNothing(before, walked);
    if |sel.blueprints| == 0 {
      NoIdsNoDeps(walked.blueprints, walked);
      return;
    }
    var shippedTemplates := set t | t in walked.templates;
    var localRoleNames := LocalRoleNamesByRef(walked);
    var vendoredCollections := VendoredCollectionFQCNs(walked);
    RefMapKeys(walked.localRoles);
    for i := 0 to |walked.blueprints|
      invariant sel.Value() == Widened(before, AllDeps(walked.blueprints[..i], before.blueprints, walked))
    {
      var bp := walked.blueprints[i];
      WidenStep(before, walked, i);
      if bp.manifest.None? || bp.manifest.value !in sel.blueprints {
        continue;
      }
      AddBlueprintDeps(sel, walked, bp, localRoleNames, shippedTemplates, vendoredCollections);
    }
    assert walked.blueprints[..|walked.blueprints|] == walked.blueprints;
  }

  /** The body of the loop for a selected blueprint. */
  method AddBlueprintDeps(sel: InstallSelection, walked: WalkedSource, bp: WalkedBlueprint,
                          localRoleNames: map<string, string>, shippedTemplates: set<string>,
                          vendoredCollections: set<string>)
    requires localRoleNames == RefMap(walked.localRoles) && shippedTemplates == Elements(walked.templates)
    requires vendoredCollections == VendoredCollections(walked.localCollections)
    modifies sel
    ensures sel.Value() == WidenedBy(old(sel.Value()), bp, walked)
  {
    hide AppendAll, Mapped, Kept, RefMap, ConfigTemplates, ConfigRoles, VendoredCollections, Names, LooseDoc, Elements;
    RefMapKeys(walked.localRoles);
    var templates, roles, _, _ := ParseBlueprintConfigRefs(bp, localRoleNames);
    sel.templates := AddShipped(sel.templates, templates, shippedTemplates);
    sel.localRoles := AppendEach(sel.localRoles, roles);
    var doc := LooseDoc(bp.requirements);
    sel.localRoles := AddVendored(sel.localRoles, doc.roles, localRoleNames);
    sel.localCollections := AddShipped(sel.localCollections, Names(doc.collections), vendoredCollections);
  }

  /** What one selected blueprint appends, as the loop appends it. */
  ghost function WidenedBy(mid: Sel, bp: WalkedBlueprint, w: WalkedSource): Sel
  {
    var m, doc := RefMap(w.localRoles), LooseDoc(bp.requirements);
    Sel(mid.blueprints,
        AppendAll(mid.templates, Kept(ConfigTemplates(bp), Elements(w.templates))),
        AppendAll(AppendAll(mid.localRoles, AppendAll([], Mapped(ConfigRoles(bp), m))), Mapped(Names(doc.roles), m)),
        AppendAll(mid.localCollections, Kept(Names(doc.collections), VendoredCollections(w.localCollections))))
  }

  lemma WidenNothing(before: Sel, w: WalkedSource)
    ensures Widened(before, AllDeps([], before.blueprints, w)) == before
  {
  }

  lemma WidenStep(before: Sel, w: WalkedSource, i: nat)
    requires i < |w.blueprints|
    ensures var mid := Widened(before, AllDeps(w.blueprints[..i], before.blueprints, w));
            Widened(before, AllDeps(w.blueprints[..i + 1], before.blueprints, w))
              == if Selected(w.blueprints[i], before.blueprints) then WidenedBy(mid, w.blueprints[i], w) else mid
  {
    hide AppendAll, Mapped, Kept, RefMap, ConfigTemplates, ConfigRoles, VendoredCollections, WidenedBy;
    assert w.blueprints[..i + 1][..i] == w.blueprints[..i];
    var deps := AllDeps(w.blueprints[..i], before.blueprints, w);
    if Selected(w.blueprints[i], before.blueprints) {
      WidenOne(before, deps, w.blueprints[i], w);
    } else {
      assert deps.templates + [] == deps.templates;
      assert deps.localRoles + [] == deps.localRoles;
      assert deps.localCollections + [] == deps.localCollections;
    }
  }

  lemma WidenOne(before: Sel, deps: Sel, bp: WalkedBlueprint, w: WalkedSource)
    requires Selected(bp, before.blueprints)
    ensures var b := BlueprintDeps(bp, before.blueprints, w);
            var all := Sel([], deps.templates + b.templates, deps.localRoles + b.localRoles,
                           deps.localCollections + b.localCollections);
            Widened(before, all) == WidenedBy(Widened(before, deps), bp, w)
  {
    hide AppendAll, Mapped, Kept, RefMap, ConfigTemplates, ConfigRoles, VendoredCollections;
    var m, doc := RefMap(w.localRoles), LooseDoc(bp.requirements);
    var mid := Widened(before, deps);
    AppendAllConcat(before.templates, deps.templates, Kept(ConfigTemplates(bp), Elements(w.templates)));
    AppendTwice(mid.localRoles, Mapped(ConfigRoles(bp), m));
    AppendAllConcat(mid.localRoles, Mapped(ConfigRoles(bp), m), Mapped(Names(doc.roles), m));
    AppendAllConcat(before.localRoles, deps.localRoles, Mapped(ConfigRoles(bp), m) + Mapped(Names(doc.roles), m));
    AppendAllConcat(before.localCollections, deps.localCollections,
                    Kept(Names(doc.collections), VendoredCollections(w.localCollections)));
  }

  method AddShipped(xs: seq<string>, names: seq<string>, shipped: set<string>) returns (out: seq<string>)
    ensures out == AppendAll(xs, Kept(names, shipped))
  {
    out := xs;
    for i := 0 to |names|
      invariant out == AppendAll(xs, Kept(names[..i], shipped))
    {
      assert names[..i + 1][..i] == names[..i];
      assert Kept(names[..i], shipped) + [] == Kept(names[..i], shipped);
      if names[i] in shipped {
        AppendOne(xs, Kept(names[..i], shipped), names[i]);
        out := AppendUnique(out, names[i]);
      }
    }
    assert names[..|names|] == names;
  }

  method AddVendored(xs: seq<string>, entries: seq<Requirement>, localRoleNames: map<string, string>)
    returns (out: seq<string>)
    ensures out == AppendAll(xs, Mapped(Names(entries), localRoleNames))
  {
    out := xs;
    for i := 0 to |entries|
      invariant out == AppendAll(xs, Mapped(Names(entries)[..i], localRoleNames))
    {
      assert Names(entries)[..i + 1][..i] == Names(entries)[..i];
      assert Mapped(Names(entries)[..i], localRoleNames) + [] == Mapped(Names(entries)[..i], localRoleNames);
      if entries[i].name in localRoleNames {
        AppendOne(xs, Mapped(Names(entries)[..i], localRoleNames), localRoleNames[entries[i].name]);
        out := AppendUnique(out, localRoleNames[entries[i].name]);
      }
    }
    assert Names(entries)[..|entries|] == Names(entries);
  }
}

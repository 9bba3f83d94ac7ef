/** Where each role a blueprint's config references comes from: the check for
    undeclared dependencies (ludus-api/source_roles.go) agrees exactly with the
    stripping of vendored names (ludus-api/blueprint_resolver.go) after the
    selection was expanded (ludus-api/source_sync.go). */
module Routing {
  import opened Text
  import opened StringOrder
  import opened Source
  import opened Selection
  import opened SelectionLaws

  // ---------------------------------------------------------------- filterRequirements

  function Without(entries: seq<Requirement>, vendored: set<string>): seq<Requirement>
  {
    if entries == [] then []
    else Without(entries[..|entries| - 1], vendored)
         + (if entries[|entries| - 1].name in vendored then [] else [entries[|entries| - 1]])
  }

  function Filtered(req: Requirements, roles: set<string>, collections: set<string>): Requirements
  {
    if !req.Parsed? then req
    else Parsed(RequirementsDoc(Without(req.doc.roles, roles), Without(req.doc.collections, collections),
                                req.doc.subscriptionRoles))
  }

  method FilterRequirements(req: Requirements, vendoredRoles: set<string>, vendoredCollections: set<string>)
    returns (out: Requirements)
    ensures out == Filtered(req, vendoredRoles, vendoredCollections)
  {
    if req.Absent? || (|vendoredRoles| == 0 && |vendoredCollections| == 0) {
      if req.Parsed? {
        NothingToStrip(req.doc.roles);
        NothingToStrip(req.doc.collections);
      }
      return req;
    }
    if req.Malformed? {
      return req;
    }
    var filteredRoles, rolesRemoved := StripVendored(req.doc.roles, vendoredRoles);
    var filteredCollections, collectionsRemoved := StripVendored(req.doc.collections, vendoredCollections);
    var removed := rolesRemoved || collectionsRemoved;
    if !removed {
      return req;
    }
    out := Parsed(RequirementsDoc(filteredRoles, filteredCollections, req.doc.subscriptionRoles));
  }

  /** One of the two filtering loops. */
  method StripVendored(entries: seq<Requirement>, vendored: set<string>)
    returns (filtered: seq<Requirement>, removed: bool)
    ensures filtered == Without(entries, vendored)
    ensures !removed ==> filtered == entries
  {
    removed := false;
    filtered := [];
    for i := 0 to |entries|
      invariant filtered == Without(entries[..i], vendored)
      invariant !removed ==> filtered == entries[..i]
    {
      assert entries[..i + 1][..i] == entries[..i];
      if entries[i].name in vendored {
        removed := true;
        continue;
      }
      filtered := filtered + [entries[i]];
    }
    assert entries[..|entries|] == entries;
  }

  lemma {:induction false} NothingToStrip(entries: seq<Requirement>)
    ensures Without(entries, {}) == entries
  {
    if entries != [] {
      NothingToStrip(entries[..|entries| - 1]);
    }
  }

  function Stripped(entries: seq<Requirement>, vendored: set<string>): seq<Requirement>
  {
    if entries == [] then []
    else Stripped(entries[..|entries| - 1], vendored)
         + (if entries[|entries| - 1].name in vendored then [entries[|entries| - 1]] else [])
  }

  /** Stripping splits the declared entries in two: what goes to Galaxy and what
      the source vendors. Every entry is in exactly one half, as often as declared. */
  lemma {:induction false} StrippingPartitions(entries: seq<Requirement>, vendored: set<string>)
    ensures multiset(entries) == multiset(Without(entries, vendored)) + multiset(Stripped(entries, vendored))
    ensures forall r :: r in Without(entries, vendored) <==> r in entries && r.name !in vendored
    ensures forall r :: r in Stripped(entries, vendored) <==> r in entries && r.name in vendored
  {
    if entries != [] {
      StrippingPartitions(entries[..|entries| - 1], vendored);
      assert entries == entries[..|entries| - 1] + [entries[|entries| - 1]];
    }
  }

  /** Nothing stripped is lost: the expanded selection of a selected blueprint
      holds the canonical name of the role each stripped entry names, and every
      collection stripped from it. */
  lemma StrippedRoleSelected(w: WalkedSource, sel: Sel, bp: WalkedBlueprint, r: Requirement)
    requires bp in w.blueprints && Selected(bp, sel.blueprints) && bp.requirements.Parsed?
    requires r in Stripped(bp.requirements.doc.roles, VendoredRoles(w.localRoles))
    ensures exists n :: KnownAs(w.localRoles, r.name, n) && n in Expanded(sel, w).localRoles
  {
    hide Expanded, VendoredRoles, Stripped, Selected, KnownAs, BlueprintNeedsRole, BlueprintNeedsCollection;
    StrippingPartitions(bp.requirements.doc.roles, VendoredRoles(w.localRoles));
    StrippedKnown(w.localRoles, r.name);
    var n :| KnownAs(w.localRoles, r.name, n);
    RequiredRoleNeeded(w, bp, r, n);
    NeedSelected(sel, w, bp, n);
  }

  lemma RequiredRoleNeeded(w: WalkedSource, bp: WalkedBlueprint, r: Requirement, n: string)
    requires bp.requirements.Parsed? && r in bp.requirements.doc.roles && KnownAs(w.localRoles, r.name, n)
    ensures BlueprintNeedsRole(w, bp, n)
  {
    hide KnownAs;
    NameListed(bp.requirements.doc.roles, r);
  }

  lemma StrippedCollectionSelected(w: WalkedSource, sel: Sel, bp: WalkedBlueprint, r: Requirement)
    requires bp in w.blueprints && Selected(bp, sel.blueprints) && bp.requirements.Parsed?
    requires r in Stripped(bp.requirements.doc.collections, VendoredCollections(w.localCollections))
    ensures r.name in Expanded(sel, w).localCollections
  {
    hide Expanded, VendoredCollections, Stripped, Selected;
    StrippingPartitions(bp.requirements.doc.collections, VendoredCollections(w.localCollections));
    ExpandedExact(sel, w);
    NameListed(bp.requirements.doc.collections, r);
    assert BlueprintNeedsCollection(w, bp, r.name);
  }

  lemma NameListed(entries: seq<Requirement>, r: Requirement)
    requires r in entries
    ensures r.name in Names(entries)
  {
    var i :| 0 <= i < |entries| && entries[i] == r;
    assert Names(entries)[i] == r.name;
  }

  // ---------------------------------------------------------------- findUndeclaredDependencies

  datatype Undeclared = MissingRole(blueprint: string, role: string)
                      | MissingCollection(blueprint: string, role: string, parent: string)

  function Parts(ref: string): seq<string>
  {
    Split(ref, '.')
  }

  function Parent(ref: string): string
    requires |Parts(ref)| >= 3
  {
    Join(Parts(ref)[..2], '.')
  }

  /** A reference inside a collection: namespace, collection and the rest, which may have
      more dots; the parent is the first two. */
  lemma ParentIff(ref: string)
    ensures |Parts(ref)| >= 3 <==>
      exists ns, name, rest: string :: '.' !in ns && '.' !in name && ref == ns + "." + name + "." + rest
    ensures forall ns, name, rest: string | '.' !in ns && '.' !in name && ref == ns + "." + name + "." + rest ::
      |Parts(ref)| >= 3 && Parent(ref) == ns + "." + name
  {
    if |Parts(ref)| >= 3 {
      var parts := Parts(ref);
      JoinSplit(ref, '.');
      var rest := Join(parts[2..], '.');
      assert parts[1..][1..] == parts[2..];
      assert ref == parts[0] + ['.'] + (parts[1] + ['.'] + rest);
      assert ref == parts[0] + "." + parts[1] + "." + rest;
    }
    forall ns, name, rest: string | '.' !in ns && '.' !in name && ref == ns + "." + name + "." + rest
      ensures |Parts(ref)| >= 3 && Parent(ref) == ns + "." + name
    {
      SplitPlainThen(ns, '.', name + "." + rest);
      SplitPlainThen(name, '.', rest);
      assert ref == ns + ['.'] + (name + "." + rest);
      assert name + "." + rest == name + ['.'] + rest;
      assert Parts(ref) == [ns, name] + Split(rest, '.');
      assert Parts(ref)[..2] == [ns, name];
      assert [ns, name][1..] == [name];
      assert Join([ns, name], '.') == ns + ['.'] + name;
    }
  }

  /** What the check says about a reference nothing declares: the collection, if it is in one. */
  lemma EntryMeans(bp: WalkedBlueprint, ref: string)
    ensures forall ns, name, rest: string | '.' !in ns && '.' !in name && ref == ns + "." + name + "." + rest ::
      Entry(bp, ref) == MissingCollection(BlueprintID(bp), ref, ns + "." + name)
    ensures (forall ns, name, rest: string :: !('.' !in ns && '.' !in name && ref == ns + "." + name + "." + rest)) ==>
      Entry(bp, ref) == MissingRole(BlueprintID(bp), ref)
  {
    ParentIff(ref);
    hide Parts, Parent;
  }

  ghost predicate Declared(w: WalkedSource, bp: WalkedBlueprint, ref: string)
  {
    var doc := StrictDoc(bp.requirements);
    || GoesBy(w.localRoles, ref)
    || ref in DeclaredNames(doc.roles)
    || ref in DeclaredSubscriptions(doc.subscriptionRoles)
    || (|Parts(ref)| >= 3 && Parent(ref) in DeclaredNames(doc.collections))
  }

  function BlueprintID(bp: WalkedBlueprint): string
  {
    if bp.manifest.Some? then bp.manifest.value else ""
  }

  function Entry(bp: WalkedBlueprint, ref: string): Undeclared
  {
    if |Parts(ref)| >= 3 then MissingCollection(BlueprintID(bp), ref, Parent(ref))
    else MissingRole(BlueprintID(bp), ref)
  }

  method FindUndeclaredDependencies(walked: WalkedSource) returns (out: seq<Undeclared>)
    ensures forall u :: u in out <==>
      exists bp, ref :: bp in walked.blueprints && ref in ConfigRoles(bp) && !Declared(walked, bp, ref)
        && u == Entry(bp, ref)
  {
    var localRoles := LocalRoleNamesByRef(walked);
    out := [];
    for i := 0 to |walked.blueprints|
      invariant forall u :: u in out <==>
        exists j, ref :: 0 <= j < i && ref in ConfigRoles(walked.blueprints[j])
          && !Declared(walked, walked.blueprints[j], ref) && u == Entry(walked.blueprints[j], ref)
    {
      var bp := walked.blueprints[i];
      ghost var before := out;
      var missing := UndeclaredIn(walked, bp, localRoles);
      out := out + missing;
      hide Declared, ConfigRoles;
      forall u
        ensures u in out <==>
          exists j, ref :: 0 <= j < i + 1 && ref in ConfigRoles(walked.blueprints[j])
            && !Declared(walked, walked.blueprints[j], ref) && u == Entry(walked.blueprints[j], ref)
      {
        if u in missing {
          var ref :| ref in ConfigRoles(bp) && !Declared(walked, bp, ref) && u == Entry(bp, ref);
          assert 0 <= i < i + 1 && ref in ConfigRoles(walked.blueprints[i]);
        }
      }
    }
    hide Declared, ConfigRoles;
    forall u
      ensures u in out <==>
        exists bp, ref :: bp in walked.blueprints && ref in ConfigRoles(bp) && !Declared(walked, bp, ref)
          && u == Entry(bp, ref)
    {
      if bp, ref :|
        bp in walked.blueprints && ref in ConfigRoles(bp) && !Declared(walked, bp, ref) && u == Entry(bp, ref) {
        var j :| 0 <= j < |walked.blueprints| && walked.blueprints[j] == bp;
        assert ref in ConfigRoles(walked.blueprints[j]);
      }
    }
  }

  method UndeclaredIn(walked: WalkedSource, bp: WalkedBlueprint, localRoles: map<string, string>)
    returns (out: seq<Undeclared>)
    requires forall k :: k in localRoles <==> GoesBy(walked.localRoles, k)
    ensures forall u :: u in out <==>
      exists ref :: ref in ConfigRoles(bp) && !Declared(walked, bp, ref) && u == Entry(bp, ref)
  {
    hide GoesBy, DeclaredNames, DeclaredSubscriptions, StrictDoc, BlueprintID, Split, Join;
    var declaredRoles, declaredCollections, declaredSubscription := ParseDeclaredRequirements(bp.requirements);
    var _, refs := ConfigRefs(bp);
    out := [];
    for i := 0 to |refs|
      invariant forall u :: u in out <==>
        exists k :: 0 <= k < i && !Declared(walked, bp, refs[k]) && u == Entry(bp, refs[k])
    {
      var ref := refs[i];
      if ref in localRoles || ref in declaredRoles || ref in declaredSubscription {
        continue;
      }
      var parts := Split(ref, '.');
      if |parts| >= 3 {
        var parent := Join(parts[..2], '.');
        if parent in declaredCollections {
          continue;
        }
        out := out + [MissingCollection(BlueprintID(bp), ref, parent)];
        continue;
      }
      out := out + [MissingRole(BlueprintID(bp), ref)];
    }
  }

  // ---------------------------------------------------------------- The cross-file contract

  /** One of the places the install pipeline takes the role from, once the
      selection is expanded and the vendored names are stripped. */
  ghost predicate Routed(w: WalkedSource, expanded: Sel, bp: WalkedBlueprint, ref: string)
  {
    var toGalaxy :=
      StrictDoc(Filtered(bp.requirements, VendoredRoles(w.localRoles), VendoredCollections(w.localCollections)));
    || (exists n :: KnownAs(w.localRoles, ref, n) && n in expanded.localRoles)
    || ref in DeclaredNames(toGalaxy.roles)
    || ref in DeclaredSubscriptions(toGalaxy.subscriptionRoles)
    || (|Parts(ref)| >= 3 && ParentRouted(w, expanded, bp, toGalaxy, Parent(ref)))
  }

  /** The parent collection is fetched from Galaxy, or is required, vendored and selected. */
  ghost predicate ParentRouted(w: WalkedSource, expanded: Sel, bp: WalkedBlueprint, toGalaxy: RequirementsDoc,
                               parent: string)
  {
    || parent in DeclaredNames(toGalaxy.collections)
    || (parent in DeclaredNames(StrictDoc(bp.requirements).collections)
        && parent in VendoredCollections(w.localCollections) && parent in expanded.localCollections)
  }

  lemma DeclaredSplit(entries: seq<Requirement>, vendored: set<string>, name: string)
    ensures name in DeclaredNames(Without(entries, vendored)) <==> name in DeclaredNames(entries) && name !in vendored
  {
    StrippingPartitions(entries, vendored);
    if name in DeclaredNames(entries) && name !in vendored {
      var r :| r in entries && r.name == name;
      assert r in Without(entries, vendored);
    }
  }

  lemma LocalRefSelected(w: WalkedSource, sel: Sel, bp: WalkedBlueprint, ref: string, n: string)
    requires bp in w.blueprints && Selected(bp, sel.blueprints)
    requires ref in ConfigRoles(bp) && KnownAs(w.localRoles, ref, n)
    ensures n in Expanded(sel, w).localRoles
  {
    hide Expanded, KnownAs, BlueprintNeedsCollection;
    assert ref in Elements(ConfigRoles(bp));
    assert BlueprintNeedsRole(w, bp, n);
    NeedSelected(sel, w, bp, n);
  }

  lemma ParentSelected(w: WalkedSource, sel: Sel, bp: WalkedBlueprint, parent: string)
    requires bp in w.blueprints && Selected(bp, sel.blueprints)
    requires parent in DeclaredNames(StrictDoc(bp.requirements).collections)
      && parent in VendoredCollections(w.localCollections)
    ensures parent in Expanded(sel, w).localCollections
  {
    ExpandedExact(sel, w);
    hide Expanded, VendoredCollections;
    var r :| r in StrictDoc(bp.requirements).collections && r.name == parent;
    NameListed(StrictDoc(bp.requirements).collections, r);
    assert BlueprintNeedsCollection(w, bp, parent);
  }

  /** For every role a selected blueprint's config references: the check accepts
      it if and only if the install pipeline has a place to take it from. */
  lemma DeclaredIffRouted(w: WalkedSource, sel: Sel, bp: WalkedBlueprint, ref: string)
    requires bp in w.blueprints && Selected(bp, sel.blueprints) && ref in ConfigRoles(bp)
    ensures Declared(w, bp, ref) <==> Routed(w, Expanded(sel, w), bp, ref)
  {
    hide Expanded, RefMap, VendoredRoles, VendoredCollections, ConfigRoles, DeclaredNames, DeclaredSubscriptions, Split,
      Join, KnownAs, GoesBy;
    var doc := StrictDoc(bp.requirements);
    StrippedKnown(w.localRoles, ref);
    FilteredStrict(bp.requirements, VendoredRoles(w.localRoles), VendoredCollections(w.localCollections));
    DeclaredSplit(doc.roles, VendoredRoles(w.localRoles), ref);
    if n :| KnownAs(w.localRoles, ref, n) {
      LocalRefSelected(w, sel, bp, ref, n);
    }
    if |Parts(ref)| >= 3 {
      DeclaredSplit(doc.collections, VendoredCollections(w.localCollections), Parent(ref));
      if Parent(ref) in DeclaredNames(doc.collections) && Parent(ref) in VendoredCollections(w.localCollections) {
        ParentSelected(w, sel, bp, Parent(ref));
      }
    }
  }

  lemma FilteredStrict(req: Requirements, roles: set<string>, collections: set<string>)
    ensures var doc := StrictDoc(req);
            StrictDoc(Filtered(req, roles, collections))
              == RequirementsDoc(Without(doc.roles, roles), Without(doc.collections, collections),
                                 doc.subscriptionRoles)
  {
  }

  /** The contract across the four files: a selected blueprint the check says
      nothing about has every role reference routed somewhere. */
  lemma QuietCheckMeansRouted(w: WalkedSource, sel: Sel, bp: WalkedBlueprint, reported: seq<Undeclared>)
    requires bp in w.blueprints && Selected(bp, sel.blueprints)
    requires forall u :: u in reported <==>
      exists b, ref :: b in w.blueprints && ref in ConfigRoles(b) && !Declared(w, b, ref) && u == Entry(b, ref)
    requires forall u :: u in reported ==> u.blueprint != BlueprintID(bp)
    ensures forall ref :: ref in ConfigRoles(bp) ==> Routed(w, Expanded(sel, w), bp, ref)
  {
    hide Expanded, ConfigRoles, Declared, Routed;
    forall ref | ref in ConfigRoles(bp) ensures Routed(w, Expanded(sel, w), bp, ref) {
      DeclaredIffRouted(w, sel, bp, ref);
      assert !Declared(w, bp, ref) ==> Entry(bp, ref) in reported;
    }
  }
}

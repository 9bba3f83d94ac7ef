/** Laws of selection expansion. */
module SelectionLaws {
  import opened StringOrder
  import opened Source
  import opened Selection

  // ---------------------------------------------------------------- What a selection needs

  /** x is a shipped template some selected blueprint's config names. */
  ghost predicate NeedsTemplate(w: WalkedSource, ids: seq<string>, x: string)
  {
    exists bp :: bp in w.blueprints && Selected(bp, ids) && BlueprintNeedsTemplate(w, bp, x)
  }

  ghost predicate BlueprintNeedsTemplate(w: WalkedSource, bp: WalkedBlueprint, x: string)
  {
    bp.config.Some? && x in TemplateRefs(bp.config.value) && x in w.templates
  }

  /** x is the canonical name of a vendored role that some selected blueprint
      names, in its config or its requirements, by either of the role's names. */
  ghost predicate NeedsRole(w: WalkedSource, ids: seq<string>, x: string)
  {
    exists bp :: bp in w.blueprints && Selected(bp, ids) && BlueprintNeedsRole(w, bp, x)
  }

  ghost predicate BlueprintNeedsRole(w: WalkedSource, bp: WalkedBlueprint, x: string)
  {
    exists ref :: KnownAs(w.localRoles, ref, x)
      && ((bp.config.Some? && ref in RoleRefs(bp.config.value)) || ref in Names(LooseDoc(bp.requirements).roles))
  }

  ghost predicate NeedsCollection(w: WalkedSource, ids: seq<string>, x: string)
  {
    exists bp :: bp in w.blueprints && Selected(bp, ids) && BlueprintNeedsCollection(w, bp, x)
  }

  ghost predicate BlueprintNeedsCollection(w: WalkedSource, bp: WalkedBlueprint, x: string)
  {
    x in VendoredCollections(w.localCollections) && x in Names(LooseDoc(bp.requirements).collections)
  }

  // ---------------------------------------------------------------- Membership in the dependency lists

  lemma {:induction false} KeptElements(refs: seq<string>, shipped: set<string>)
    ensures forall x :: x in Kept(refs, shipped) <==> x in refs && x in shipped
  {
    if refs != [] {
      KeptElements(refs[..|refs| - 1], shipped);
      assert refs == refs[..|refs| - 1] + [refs[|refs| - 1]];
    }
  }

  lemma {:induction false} MappedElements(refs: seq<string>, m: map<string, string>)
    ensures forall x :: x in Mapped(refs, m) <==> exists r :: r in refs && r in m && m[r] == x
  {
    if refs != [] {
      var front, last := refs[..|refs| - 1], refs[|refs| - 1];
      MappedElements(front, m);
      assert refs == front + [last];
      forall x ensures x in Mapped(refs, m) <==> exists r :: r in refs && r in m && m[r] == x {
        if x in Mapped(refs, m) {
          if x in Mapped(front, m) {
            var r :| r in front && r in m && m[r] == x;
            assert r in refs;
          } else {
            assert last in refs && m[last] == x;
          }
        }
        if r :| r in refs && r in m && m[r] == x {
          assert r in front || r == last;
        }
      }
    }
  }

  lemma BlueprintDepsElements(bp: WalkedBlueprint, ids: seq<string>, w: WalkedSource, x: string)
    ensures var d := BlueprintDeps(bp, ids, w);
            && (x in d.templates <==> Selected(bp, ids) && BlueprintNeedsTemplate(w, bp, x))
            && (x in d.localRoles <==> Selected(bp, ids) && BlueprintNeedsRole(w, bp, x))
            && (x in d.localCollections <==> Selected(bp, ids) && BlueprintNeedsCollection(w, bp, x))
  {
    var m, doc := RefMap(w.localRoles), LooseDoc(bp.requirements);
    RefMapMeans(w.localRoles);
    hide RefMap, VendoredCollections, LooseDoc, KnownAs;
    KeptElements(ConfigTemplates(bp), Elements(w.templates));
    assert x in ConfigTemplates(bp) <==> x in Elements(ConfigTemplates(bp));
    MappedElements(ConfigRoles(bp), m);
    MappedElements(Names(doc.roles), m);
    assert forall r :: r in ConfigRoles(bp) <==> r in Elements(ConfigRoles(bp));
    KeptElements(Names(doc.collections), VendoredCollections(w.localCollections));
  }

  lemma {:induction false} AllDepsElements(bps: seq<WalkedBlueprint>, ids: seq<string>, w: WalkedSource, x: string)
    ensures var d := AllDeps(bps, ids, w);
            && (x in d.templates <==> exists bp :: bp in bps && Selected(bp, ids) && BlueprintNeedsTemplate(w, bp, x))
            && (x in d.localRoles <==> exists bp :: bp in bps && Selected(bp, ids) && BlueprintNeedsRole(w, bp, x))
            && (x in d.localCollections <==>
                  exists bp :: bp in bps && Selected(bp, ids) && BlueprintNeedsCollection(w, bp, x))
  {
    hide BlueprintNeedsTemplate, BlueprintNeedsRole, BlueprintNeedsCollection, BlueprintDeps, Selected;
    if bps != [] {
      var front, last := bps[..|bps| - 1], bps[|bps| - 1];
      AllDepsElements(front, ids, w, x);
      BlueprintDepsElements(last, ids, w, x);
      assert bps == front + [last];
      assert forall bp :: bp in bps <==> bp in front || bp == last;
    }
  }

  // ---------------------------------------------------------------- The laws

  /** Expansion never touches the blueprints, keeps what was selected in its
      order, and adds exactly what the selected blueprints need and the source ships. */
  lemma ExpandedExact(sel: Sel, w: WalkedSource)
    ensures var e := Expanded(sel, w);
            && e.blueprints == sel.blueprints
            && sel.templates <= e.templates && sel.localRoles <= e.localRoles
                 && sel.localCollections <= e.localCollections
            && (forall x :: x in e.templates <==> x in sel.templates || NeedsTemplate(w, sel.blueprints, x))
            && (forall x :: x in e.localRoles <==> x in sel.localRoles || NeedsRole(w, sel.blueprints, x))
            && (forall x :: x in e.localCollections <==>
                  x in sel.localCollections || NeedsCollection(w, sel.blueprints, x))
  {
    hide AllDeps, BlueprintNeedsTemplate, BlueprintNeedsRole, BlueprintNeedsCollection;
    var d := AllDeps(w.blueprints, sel.blueprints, w);
    AppendAllElements(sel.templates, d.templates);
    AppendAllElements(sel.localRoles, d.localRoles);
    AppendAllElements(sel.localCollections, d.localCollections);
    forall x
      ensures x in d.templates <==> NeedsTemplate(w, sel.blueprints, x)
      ensures x in d.localRoles <==> NeedsRole(w, sel.blueprints, x)
      ensures x in d.localCollections <==> NeedsCollection(w, sel.blueprints, x)
    {
      AllDepsElements(w.blueprints, sel.blueprints, w, x);
    }
  }

  /** What one selected blueprint needs is in the expanded selection. */
  lemma NeedSelected(sel: Sel, w: WalkedSource, bp: WalkedBlueprint, x: string)
    requires bp in w.blueprints && Selected(bp, sel.blueprints)
    ensures BlueprintNeedsRole(w, bp, x) ==> x in Expanded(sel, w).localRoles
    ensures BlueprintNeedsCollection(w, bp, x) ==> x in Expanded(sel, w).localCollections
  {
    hide Expanded, BlueprintNeedsTemplate, BlueprintNeedsRole, BlueprintNeedsCollection, Selected;
    ExpandedExact(sel, w);
  }

  /** A selection that already holds everything it needs does not change. */
  lemma ClosedUnchanged(sel: Sel, w: WalkedSource)
    requires forall x :: NeedsTemplate(w, sel.blueprints, x) ==> x in sel.templates
    requires forall x :: NeedsRole(w, sel.blueprints, x) ==> x in sel.localRoles
    requires forall x :: NeedsCollection(w, sel.blueprints, x) ==> x in sel.localCollections
    ensures Expanded(sel, w) == sel
  {
    hide AllDeps, BlueprintNeedsTemplate, BlueprintNeedsRole, BlueprintNeedsCollection;
    var d := AllDeps(w.blueprints, sel.blueprints, w);
    forall x
      ensures x in d.templates ==> NeedsTemplate(w, sel.blueprints, x)
      ensures x in d.localRoles ==> NeedsRole(w, sel.blueprints, x)
      ensures x in d.localCollections ==> NeedsCollection(w, sel.blueprints, x)
    {
      AllDepsElements(w.blueprints, sel.blueprints, w, x);
    }
    AppendAllElements(sel.templates, d.templates);
    AppendAllElements(sel.localRoles, d.localRoles);
    AppendAllElements(sel.localCollections, d.localCollections);
  }

  /** Expanding twice gives the very same lists as expanding once. */
  lemma ExpansionIdempotent(sel: Sel, w: WalkedSource)
    ensures Expanded(Expanded(sel, w), w) == Expanded(sel, w)
  {
    hide NeedsTemplate, NeedsRole, NeedsCollection;
    ExpandedExact(sel, w);
    ClosedUnchanged(Expanded(sel, w), w);
  }

  /** Whatever a blueprint can need, the walk's own snapshot holds. */
  lemma NeedsAreShipped(w: WalkedSource, ids: seq<string>, x: string)
    ensures NeedsTemplate(w, ids, x) ==> x in Snapshot(w).templates
    ensures NeedsRole(w, ids, x) ==> x in Snapshot(w).localRoles
    ensures NeedsCollection(w, ids, x) ==> x in Snapshot(w).localCollections
  {
    hide LocalRoleName;
    if NeedsRole(w, ids, x) {
      var ref :| KnownAs(w.localRoles, ref, x);
      var i :| LastKnownAs(w.localRoles, ref, i) && x == LocalRoleName(w.localRoles[i]);
      assert Snapshot(w).localRoles[i] == x;
    }
    if NeedsCollection(w, ids, x) {
      CollectionNamesElements(w.localCollections);
      assert x in Elements(CollectionNames(w.localCollections));
    }
  }

  /** A selection that passed validation still passes after expansion. */
  lemma ExpansionKeepsValid(sel: Sel, w: WalkedSource)
    requires Within(sel, Snapshot(w))
    ensures Within(Expanded(sel, w), Snapshot(w))
  {
    hide NeedsTemplate, NeedsRole, NeedsCollection, Snapshot;
    ExpandedExact(sel, w);
    forall x
      ensures x in Expanded(sel, w).templates ==> x in Snapshot(w).templates
      ensures x in Expanded(sel, w).localRoles ==> x in Snapshot(w).localRoles
      ensures x in Expanded(sel, w).localCollections ==> x in Snapshot(w).localCollections
    {
      NeedsAreShipped(w, sel.blueprints, x);
    }
  }

  /** Installing everything is already closed: expansion leaves the snapshot alone. */
  lemma SnapshotIsClosed(w: WalkedSource)
    ensures Expanded(Snapshot(w), w) == Snapshot(w)
  {
    hide NeedsTemplate, NeedsRole, NeedsCollection, Snapshot;
    forall x
      ensures NeedsTemplate(w, Snapshot(w).blueprints, x) ==> x in Snapshot(w).templates
      ensures NeedsRole(w, Snapshot(w).blueprints, x) ==> x in Snapshot(w).localRoles
      ensures NeedsCollection(w, Snapshot(w).blueprints, x) ==> x in Snapshot(w).localCollections
    {
      NeedsAreShipped(w, Snapshot(w).blueprints, x);
    }
    ClosedUnchanged(Snapshot(w), w);
  }
}

/** Where the walk and the blueprint table disagree: the walk takes blueprints up
    to three directories deep (ludus-api/source_walker.go), the public id column
    takes the source's id and two more parts. */
module SourceDepth {
  import opened Text
  import opened Options
  import opened Source
  import opened Selection
  import opened BlueprintRows
  import Walker
  import Manifest

  /** The install works on the blueprints a walk found. */
  ghost predicate Carries(w: WalkedSource, bps: seq<Walker.Walked>)
  {
    |w.blueprints| == |bps| && forall i :: 0 <= i < |bps| ==> w.blueprints[i].manifest == Some(bps[i].manifest.id)
  }

  /** No row of another source or user has an id below this source's. */
  ghost predicate Apart(rows: seq<BlueprintRow>, src: SourceRecord)
  {
    forall r, sub | r in rows && r.source != src.id :: r.publicID != PublicID(src, sub)
  }

  /** With a working database and no foreign row in the way, a blueprint is stored
      unless it lies three directories deep. */
  lemma ShallowStored(rows: seq<BlueprintRow>, src: SourceRecord, id: string, f: RowFaults)
    requires IsSourceID(src.sourceID) && Manifest.IsManifestID(id) && Proper(rows, src) && Apart(rows, src)
    requires f.saveOk(id) && f.lookupOk(id)
    ensures Storing(rows, src, id, f) <==> |Split(id, '/')| <= 2
  {
    StoringIff(rows, src, id, f);
    hide PublicID, FitsColumn, Storing;
    if id !in Subs(rows, src.id) {
      forall r | r in rows ensures r.publicID != PublicID(src, id) {
        if r.source == src.id {
          PublicIDsApart(src, r.sub, id);
        }
      }
    }
  }

  /** A source installs whole, on a working database, if and only if none of its
      blueprints lies three directories deep. */
  lemma WholeSourceStoredIff(t: Walker.Tree, isSemver: string -> bool, w: WalkedSource, rows: seq<BlueprintRow>,
                             src: SourceRecord, f: RowFaults)
    requires Walker.WellFormed(t) && Walker.Walk(t, [], 0, isSemver).Found?
    requires Carries(w, Walker.Walk(t, [], 0, isSemver).bps)
    requires IsSourceID(src.sourceID) && Proper(rows, src) && Apart(rows, src)
    requires forall s :: f.saveOk(s) && f.lookupOk(s)
    ensures NoTwins(w.blueprints)
    ensures (forall id :: id in Ids(w.blueprints) ==> Storing(rows, src, id, f))
      <==> forall p :: Walker.IsBlueprint(t, p) ==> |p| <= 2
  {
    hide Walker.Walk, Walker.WellFormed, Walker.IsBlueprint, Storing, Proper, Apart, Manifest.IsManifestID, Split, Join;
    Walker.BlueprintsFound(t, isSemver);
    var bps := Walker.Walk(t, [], 0, isSemver).bps;
    forall i | 0 <= i < |bps|
      ensures bps[i].manifest.id in Ids(w.blueprints) && Walker.IsBlueprint(t, bps[i].path)
      ensures Storing(rows, src, bps[i].manifest.id, f) <==> |bps[i].path| <= 2
    {
      assert bps[i] in bps && Walker.PathsOf(bps)[i] == bps[i].path;
      IdsHold(w.blueprints, bps[i].manifest.id);
      ShallowStored(rows, src, bps[i].manifest.id, f);
    }
    forall id | id in Ids(w.blueprints) ensures exists i :: 0 <= i < |bps| && bps[i].manifest.id == id {
      IdsHold(w.blueprints, id);
    }
    forall p | Walker.IsBlueprint(t, p) ensures exists i :: 0 <= i < |bps| && bps[i].path == p {
      assert p in Walker.PathsOf(bps);
    }
  }

  // ---------------------------------------------------------------- A blueprint three directories deep

  function OneEntry(name: string, below: Walker.Tree): Walker.Tree
  {
    Walker.Dir(true, Walker.NoManifest, [Walker.Entry(name, below)])
  }

  function Blueprint(meta: Manifest.Meta): Walker.Tree
  {
    Walker.Dir(true, Walker.Raw(Manifest.ManifestOf(meta), true, true), [])
  }

  function DeepTree(meta: Manifest.Meta, path: seq<string>): Walker.Tree
    requires |path| == 3
  {
    OneEntry(path[0], OneEntry(path[1], OneEntry(path[2], Blueprint(meta))))
  }

  /** Listing a directory with one entry. */
  lemma WalkOneEntry(name: string, below: Walker.Tree, path: seq<string>, depth: nat, isSemver: string -> bool)
    requires depth <= Walker.MAX_DEPTH
    ensures Walker.Walk(OneEntry(name, below), path, depth, isSemver)
         == Walker.WalkEntry(Walker.Entry(name, below), path, depth, isSemver)
  {
    var entries := [Walker.Entry(name, below)];
    hide Walker.WalkEntry;
    Walker.WalkNext(entries, path, depth, isSemver, 0);
    assert Walker.WalkFirst(entries, path, depth, isSemver, 0) == Walker.Found([]);
    var e := Walker.WalkEntry(entries[0], path, depth, isSemver);
    assert e.Found? ==> [] + e.bps == e.bps;
  }

  lemma NotDotted(name: string)
    requires Manifest.IsIDPart(name)
    ensures !Walker.Dotted(name)
  {
    assert Manifest.IsIDChar(name[0]);
  }

  lemma ReadsBlueprint(meta: Manifest.Meta, isSemver: string -> bool)
    requires Manifest.MetaOk(meta, isSemver)
    ensures Walker.WalkBlueprint(Walker.Raw(Manifest.ManifestOf(meta), true, true), isSemver)
      == Some(Manifest.ManifestOf(meta))
  {
    Manifest.ExportedManifestIff(meta, isSemver);
    hide Manifest.MetaOk, Manifest.ParseBlueprintManifest, Manifest.ManifestOf;
  }

  lemma EnterDirectory(name: string, inner: string, below: Walker.Tree, path: seq<string>, depth: nat,
                       isSemver: string -> bool)
    requires depth < Walker.MAX_DEPTH && Manifest.IsIDPart(name)
    ensures Walker.Walk(OneEntry(name, OneEntry(inner, below)), path, depth, isSemver)
         == Walker.Walk(OneEntry(inner, below), path + [name], depth + 1, isSemver)
  {
    WalkOneEntry(name, OneEntry(inner, below), path, depth, isSemver);
    NotDotted(name);
    hide Walker.Walk, Walker.Dotted;
  }

  lemma FindBlueprint(name: string, meta: Manifest.Meta, path: seq<string>, depth: nat, isSemver: string -> bool)
    requires depth <= Walker.MAX_DEPTH && Manifest.IsIDPart(name)
    requires Manifest.MetaOk(meta, isSemver) && meta.id == Join(path + [name], '/')
    ensures Walker.Walk(OneEntry(name, Blueprint(meta)), path, depth, isSemver)
         == Walker.Found([Walker.Walked(path + [name], Manifest.ManifestOf(meta))])
  {
    hide Walker.Walk, Walker.Dotted, Walker.WalkBlueprint, Manifest.MetaOk, Manifest.IsIDPart, Join;
    WalkOneEntry(name, Blueprint(meta), path, depth, isSemver);
    ReadsBlueprint(meta, isSemver);
    NotDotted(name);
  }

  /** Every blueprint whose id has three parts and whose metadata passes is found
      where its id says, and can then never be stored. */
  lemma DeepFoundNeverStored(meta: Manifest.Meta, isSemver: string -> bool, rows: seq<BlueprintRow>, src: SourceRecord,
                             f: RowFaults)
    requires Manifest.MetaOk(meta, isSemver) && |Split(meta.id, '/')| == 3
    requires IsSourceID(src.sourceID) && Proper(rows, src)
    ensures Walker.Walk(DeepTree(meta, Split(meta.id, '/')), [], 0, isSemver)
         == Walker.Found([Walker.Walked(Split(meta.id, '/'), Manifest.ManifestOf(meta))])
    ensures !Storing(rows, src, meta.id, f)
  {
    StoringIff(rows, src, meta.id, f);
    JoinSplit(meta.id, '/');
    var p := Split(meta.id, '/');
    assert Manifest.IsIDPart(p[0]) && Manifest.IsIDPart(p[1]) && Manifest.IsIDPart(p[2]);
    hide Walker.Walk, Storing, Split, Join, Manifest.ManifestOf, Manifest.MetaOk, Manifest.IsIDPart;
    assert [p[0], p[1]] + [p[2]] == p && [p[0]] + [p[1]] == [p[0], p[1]] && [] + [p[0]] == [p[0]];
    EnterDirectory(p[0], p[1], OneEntry(p[2], Blueprint(meta)), [], 0, isSemver);
    EnterDirectory(p[1], p[2], Blueprint(meta), [p[0]], 1, isSemver);
    FindBlueprint(p[2], meta, [p[0], p[1]], 2, isSemver);
  }
}

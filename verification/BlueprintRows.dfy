/** The blueprint rows of a source: upsertSourceBlueprints (ludus-api/source_sync.go)
    over a table with unique indexes on the public id and on (source, sub), whose
    public id column carries a pattern. */
module BlueprintRows {
  import opened StringOrder
  import opened Source
  import opened Selection
  import opened Text
  import opened Options
  import Manifest

  datatype SourceRecord = SourceRecord(id: string, sourceID: string, owner: string)

  datatype BlueprintRow = BlueprintRow(
    source: string, sub: string, publicID: string, owner: string,
    sharedUsers: seq<string>, sharedGroups: seq<string>, content: WalkedBlueprint)

  ghost function Subs(rows: seq<BlueprintRow>, source: string): set<string>
  {
    set r | r in rows && r.source == source :: r.sub
  }

  // ---------------------------------------------------------------- upsertSourceBlueprints

  function PublicID(src: SourceRecord, sub: string): string
  {
    src.sourceID + "/" + sub
  }

  /** The pattern of the blueprintID column is that of a manifest's id: at most three parts. */
  predicate FitsColumn(publicID: string)
  {
    Manifest.IsManifestID(publicID)
  }

  /** The first row of a source's blueprint. */
  ghost predicate RowAt(rows: seq<BlueprintRow>, source: string, sub: string, at: int)
  {
    && 0 <= at < |rows| && rows[at].source == source && rows[at].sub == sub
    && forall i :: 0 <= i < at ==> !(rows[i].source == source && rows[i].sub == sub)
  }

  /** The database and the column checks let the row of this blueprint be refreshed or created. */
  ghost predicate Storing(rows: seq<BlueprintRow>, src: SourceRecord, id: string, f: RowFaults)
  {
    && f.saveOk(id)
    && (|| (f.lookupOk(id) && exists at :: RowAt(rows, src.id, id, at) && FitsColumn(rows[at].publicID))
        || (&& id !in Subs(rows, src.id) && FitsColumn(PublicID(src, id))
            && forall r :: r in rows ==> r.publicID != PublicID(src, id)))
  }

  /** No blueprint of the walk has the id of another. */
  ghost predicate NoTwins(bps: seq<WalkedBlueprint>)
  {
    forall i, j :: 0 <= i < j < |bps| && bps[i].manifest.Some? ==> bps[i].manifest != bps[j].manifest
  }

  /** A row keeps its identity, owner and sharing; only its content is refreshed. */
  ghost predicate Refreshed(before: BlueprintRow, after: BlueprintRow)
  {
    after == before.(content := after.content)
  }

  /** What the database does while blueprint rows are stored, blueprint by blueprint. */
  datatype RowFaults = RowFaults(collectionFound: bool, lookupOk: string -> bool, conflictOk: string -> bool,
                                 saveOk: string -> bool, listOk: bool, deleteOk: string -> bool)

  class BlueprintTable {
    var rows: seq<BlueprintRow>

    constructor ()
      ensures rows == []
    {
      rows := [];
    }

    method FindSub(source: string, sub: string) returns (at: int)
      ensures 0 <= at ==> RowAt(rows, source, sub, at)
      ensures at < 0 ==> sub !in Subs(rows, source)
    {
      at := 0;
      while at < |rows|
        invariant 0 <= at <= |rows|
        invariant forall i :: 0 <= i < at ==> !(rows[i].source == source && rows[i].sub == sub)
      {
        if rows[at].source == source && rows[at].sub == sub {
          return;
        }
        at := at + 1;
      }
      at := -1;
    }

    method UsesPublicID(id: string) returns (used: bool)
      ensures used <==> exists r :: r in rows && r.publicID == id
    {
      used := false;
      for i := 0 to |rows|
        invariant used <==> exists r :: r in rows[..i] && r.publicID == id
      {
        assert rows[..i + 1] == rows[..i] + [rows[i]];
        if rows[i].publicID == id {
          assert rows[i] in rows[..i + 1];
          used := true;
        }
      }
      assert rows[..|rows|] == rows;
    }

    /** One blueprint of the first loop: refresh its row or create it. A lookup that
        fails reads as "no row"; the unique indexes on the public id and on
        (source, sub) then reject the second row. A save checks the public id
        against the column's pattern. */
    method UpsertOne(src: SourceRecord, id: string, bp: WalkedBlueprint, f: RowFaults) returns (ok: bool)
      modifies this
      ensures ok <==> Storing(old(rows), src, id, f)
      ensures if ok then Upserted(old(rows), rows, src, id, bp) else rows == old(rows)
    {
      hide Subs, PublicID, FitsColumn, Storing;
      ghost var was := rows;
      var row := FindSub(src.id, id);
      var used := UsesPublicID(PublicID(src, id));
      var at := if f.lookupOk(id) then row else -1;
      var fits := FitsColumn(if at < 0 then PublicID(src, id) else rows[at].publicID);
      StoringAt(rows, src, id, f, row);
      if at < 0 && used && f.conflictOk(id) {
        return false;
      }
      if !f.saveOk(id) || !fits || (at < 0 && (used || 0 <= row)) {
        return false;
      }
      if at < 0 {
        rows := rows + [BlueprintRow(src.id, id, PublicID(src, id), src.owner, [], [], bp)];
        assert UpsertedAt(was, rows, src, id, bp, -1);
      } else {
        rows := rows[at := rows[at].(content := bp)];
        assert UpsertedAt(was, rows, src, id, bp, at);
      }
      ok := true;
    }

    /** The first loop: the row of every selected blueprint. */
    method UpsertSelected(src: SourceRecord, walked: WalkedSource, selected: seq<string>, f: RowFaults)
      returns (ok: bool)
      modifies this
      ensures Grown(old(rows), rows, src)
      ensures ok ==>
        Subs(rows, src.id) == Subs(old(rows), src.id) + (Elements(selected) * Elements(Ids(walked.blueprints)))
      ensures ok ==>
        forall id | id in Elements(selected) * Elements(Ids(walked.blueprints)) :: Storing(old(rows), src, id, f)
      ensures NoTwins(walked.blueprints) && !ok ==>
        exists id :: id in Elements(selected) * Elements(Ids(walked.blueprints)) && !Storing(old(rows), src, id, f)
      ensures Proper(old(rows), src) ==> Proper(rows, src)
      ensures OnlyWalked(old(rows), rows, src.id, walked.blueprints, selected)
      ensures OthersKept(old(rows), rows, src.id, walked.blueprints, selected)
      ensures ok && NoTwins(walked.blueprints) ==> Fresh(rows, src.id, walked.blueprints, selected)
    {
      ghost var before := rows;
      ghost var added: set<string> := {};
      hide Subs, Grown, Elements, PublicID, Storing, NoTwins, Proper, Upserted, OnlyWalked, OthersKept, Fresh;
      ReflexiveGrown(before, src);
      NothingStored(before, src.id, walked.blueprints, selected);
      assert walked.blueprints[..0] == [];
      assert Elements(Ids([])) == {} by { NoIds(); }
      for i := 0 to |walked.blueprints|
        invariant added == Elements(selected) * Elements(Ids(walked.blueprints[..i]))
        invariant Grown(before, rows, src)
        invariant Subs(rows, src.id) == Subs(before, src.id) + added
        invariant forall j :: |before| <= j < |rows| ==> rows[j].sub in added
        invariant forall id :: id in added ==> Storing(before, src, id, f)
        invariant Proper(before, src) ==> Proper(rows, src)
        invariant OnlyWalked(before, rows, src.id, walked.blueprints, selected)
        invariant OthersKept(before, rows, src.id, walked.blueprints, selected)
        invariant NoTwins(walked.blueprints) ==> Fresh(rows, src.id, walked.blueprints[..i], selected)
      {
        FreshSkips(rows, src.id, walked.blueprints, selected, i);
        var bp := walked.blueprints[i];
        assert walked.blueprints[..i + 1] == walked.blueprints[..i] + [bp];
        IdsSnoc(walked.blueprints[..i], bp, walked.blueprints[..i + 1]);
        if bp.manifest.None? {
          continue;
        }
        var id := bp.manifest.value;
        assert id in selected <==> id in Elements(selected) by { InElements(selected, id); }
        if id !in selected {
          continue;
        }
        ghost var was := rows;
        StoringUnchanged(before, was, src, id, f, added);
        NotYetAdded(walked.blueprints, i, selected, added);
        var stored := UpsertOne(src, id, bp, f);
        if !stored {
          return false;
        }
        UpsertedStep(before, was, rows, src, id, bp, added);
        ContentStep(before, was, rows, src, walked.blueprints, i, selected);
        added := added + {id};
      }
      assert walked.blueprints[..|walked.blueprints|] == walked.blueprints;
      ok := true;
    }

    /** The second loop: drop the rows of blueprints the source no longer ships. */
    method PruneUnshipped(src: SourceRecord, walked: WalkedSource, deleteOk: string -> bool)
      modifies this
      ensures forall r :: r in rows <==>
        r in old(rows) && !(r.source == src.id && r.sub !in Ids(walked.blueprints) && deleteOk(r.sub))
    {
      ghost var before := rows;
      var walkedIDs := set id | id in Ids(walked.blueprints);
      var kept: seq<BlueprintRow> := [];
      for i := 0 to |rows|
        invariant rows == before
        invariant forall r :: r in kept <==>
          r in rows[..i] && !(r.source == src.id && r.sub !in walkedIDs && deleteOk(r.sub))
      {
        assert rows[..i + 1] == rows[..i] + [rows[i]];
        if rows[i].source == src.id && rows[i].sub !in walkedIDs && deleteOk(rows[i].sub) {
          continue;
        }
        kept := kept + [rows[i]];
      }
      assert rows[..|rows|] == rows;
      rows := kept;
    }

    method UpsertSourceBlueprints(src: SourceRecord, walked: WalkedSource, selected: seq<string>, f: RowFaults)
      returns (ok: bool)
      modifies this
      ensures forall r :: r in old(rows) && r.source != src.id ==> r in rows
      ensures forall r :: r in rows && r.source != src.id ==> r in old(rows)
      ensures forall r :: r in rows ==> Descends(old(rows), r, src)
      ensures !f.collectionFound ==> !ok && rows == old(rows)
      ensures ok ==>
        forall id | id in Elements(selected) * Elements(Ids(walked.blueprints)) :: Storing(old(rows), src, id, f)
      ensures NoTwins(walked.blueprints) && f.collectionFound && !ok ==>
        exists id :: id in Elements(selected) * Elements(Ids(walked.blueprints)) && !Storing(old(rows), src, id, f)
      ensures Proper(old(rows), src) ==> Proper(rows, src)
      ensures OnlyWalked(old(rows), rows, src.id, walked.blueprints, selected)
      ensures ok && NoTwins(walked.blueprints) ==> Fresh(rows, src.id, walked.blueprints, selected)
      ensures forall r :: r in old(rows) ==>
        || r in rows
        || (r.source == src.id && r.sub in selected && r.sub in Ids(walked.blueprints))
        || (r.source == src.id && r.sub !in Ids(walked.blueprints) && ok && f.listOk && f.deleteOk(r.sub))
      ensures ok && f.listOk ==>
        forall r :: r in rows && r.source == src.id && f.deleteOk(r.sub) ==> r.sub in Ids(walked.blueprints)
      ensures ok && f.listOk && (forall s :: f.deleteOk(s)) ==>
        Subs(rows, src.id) == (Subs(old(rows), src.id) * Elements(Ids(walked.blueprints)))
                              + (Elements(selected) * Elements(Ids(walked.blueprints)))
    {
      ghost var before := rows;
      if !f.collectionFound {
        ReflexiveGrown(before, src);
        GrownConsequences(before, rows, src);
        NothingStored(before, src.id, walked.blueprints, selected);
        return false;
      }
      ok := UpsertSelected(src, walked, selected, f);
      GrownConsequences(before, rows, src);
      if ok && f.listOk {
        ghost var upserted := rows;
        PruneUnshipped(src, walked, f.deleteOk);
        if NoTwins(walked.blueprints) {
          PrunedFresh(upserted, rows, src.id, walked.blueprints, selected);
        }
        if forall s :: f.deleteOk(s) {
          PrunedSubs(upserted, rows, src.id, Ids(walked.blueprints));
        }
      }
    }
  }

  /** What FindSub's answer says about the two ways of storing. */
  lemma StoringAt(rows: seq<BlueprintRow>, src: SourceRecord, id: string, f: RowFaults, row: int)
    requires 0 <= row ==> RowAt(rows, src.id, id, row)
    requires row < 0 ==> id !in Subs(rows, src.id)
    ensures Storing(rows, src, id, f) <==>
      && f.saveOk(id)
      && if f.lookupOk(id) && 0 <= row then FitsColumn(rows[row].publicID)
         else row < 0 && FitsColumn(PublicID(src, id)) && forall r :: r in rows ==> r.publicID != PublicID(src, id)
  {
    hide FitsColumn, PublicID;
    forall at: int ensures RowAt(rows, src.id, id, at) ==> rows[at] in rows {
    }
  }

  lemma PublicIDsApart(src: SourceRecord, a: string, b: string)
    requires a != b
    ensures PublicID(src, a) != PublicID(src, b)
  {
    var n := |src.sourceID| + 1;
    assert PublicID(src, a)[n..] == a && PublicID(src, b)[n..] == b;
  }

  /** The rows of other blueprints do not matter to this one. */
  lemma StoringUnchanged(before: seq<BlueprintRow>, rows: seq<BlueprintRow>, src: SourceRecord, id: string,
                         f: RowFaults, added: set<string>)
    requires Grown(before, rows, src) && forall j :: |before| <= j < |rows| ==> rows[j].sub in added
    ensures id !in added ==> (Storing(rows, src, id, f) <==> Storing(before, src, id, f))
  {
    hide FitsColumn, PublicID, Storing, Subs;
    if id !in added {
      forall j | |before| <= j < |rows| ensures rows[j].publicID != PublicID(src, id) {
        PublicIDsApart(src, rows[j].sub, id);
      }
      SameSubs(before, rows, src, id);
      SamePublicIDs(before, rows, src, id);
      var row := FirstRow(before, src.id, id);
      if 0 <= row {
        assert RowAt(rows, src.id, id, row);
        assert before[row].publicID == rows[row].publicID;
      }
      StoringAt(before, src, id, f, row);
      StoringAt(rows, src, id, f, row);
    }
  }

  lemma SameSubs(before: seq<BlueprintRow>, rows: seq<BlueprintRow>, src: SourceRecord, id: string)
    requires Grown(before, rows, src) && forall j :: |before| <= j < |rows| ==> rows[j].sub != id
    ensures id in Subs(rows, src.id) <==> id in Subs(before, src.id)
  {
    hide PublicID;
    if id in Subs(rows, src.id) {
      var i :| 0 <= i < |rows| && rows[i].source == src.id && rows[i].sub == id;
      assert before[i] in before;
    }
    if id in Subs(before, src.id) {
      var i :| 0 <= i < |before| && before[i].source == src.id && before[i].sub == id;
      assert rows[i] in rows;
    }
  }

  lemma SamePublicIDs(before: seq<BlueprintRow>, rows: seq<BlueprintRow>, src: SourceRecord, id: string)
    requires Grown(before, rows, src) && forall j :: |before| <= j < |rows| ==> rows[j].publicID != PublicID(src, id)
    ensures (forall r :: r in rows ==> r.publicID != PublicID(src, id)) <==>
      (forall r :: r in before ==> r.publicID != PublicID(src, id))
  {
    hide PublicID;
    forall i | 0 <= i < |before|
      ensures before[i] in before && rows[i] in rows && rows[i].publicID == before[i].publicID
    {
    }
  }

  lemma FirstRow(rows: seq<BlueprintRow>, source: string, sub: string) returns (at: int)
    ensures 0 <= at ==> RowAt(rows, source, sub, at)
    ensures at < 0 ==> sub !in Subs(rows, source)
  {
    at := 0;
    while at < |rows| && !(rows[at].source == source && rows[at].sub == sub)
      invariant 0 <= at <= |rows|
      invariant forall i :: 0 <= i < at ==> !(rows[i].source == source && rows[i].sub == sub)
    {
      at := at + 1;
    }
    if at == |rows| {
      at := -1;
    }
  }

  lemma {:induction false} IdsHold(bps: seq<WalkedBlueprint>, x: string)
    ensures x in Ids(bps) <==> exists j :: 0 <= j < |bps| && bps[j].manifest.Some? && bps[j].manifest.value == x
  {
    if bps != [] {
      var front := bps[..|bps| - 1];
      IdsHold(front, x);
      assert forall j :: 0 <= j < |front| ==> front[j] == bps[j];
    }
  }

  lemma NotYetAdded(bps: seq<WalkedBlueprint>, i: nat, selected: seq<string>, added: set<string>)
    requires i < |bps| && bps[i].manifest.Some?
    requires added == Elements(selected) * Elements(Ids(bps[..i]))
    ensures bps[i].manifest.value in Elements(Ids(bps))
    ensures NoTwins(bps) ==> bps[i].manifest.value !in added
  {
    IdsHold(bps, bps[i].manifest.value);
    IdsHold(bps[..i], bps[i].manifest.value);
  }

  lemma PrunedSubs(upserted: seq<BlueprintRow>, rows: seq<BlueprintRow>, source: string, walkedIDs: seq<string>)
    requires forall r :: r in rows <==> r in upserted && !(r.source == source && r.sub !in walkedIDs)
    ensures Subs(rows, source) == Subs(upserted, source) * Elements(walkedIDs)
  {
  }

  lemma NoIds()
    ensures Elements(Ids([])) == {}
  {
  }

  lemma InElements(xs: seq<string>, x: string)
    ensures x in Elements(xs) <==> x in xs
  {
  }

  lemma ReflexiveGrown(rows: seq<BlueprintRow>, src: SourceRecord)
    ensures Grown(rows, rows, src)
  {
  }

  /** A row after the upsert is an old row with fresh content, or a new private
      row of this source under a public id nobody used. */
  ghost predicate Descends(before: seq<BlueprintRow>, r: BlueprintRow, src: SourceRecord)
  {
    || (exists q :: q in before && Refreshed(q, r))
    || (r == BlueprintRow(src.id, r.sub, PublicID(src, r.sub), src.owner, [], [], r.content)
        && forall q :: q in before ==> q.publicID != r.publicID)
  }

  /** Every row passes the column check, and this source's rows carry its id. */
  ghost predicate Proper(rows: seq<BlueprintRow>, src: SourceRecord)
  {
    forall r :: r in rows ==> FitsColumn(r.publicID) && (r.source == src.id ==> r.publicID == PublicID(src, r.sub))
  }

  /** During the upsert rows only get refreshed in place or appended. */
  ghost predicate Grown(before: seq<BlueprintRow>, rows: seq<BlueprintRow>, src: SourceRecord)
  {
    && |before| <= |rows|
    && (forall i :: 0 <= i < |before| ==>
          Refreshed(before[i], rows[i]) && (before[i].source != src.id ==> rows[i] == before[i]))
    && (forall i :: |before| <= i < |rows| ==>
          rows[i] == BlueprintRow(src.id, rows[i].sub, PublicID(src, rows[i].sub), src.owner, [], [], rows[i].content)
          && forall q :: q in before ==> q.publicID != rows[i].publicID)
  }

  lemma GrownConsequences(before: seq<BlueprintRow>, rows: seq<BlueprintRow>, src: SourceRecord)
    requires Grown(before, rows, src)
    ensures forall r :: r in before && r.source != src.id ==> r in rows
    ensures forall r :: r in rows && r.source != src.id ==> r in before
    ensures forall r :: r in rows ==> Descends(before, r, src)
  {
    forall r | r in rows
      ensures r.source != src.id ==> r in before
      ensures Descends(before, r, src)
    {
      var i :| 0 <= i < |rows| && rows[i] == r;
      if i < |before| {
        assert before[i] in before;
      }
    }
    forall r | r in before && r.source != src.id ensures r in rows {
      var i :| 0 <= i < |before| && before[i] == r;
      assert rows[i] == r;
    }
  }

  /** A blueprint's row was refreshed where it stood, or appended under an unused public id (`at` < 0). */
  ghost predicate UpsertedAt(was: seq<BlueprintRow>, rows: seq<BlueprintRow>, src: SourceRecord, id: string,
                             bp: WalkedBlueprint, at: int)
  {
    if at < 0 then
      && rows == was + [BlueprintRow(src.id, id, PublicID(src, id), src.owner, [], [], bp)]
      && FitsColumn(PublicID(src, id)) && forall r :: r in was ==> r.publicID != PublicID(src, id)
    else at < |was| && was[at].source == src.id && was[at].sub == id && rows == was[at := was[at].(content := bp)]
  }

  ghost predicate Upserted(was: seq<BlueprintRow>, rows: seq<BlueprintRow>, src: SourceRecord, id: string,
                           bp: WalkedBlueprint)
  {
    exists at :: UpsertedAt(was, rows, src, id, bp, at)
  }

  lemma UpsertedStep(before: seq<BlueprintRow>, was: seq<BlueprintRow>, rows: seq<BlueprintRow>, src: SourceRecord,
                     id: string, bp: WalkedBlueprint, added: set<string>)
    requires Upserted(was, rows, src, id, bp)
    requires Grown(before, was, src) && forall j :: |before| <= j < |was| ==> was[j].sub in added
    ensures Grown(before, rows, src) && forall j :: |before| <= j < |rows| ==> rows[j].sub in added + {id}
    ensures Subs(rows, src.id) == Subs(was, src.id) + {id}
    ensures Proper(was, src) ==> Proper(rows, src)
  {
    hide Subs, Proper, FitsColumn, PublicID;
    var at :| UpsertedAt(was, rows, src, id, bp, at);
    SubsStep(was, rows, src, id, bp, at);
    ProperStep(was, rows, src, id, bp, at);
    forall q | q in before ensures exists r :: r in was && r.publicID == q.publicID {
      var i :| 0 <= i < |before| && before[i] == q;
      assert was[i] in was;
    }
  }

  lemma ProperStep(was: seq<BlueprintRow>, rows: seq<BlueprintRow>, src: SourceRecord, id: string, bp: WalkedBlueprint,
                   at: int)
    requires UpsertedAt(was, rows, src, id, bp, at)
    ensures Proper(was, src) ==> Proper(rows, src)
  {
    hide FitsColumn, PublicID;
    if 0 <= at {
      assert was[at] in was;
    }
  }

  lemma SubsStep(was: seq<BlueprintRow>, rows: seq<BlueprintRow>, src: SourceRecord, id: string, bp: WalkedBlueprint,
                 at: int)
    requires UpsertedAt(was, rows, src, id, bp, at)
    ensures Subs(rows, src.id) == Subs(was, src.id) + {id}
  {
    hide FitsColumn, PublicID;
    if at < 0 {
      assert rows[|was|] in rows;
    } else {
      assert was[at] in was && rows[at] in rows;
      forall s | s in Subs(was, src.id) ensures s in Subs(rows, src.id) {
        var i :| 0 <= i < |was| && was[i].source == src.id && was[i].sub == s;
        assert rows[i] in rows;
      }
    }
  }

  // ---------------------------------------------------------------- The content of the rows

  /** Every selected blueprint of the walk has a row with its own content. */
  ghost predicate Fresh(rows: seq<BlueprintRow>, source: string, bps: seq<WalkedBlueprint>, selected: seq<string>)
  {
    forall bp :: bp in bps && Selected(bp, selected) ==>
      exists r :: r in rows && r.source == source && r.sub == bp.manifest.value && r.content == bp
  }

  /** A row that was not there before belongs to a selected blueprint of the walk and has its content. */
  ghost predicate OnlyWalked(before: seq<BlueprintRow>, rows: seq<BlueprintRow>, source: string,
                             bps: seq<WalkedBlueprint>, selected: seq<string>)
  {
    forall r :: r in rows ==>
      r in before || (r.source == source && r.sub in selected && r.content in bps && r.content.manifest == Some(r.sub))
  }

  /** The rows of other sources, and of blueprints not selected, stay as they are. */
  ghost predicate OthersKept(before: seq<BlueprintRow>, rows: seq<BlueprintRow>, source: string,
                             bps: seq<WalkedBlueprint>, selected: seq<string>)
  {
    forall r :: r in before ==> r in rows || (r.source == source && r.sub in selected && r.sub in Ids(bps))
  }

  lemma NothingStored(rows: seq<BlueprintRow>, source: string, bps: seq<WalkedBlueprint>, selected: seq<string>)
    ensures OnlyWalked(rows, rows, source, bps, selected) && OthersKept(rows, rows, source, bps, selected)
    ensures Fresh(rows, source, [], selected)
  {
  }

  lemma FreshSkips(rows: seq<BlueprintRow>, source: string, bps: seq<WalkedBlueprint>, selected: seq<string>, i: nat)
    requires i < |bps|
    ensures Fresh(rows, source, bps[..i], selected) && !Selected(bps[i], selected) ==>
      Fresh(rows, source, bps[..i + 1], selected)
  {
    assert bps[..i + 1] == bps[..i] + [bps[i]];
  }

  /** What one stored blueprint does to the rows, row by row. */
  lemma UpsertedRows(was: seq<BlueprintRow>, rows: seq<BlueprintRow>, src: SourceRecord, id: string,
                     bp: WalkedBlueprint)
    requires Upserted(was, rows, src, id, bp)
    ensures exists r :: r in rows && r.source == src.id && r.sub == id && r.content == bp
    ensures forall r :: r in rows ==> r in was || (r.source == src.id && r.sub == id && r.content == bp)
    ensures forall r :: r in was ==> r in rows || (r.source == src.id && r.sub == id)
  {
    hide FitsColumn, PublicID;
    var at :| UpsertedAt(was, rows, src, id, bp, at);
    if at < 0 {
      assert rows[|was|] in rows;
    } else {
      assert rows[at] in rows;
      forall r | r in was ensures r in rows || (r.source == src.id && r.sub == id) {
        var i :| 0 <= i < |was| && was[i] == r;
        assert rows[i] in rows;
      }
    }
  }

  lemma ContentStep(before: seq<BlueprintRow>, was: seq<BlueprintRow>, rows: seq<BlueprintRow>, src: SourceRecord,
                    bps: seq<WalkedBlueprint>, i: nat, selected: seq<string>)
    requires i < |bps| && Selected(bps[i], selected)
    requires Upserted(was, rows, src, bps[i].manifest.value, bps[i])
    requires OnlyWalked(before, was, src.id, bps, selected) && OthersKept(before, was, src.id, bps, selected)
    ensures OnlyWalked(before, rows, src.id, bps, selected) && OthersKept(before, rows, src.id, bps, selected)
    ensures NoTwins(bps) && Fresh(was, src.id, bps[..i], selected) ==> Fresh(rows, src.id, bps[..i + 1], selected)
  {
    var id := bps[i].manifest.value;
    UpsertedRows(was, rows, src, id, bps[i]);
    IdsHold(bps, id);
    hide Upserted, Ids;
    assert bps[i] in bps;
    if NoTwins(bps) && Fresh(was, src.id, bps[..i], selected) {
      forall bp | bp in bps[..i + 1] && Selected(bp, selected)
        ensures exists r :: r in rows && r.source == src.id && r.sub == bp.manifest.value && r.content == bp
      {
        var j :| 0 <= j <= i && bps[j] == bp;
        if j < i {
          assert bps[..i][j] == bp;
          var r :| r in was && r.source == src.id && r.sub == bp.manifest.value && r.content == bp;
          assert r in rows;
        }
      }
    }
  }

  lemma PrunedFresh(upserted: seq<BlueprintRow>, rows: seq<BlueprintRow>, source: string, bps: seq<WalkedBlueprint>,
                    selected: seq<string>)
    requires forall r :: r in upserted && r.sub in Ids(bps) ==> r in rows
    requires Fresh(upserted, source, bps, selected)
    ensures Fresh(rows, source, bps, selected)
  {
    hide Ids;
    forall bp | bp in bps && Selected(bp, selected)
      ensures exists r :: r in rows && r.source == source && r.sub == bp.manifest.value && r.content == bp
    {
      var j :| 0 <= j < |bps| && bps[j] == bp;
      IdsHold(bps, bp.manifest.value);
      var r :| r in upserted && r.source == source && r.sub == bp.manifest.value && r.content == bp;
      assert r in rows;
    }
  }

  lemma IdsSnoc(front: seq<WalkedBlueprint>, bp: WalkedBlueprint, all: seq<WalkedBlueprint>)
    requires all == front + [bp]
    ensures Elements(Ids(all)) == Elements(Ids(front)) + (if bp.manifest.Some? then {bp.manifest.value} else {})
  {
    assert all[..|all| - 1] == front;
  }

  // ---------------------------------------------------------------- How deep a blueprint may lie

  /** What the create route and the sources table ask of a source's id. */
  predicate IsSourceID(id: string)
  {
    Manifest.IsIDPart(id) && Manifest.IsLetter(id[0])
  }

  /** The source's id takes one of the three parts the column allows. */
  lemma PublicIDFitsIff(src: SourceRecord, sub: string)
    requires IsSourceID(src.sourceID) && Manifest.IsManifestID(sub)
    ensures FitsColumn(PublicID(src, sub)) <==> |Split(sub, '/')| <= 2
  {
    var parts := Split(sub, '/');
    assert PublicID(src, sub) == src.sourceID + ['/'] + sub;
    SplitPlainThen(src.sourceID, '/', sub);
    assert forall i :: 0 <= i < |parts| ==> ([src.sourceID] + parts)[i + 1] == parts[i];
  }

  /** A blueprint one or two directories deep is stored whenever the database lets
      it; one three directories deep never is. */
  lemma StoringIff(rows: seq<BlueprintRow>, src: SourceRecord, id: string, f: RowFaults)
    requires Proper(rows, src) && IsSourceID(src.sourceID) && Manifest.IsManifestID(id)
    ensures Storing(rows, src, id, f) <==>
      && |Split(id, '/')| <= 2 && f.saveOk(id)
      && if id in Subs(rows, src.id) then f.lookupOk(id) else forall r :: r in rows ==> r.publicID != PublicID(src, id)
  {
    PublicIDFitsIff(src, id);
    hide FitsColumn, PublicID, Subs, Storing;
    var row := FirstRow(rows, src.id, id);
    StoringAt(rows, src, id, f, row);
    if 0 <= row {
      assert rows[row] in rows;
      RowKnown(rows, src.id, id, row);
    }
  }

  lemma RowKnown(rows: seq<BlueprintRow>, source: string, sub: string, at: int)
    requires RowAt(rows, source, sub, at)
    ensures sub in Subs(rows, source)
  {
    assert rows[at] in rows;
  }
}

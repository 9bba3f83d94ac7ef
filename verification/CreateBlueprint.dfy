/** createBlueprintWithDir (ludus-api/api_blueprint_management.go): a directory
    built under the public id, a database record, and a rename to the record id,
    undone by hand when any step fails. */
module CreateBlueprint {
  import opened Options
  import opened Disk
  import opened Swap

  datatype Record = Record(blueprintID: string, dirPath: string)
  type Records = map<string, Record>

  /** The record id the database would hand out, and the outcome of every step. */
  datatype Steps = Steps(build: Build, newId: string, createOk: bool, renameOk: bool, saveOk: bool,
                         deleteOk: bool, cleanup: Removal)

  datatype Created = Created(fs: FS, records: Records, ok: bool)

  function TempPath(root: string, blueprintID: string): string
  {
    root + "/" + blueprintID
  }

  function Undone(records: Records, s: Steps): Records
  {
    if s.deleteOk then records - {s.newId} else records
  }

  function Create(fs: FS, records: Records, root: string, blueprintID: string, s: Steps): Created
  {
    var temp, final := TempPath(root, blueprintID), root + "/" + s.newId;
    var built := BuildEnd(fs, temp, s.build);
    if !s.build.ok then Created(AfterRemoval(built, temp, s.build.cleanup), records, false)
    else if !s.createOk then Created(AfterRemoval(built, temp, s.cleanup), records, false)
    else
      var made := records[s.newId := Record(blueprintID, "")];
      var moved := if temp == final then Some(built) else Rename(built, temp, final, s.renameOk);
      if moved.None? then Created(AfterRemoval(built, temp, s.cleanup), Undone(made, s), false)
      else if !s.saveOk then Created(AfterRemoval(moved.value, final, s.cleanup), Undone(made, s), false)
      else Created(moved.value, made[s.newId := Record(blueprintID, final)], true)
  }

  class Database {
    var records: Records

    constructor (records: Records)
      ensures this.records == records
    {
      this.records := records;
    }
  }

  method CreateBlueprintWithDir(drive: Drive, db: Database, root: string, blueprintID: string, s: Steps)
    returns (ok: bool)
    requires drive.Valid()
    modifies drive, db
    ensures drive.Valid()
    ensures var c := Create(old(drive.dirs), old(db.records), root, blueprintID, s);
            ok == c.ok && drive.dirs == c.fs && db.records == c.records
  {
    hide Rename, RemovalTrace, AfterRemoval, WriteTrace;
    var temp := TempPath(root, blueprintID);
    drive.Write(temp, s.build.stages + (if s.build.ok then [s.build.tree] else []));
    if !s.build.ok {
      var _ := drive.RemoveAll(temp, s.build.cleanup);
      return false;
    }
    if !s.createOk {
      var _ := drive.RemoveAll(temp, s.cleanup);
      return false;
    }
    db.records := db.records[s.newId := Record(blueprintID, "")];
    var final := root + "/" + s.newId;
    if temp != final {
      var moved := drive.Move(temp, final, s.renameOk);
      if !moved {
        db.records := Undone(db.records, s);
        var _ := drive.RemoveAll(temp, s.cleanup);
        return false;
      }
    }
    if !s.saveOk {
      var _ := drive.RemoveAll(final, s.cleanup);
      db.records := Undone(db.records, s);
      return false;
    }
    db.records := db.records[s.newId := Record(blueprintID, final)];
    ok := true;
  }

  /** The undo steps themselves work, and the record id is new. */
  ghost predicate CanUndo(fs: FS, records: Records, root: string, s: Steps)
  {
    && s.deleteOk && s.cleanup.left.None? && s.build.cleanup.left.None?
    && s.newId !in records && root + "/" + s.newId !in fs
  }

  /** A creation that succeeds has its files and its record in place, and no
      other record or directory changed, except that a directory which already had
      the name it builds under is gone with it. */
  lemma CreatedInPlace(fs: FS, records: Records, root: string, blueprintID: string, s: Steps)
    requires Create(fs, records, root, blueprintID, s).ok
    ensures var c, final := Create(fs, records, root, blueprintID, s), root + "/" + s.newId;
            && final in c.fs && c.fs[final] == s.build.tree
            && (TempPath(root, blueprintID) != final ==> TempPath(root, blueprintID) !in c.fs)
            && s.newId in c.records && c.records[s.newId] == Record(blueprintID, final)
            && (forall q :: q !in {TempPath(root, blueprintID), final} ==>
                  (q in fs <==> q in c.fs) && (q in fs ==> fs[q] == c.fs[q]))
            && (forall id :: id != s.newId ==>
                  (id in records <==> id in c.records) && (id in records ==> records[id] == c.records[id]))
  {
  }

  /** A creation succeeds exactly when its directory is built, its record is made and
      saved, and the directory can be renamed to the record's name: it has that name,
      or the rename works and nothing but an empty directory is in the way. */
  lemma CreateSucceedsIff(fs: FS, records: Records, root: string, blueprintID: string, s: Steps)
    ensures var final := root + "/" + s.newId;
            Create(fs, records, root, blueprintID, s).ok <==>
              && s.build.ok && s.createOk && s.saveOk
              && (root + "/" + blueprintID == final || (s.renameOk && Free(fs, final)))
  {
  }

  lemma {:induction false} LengthBound(used: set<string>) returns (n: nat)
    ensures forall u :: u in used ==> |u| < n
  {
    if used == {} {
      n := 0;
    } else {
      var x :| x in used;
      var m := LengthBound(used - {x});
      n := if |x| < m then m else |x| + 1;
      forall u | u in used ensures |u| < n {
        assert u == x || u in used - {x};
      }
    }
  }

  /** There is always a record id that is new, on disk as in the table. */
  lemma NewId(fs: FS, records: Records, root: string) returns (id: string)
    ensures id !in records && root + "/" + id !in fs
  {
    var n := LengthBound(records.Keys + fs.Keys);
    id := seq(n, i => 'x');
    assert |root + "/" + id| > n;
  }

  /** A creation that fails, whose undo steps work, leaves disk and database as
      they were, whatever failed: if and only if no directory already has the
      name it builds under. */
  lemma FailedCreateLeavesNothingIff(fs: FS, records: Records, root: string, blueprintID: string)
    ensures (forall s | CanUndo(fs, records, root, s) && !Create(fs, records, root, blueprintID, s).ok ::
               var c := Create(fs, records, root, blueprintID, s); c.fs == fs && c.records == records)
       <==> TempPath(root, blueprintID) !in fs
  {
    var temp := TempPath(root, blueprintID);
    if temp in fs {
      var id := NewId(fs, records, root);
      var s := Steps(Build([], map[], true, SMOOTH), id, false, true, true, true, SMOOTH);
      assert CanUndo(fs, records, root, s);
      assert temp !in Create(fs, records, root, blueprintID, s).fs;
    } else {
      forall s | CanUndo(fs, records, root, s) && !Create(fs, records, root, blueprintID, s).ok
        ensures var c := Create(fs, records, root, blueprintID, s); c.fs == fs && c.records == records
      {
        var c := Create(fs, records, root, blueprintID, s);
        assert c.fs == fs;
        assert c.records == records;
      }
    }
  }
}

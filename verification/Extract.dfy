/** The extraction loops of ludus-api/archive_extract.go: what a successful run
    leaves on disk, and how many file bytes any run can write under a cap. */
module Extract {
  import opened Paths
  import opened Archive
  import opened Options

  /** What lies below the destination, by path components. */
  datatype Below = Below(files: map<seq<string>, string>, dirs: set<seq<string>>)

  function Parents(cs: seq<string>): set<seq<string>>
  {
    set k | 1 <= k < |cs| :: cs[..k]
  }

  /** `Special` stands for hard links, devices and pipes. */
  datatype Kind = Regular | Directory | Symlink | Special | Metadata

  predicate Dangerous(k: Kind)
  {
    k.Symlink? || k.Special?
  }

  /** `lead` is what the stream spends before the data (headers, padding),
      `cleanEnd` whether running out before them reads as the end of the archive,
      `readable` how many bytes of data can be read before an error (None: all). */
  datatype Entry = Entry(name: string, kind: Kind, data: string, readable: Option<nat>, lead: nat, cleanEnd: bool)

  datatype Verdict = Success | Refused | Malformed | BrokenRead | TooLarge | DiskError

  /** Where an entry goes: its components below the destination, if anywhere. */
  function Placement(dest: string, root: string, e: Entry): Extracted
  {
    SafeExtractPath(dest, StripPrefixSegment(e.name, root))
  }

  function Keys(root: string, e: Entry): seq<string>
  {
    Comps(StripPrefixSegment(e.name, root))
  }

  predicate Ignored(dest: string, root: string, e: Entry)
  {
    Placement(dest, root, e).Skip? || IsMacOSAppleDouble(StripPrefixSegment(e.name, root))
  }

  /** No file in the way of the directories an entry needs. */
  predicate Clear(b: Below, cs: seq<string>, asDir: bool)
  {
    && (forall k :: 1 <= k < |cs| ==> cs[..k] !in b.files)
    && (if asDir then cs !in b.files else cs !in b.dirs)
  }

  function PlaceOne(b: Below, dest: string, root: string, e: Entry): Below
  {
    var cs := Keys(root, e);
    if Dangerous(e.kind) || e.kind.Metadata? || Ignored(dest, root, e) then b
    else if e.kind.Directory? then Below(b.files, b.dirs + Parents(cs) + {cs})
    else Below(b.files[cs := e.data], b.dirs + Parents(cs))
  }

  function PlaceAll(b: Below, dest: string, root: string, entries: seq<Entry>): Below
  {
    if entries == [] then b
    else PlaceOne(PlaceAll(b, dest, root, entries[..|entries| - 1]), dest, root, entries[|entries| - 1])
  }

  /** The entry writes the file at these components. */
  ghost predicate PutsFile(e: Entry, dest: string, root: string, cs: seq<string>)
  {
    e.kind.Regular? && !Ignored(dest, root, e) && Keys(root, e) == cs
  }

  /** The entry makes the directory at these components: its own, or one above it. */
  ghost predicate PutsDir(e: Entry, dest: string, root: string, cs: seq<string>)
  {
    && (e.kind.Regular? || e.kind.Directory?) && !Ignored(dest, root, e)
    && ((e.kind.Directory? && cs == Keys(root, e)) || (cs != [] && cs < Keys(root, e)))
  }

  /** Entry i is the last one to write the file. */
  ghost predicate LastPut(entries: seq<Entry>, dest: string, root: string, cs: seq<string>, i: int)
  {
    && 0 <= i < |entries| && PutsFile(entries[i], dest, root, cs)
    && forall j :: i < j < |entries| ==> !PutsFile(entries[j], dest, root, cs)
  }

  lemma PlacedByOne(b: Below, dest: string, root: string, e: Entry, cs: seq<string>)
    ensures var after := PlaceOne(b, dest, root, e);
      && (cs in after.files <==> cs in b.files || PutsFile(e, dest, root, cs))
      && (cs in after.files ==> after.files[cs] == if PutsFile(e, dest, root, cs) then e.data else b.files[cs])
      && (cs in after.dirs <==> cs in b.dirs || PutsDir(e, dest, root, cs))
  {
    hide Ignored, Keys;
    var ks := Keys(root, e);
    if cs != [] && cs < ks {
      assert cs == ks[..|cs|];
    }
  }

  /** What the entries put in place: every file with the data of the last entry for it,
      every directory an entry names or needs, and nothing else but what was there. */
  lemma {:induction false} PlacedExact(b: Below, dest: string, root: string, entries: seq<Entry>, cs: seq<string>)
    ensures var after := PlaceAll(b, dest, root, entries);
      && (cs in after.files <==> cs in b.files || exists e :: e in entries && PutsFile(e, dest, root, cs))
      && (forall i :: LastPut(entries, dest, root, cs, i) ==> cs in after.files && after.files[cs] == entries[i].data)
      && (cs in b.files && (forall e :: e in entries ==> !PutsFile(e, dest, root, cs)) ==>
            after.files[cs] == b.files[cs])
      && (cs in after.dirs <==> cs in b.dirs || exists e :: e in entries && PutsDir(e, dest, root, cs))
  {
    hide PutsFile, PutsDir, PlaceOne;
    if entries != [] {
      var front, last := entries[..|entries| - 1], entries[|entries| - 1];
      PlacedExact(b, dest, root, front, cs);
      PlacedByOne(PlaceAll(b, dest, root, front), dest, root, last, cs);
      assert entries == front + [last];
      forall i | LastPut(entries, dest, root, cs, i) && i < |front| ensures LastPut(front, dest, root, cs, i) {
        assert !PutsFile(entries[|front|], dest, root, cs);
        assert forall j :: 0 <= j < |front| ==> front[j] == entries[j];
      }
    }
  }

  class OutDir {
    var below: Below
    var bytes: nat  // file bytes written so far

    constructor ()
      ensures below == Below(map[], {}) && bytes == 0
    {
      below := Below(map[], {});
      bytes := 0;
    }

    method MkdirAll(cs: seq<string>) returns (ok: bool)
      modifies this
      ensures bytes == old(bytes)
      ensures ok <==> Clear(old(below), cs, true)
      ensures below == if ok then Below(old(below).files, old(below).dirs + Parents(cs) + {cs}) else old(below)
    {
      ok := cs !in below.files && forall k :: 1 <= k < |cs| ==> cs[..k] !in below.files;
      if ok {
        below := Below(below.files, below.dirs + Parents(cs) + {cs});
      }
    }

    /** Make the parents, then create or truncate the file and write `data`. */
    method WriteFile(cs: seq<string>, data: string) returns (ok: bool)
      modifies this
      ensures ok <==> Clear(old(below), cs, false)
      ensures below == if ok then Below(old(below).files[cs := data], old(below).dirs + Parents(cs)) else old(below)
      ensures bytes == old(bytes) + (if ok then |data| else 0)
    {
      ok := cs !in below.dirs && forall k :: 1 <= k < |cs| ==> cs[..k] !in below.files;
      if ok {
        below := Below(below.files[cs := data], below.dirs + Parents(cs));
        bytes := bytes + |data|;
      }
    }
  }

  // ---------------------------------------------------------------- 64-bit arithmetic of the cap

  const TWO63: int := 0x8000_0000_0000_0000
  const MAX_INT64: int := TWO63 - 1

  function Wrap64(x: int): int
  {
    (x + TWO63) % (2 * TWO63) - TWO63
  }

  /** What the zip loop allows the next file: MaxBytes - written + 1. */
  function Remaining(maxBytes: int, written: int): int
  {
    Wrap64(maxBytes - written + 1)
  }

  /** The next file always has a budget of at least one byte if and only if the
      cap is below the largest 64-bit integer. */
  lemma RemainingPositiveIff(maxBytes: int)
    requires 0 < maxBytes <= MAX_INT64
    ensures (forall written :: 0 <= written <= maxBytes ==> Remaining(maxBytes, written) >= 1) <==> maxBytes < MAX_INT64
  {
    if maxBytes == MAX_INT64 {
      assert Remaining(maxBytes, 0) < 1;
    } else {
      forall written | 0 <= written <= maxBytes ensures Remaining(maxBytes, written) >= 1 {
      }
    }
  }

  /** io.CopyN(out, rc, n) or, with no limit, io.Copy: bytes copied, and whether reading broke. */
  function Copied(e: Entry, limit: Option<int>): (string, bool)
  {
    var readable := if e.readable.Some? && e.readable.value < |e.data| then e.readable.value else |e.data|;
    var want := if limit.None? then |e.data| else if limit.value < 0 then 0 else limit.value;
    if want <= readable then (e.data[..want], false) else (e.data[..readable], readable < |e.data|)
  }

  /** A copy that neither broke nor reached its limit has the whole entry. */
  lemma CopiedWhole(e: Entry, limit: Option<int>)
    ensures var (data, broken) := Copied(e, limit);
            !broken && (limit.Some? ==> |data| < limit.value) ==> data == e.data
    ensures limit.Some? && limit.value >= 0 ==> |Copied(e, limit).0| <= limit.value
    ensures limit.Some? && limit.value < 0 ==> Copied(e, limit) == ("", false)
    ensures |Copied(e, limit).0| <= |e.data| && (Whole(e) ==> !Copied(e, limit).1)
  {
    assert e.data[..|e.data|] == e.data;
  }

  lemma RemainingIs(maxBytes: int, written: int)
    requires 0 <= written <= maxBytes <= MAX_INT64
    ensures Remaining(maxBytes, written) == if maxBytes - written < MAX_INT64 then maxBytes - written + 1 else -TWO63
  {
  }

  // ---------------------------------------------------------------- Zip

  /** The zip loop writes whatever is no directory as a file: a device or a pipe,
      and a symlink too when it is not refused, with the link's target as content. */
  function AsFile(e: Entry): Entry
  {
    if e.kind.Directory? then e else e.(kind := Regular)
  }

  function AsFiles(entries: seq<Entry>): (r: seq<Entry>)
    ensures |r| == |entries| && forall i :: 0 <= i < |r| ==> r[i] == AsFile(entries[i])
  {
    seq(|entries|, i requires 0 <= i < |entries| => AsFile(entries[i]))
  }

  /** What the zip loop writes of an entry: everything, unless the cap is the largest
      64-bit integer; then the budget wraps below zero and every file comes out empty. */
  function Written(e: Entry, maxBytes: int): Entry
  {
    if maxBytes == MAX_INT64 then AsFile(e).(data := "") else AsFile(e)
  }

  function AllWritten(entries: seq<Entry>, maxBytes: int): (r: seq<Entry>)
    ensures |r| == |entries| && forall i :: 0 <= i < |r| ==> r[i] == Written(entries[i], maxBytes)
  {
    seq(|entries|, i requires 0 <= i < |entries| => Written(entries[i], maxBytes))
  }

  /** What a zip leaves: a file for every entry that is no directory and not ignored, with
      the data of the last one for it, or empty under the largest cap. */
  lemma ZipPlacedExact(b: Below, dest: string, root: string, entries: seq<Entry>, maxBytes: int, cs: seq<string>)
    ensures var after := PlaceAll(b, dest, root, AllWritten(entries, maxBytes));
      && (cs in after.files <==>
            cs in b.files || exists i :: 0 <= i < |entries| && ZipPuts(entries[i], dest, root, cs))
      && (forall i :: LastZipPut(entries, dest, root, cs, i) ==>
            cs in after.files && after.files[cs] == if maxBytes == MAX_INT64 then "" else entries[i].data)
  {
    hide PutsFile, ZipPuts, PlaceAll, Written;
    var all := AllWritten(entries, maxBytes);
    PlacedExact(b, dest, root, all, cs);
    forall i | 0 <= i < |entries|
      ensures PutsFile(all[i], dest, root, cs) <==> ZipPuts(entries[i], dest, root, cs)
      ensures ZipPuts(entries[i], dest, root, cs) ==>
        all[i].data == if maxBytes == MAX_INT64 then "" else entries[i].data
    {
      SamePut(entries[i], maxBytes, dest, root, cs);
    }
    forall i | LastZipPut(entries, dest, root, cs, i) ensures LastPut(all, dest, root, cs, i) {
    }
    if e :| e in all && PutsFile(e, dest, root, cs) {
      var i :| 0 <= i < |all| && all[i] == e;
      assert ZipPuts(entries[i], dest, root, cs);
    }
    if i :| 0 <= i < |entries| && ZipPuts(entries[i], dest, root, cs) {
      assert all[i] in all;
    }
  }

  lemma SamePut(e: Entry, maxBytes: int, dest: string, root: string, cs: seq<string>)
    ensures PutsFile(Written(e, maxBytes), dest, root, cs) <==> ZipPuts(e, dest, root, cs)
    ensures ZipPuts(e, dest, root, cs) ==> Written(e, maxBytes).data == if maxBytes == MAX_INT64 then "" else e.data
  {
    NamedPlace(dest, root, e);
    SamePlace(dest, root, AsFile(e));
    hide Ignored, Keys, Placement;
  }

  /** The zip entry writes the file at these components. */
  ghost predicate ZipPuts(e: Entry, dest: string, root: string, cs: seq<string>)
  {
    !e.kind.Directory? && !Ignored(dest, root, e) && Keys(root, e) == cs
  }

  ghost predicate LastZipPut(entries: seq<Entry>, dest: string, root: string, cs: seq<string>, i: int)
  {
    && 0 <= i < |entries| && ZipPuts(entries[i], dest, root, cs)
    && forall j :: i < j < |entries| ==> !ZipPuts(entries[j], dest, root, cs)
  }

  /** The zip loop can write every archive as it is if and only if the cap is below
      the largest 64-bit integer. */
  lemma WrittenWholeIff(maxBytes: int)
    ensures (forall entries :: AllWritten(entries, maxBytes) == AsFiles(entries)) <==> maxBytes != MAX_INT64
  {
    if maxBytes == MAX_INT64 {
      var entries := [Entry("a", Regular, "x", None, 0, true)];
      assert AllWritten(entries, maxBytes)[0].data != AsFiles(entries)[0].data;
    } else {
      forall entries ensures AllWritten(entries, maxBytes) == AsFiles(entries) {
      }
    }
  }

  /** The data of the entry can be read to its end. */
  predicate Whole(e: Entry)
  {
    e.readable.None? || e.readable.value >= |e.data|
  }

  /** A zip entry that goes where it belongs: no refused symlink, nowhere outside the
      destination, and nothing in its way. */
  ghost predicate ZipFits(b: Below, dest: string, root: string, e: Entry, rejectDangerous: bool)
  {
    && !(rejectDangerous && e.kind.Symlink?)
    && !Placement(dest, root, e).Unsafe? && !Placement(dest, root, e).Escapes?
    && (Ignored(dest, root, e) || Clear(b, Keys(root, e), e.kind.Directory?))
  }

  /** File bytes the entries of a zip hold. */
  function ZipBytes(entries: seq<Entry>): nat
  {
    if entries == [] then 0
    else
      var last := entries[|entries| - 1];
      ZipBytes(entries[..|entries| - 1]) + if last.kind.Directory? then 0 else |last.data|
  }

  lemma {:induction false} ZipBytesGrow(entries: seq<Entry>, i: nat)
    requires i <= |entries|
    ensures ZipBytes(entries[..i]) <= ZipBytes(entries)
    decreases |entries| - i
  {
    if i < |entries| {
      ZipBytesGrow(entries, i + 1);
      assert entries[..i + 1][..i] == entries[..i];
    } else {
      assert entries[..i] == entries;
    }
  }

  lemma ZipBytesNext(entries: seq<Entry>, i: nat)
    requires i < |entries|
    ensures ZipBytes(entries[..i + 1])
         == ZipBytes(entries[..i]) + if entries[i].kind.Directory? then 0 else |entries[i].data|
    ensures ZipBytes(entries[..i + 1]) <= ZipBytes(entries)
  {
    assert entries[..i + 1][..i] == entries[..i];
    ZipBytesGrow(entries, i + 1);
  }

  lemma WrittenIs(e: Entry, maxBytes: int)
    ensures Written(e, maxBytes) == if maxBytes == MAX_INT64 then AsFile(e).(data := "") else AsFile(e)
  {
  }

  /** Each of the first n entries fits where the ones before it have left room. */
  ghost predicate AllFit(b: Below, dest: string, root: string, entries: seq<Entry>, maxBytes: int,
                         rejectDangerous: bool, n: nat)
  {
    forall i :: 0 <= i < n && i < |entries| ==>
      ZipFits(PlaceAll(b, dest, root, AllWritten(entries, maxBytes)[..i]), dest, root, entries[i], rejectDangerous)
  }

  lemma FitsNext(b: Below, dest: string, root: string, entries: seq<Entry>, maxBytes: int, rejectDangerous: bool,
                 n: nat)
    requires n < |entries|
    ensures AllFit(b, dest, root, entries, maxBytes, rejectDangerous, 0)
    ensures AllFit(b, dest, root, entries, maxBytes, rejectDangerous, n + 1) <==>
      && AllFit(b, dest, root, entries, maxBytes, rejectDangerous, n)
      && ZipFits(PlaceAll(b, dest, root, AllWritten(entries, maxBytes)[..n]), dest, root, entries[n], rejectDangerous)
    ensures AllFit(b, dest, root, entries, maxBytes, rejectDangerous, |entries|) ==>
      AllFit(b, dest, root, entries, maxBytes, rejectDangerous, n + 1)
  {
    hide ZipFits, PlaceAll;
  }

  /** Where an entry goes depends on its name alone. */
  lemma NamedPlace(dest: string, root: string, e: Entry)
    ensures Placement(dest, root, AsFile(e)) == Placement(dest, root, e) && Keys(root, AsFile(e)) == Keys(root, e)
    ensures Ignored(dest, root, AsFile(e)) == Ignored(dest, root, e)
  {
  }

  lemma NothingPlaced(b: Below, dest: string, root: string, entries: seq<Entry>, maxBytes: int, rejectDangerous: bool)
    ensures PlaceAll(b, dest, root, []) == b && AllFit(b, dest, root, entries, maxBytes, rejectDangerous, 0)
  {
  }

  lemma PlaceNext(b: Below, dest: string, root: string, front: seq<Entry>, e: Entry)
    ensures PlaceAll(b, dest, root, front + [e]) == PlaceOne(PlaceAll(b, dest, root, front), dest, root, e)
  {
    assert (front + [e])[..|front|] == front;
  }

  /** One turn of the zip loop: the outcome that ends it, if any, and the bytes copied. */
  method TakeZipEntry(e: Entry, destDir: string, root: string, rejectDangerous: bool, limit: Option<int>, out: OutDir)
    returns (stop: Option<Verdict>, n: nat)
    requires limit.Some? ==> limit.value != 0
    modifies out
    ensures stop != Some(Success)
    ensures old(out.bytes) <= out.bytes
    ensures limit.Some? ==> out.bytes <= old(out.bytes) + (if limit.value < 0 then 0 else limit.value)
    ensures stop.None? ==> out.bytes == old(out.bytes) + n && !(rejectDangerous && e.kind.Symlink?)
    ensures stop.None? && (limit.Some? ==> n < limit.value) ==>
      out.below == PlaceOne(old(out.below), destDir, root, AsFile(e))
    ensures n <= if e.kind.Directory? then 0 else |e.data|
    ensures stop.None? ==> ZipFits(old(out.below), destDir, root, e, rejectDangerous)
    ensures ZipFits(old(out.below), destDir, root, e, rejectDangerous) && Whole(e) ==> stop.None?
    ensures stop.None? && limit.Some? && limit.value < 0 ==>
      n == 0 && out.below == PlaceOne(old(out.below), destDir, root, AsFile(e).(data := ""))
  {
    hide PlaceOne, Placement, Ignored, Keys, Parents, Clear, Copied;
    NamedPlace(destDir, root, e);
    n := 0;
    if rejectDangerous && e.kind.Symlink? {
      return Some(Refused), n;
    }
    var f := AsFile(e);
    var target := Placement(destDir, root, f);
    if target.Unsafe? || target.Escapes? {
      return Some(Refused), n;
    }
    SamePlace(destDir, root, f);
    if Ignored(destDir, root, f) {
      PlaceIgnored(out.below, destDir, root, f);
      PlaceIgnored(out.below, destDir, root, f.(data := ""));
      return None, n;
    }
    PlaceKept(out.below, destDir, root, f);
    PlaceKept(out.below, destDir, root, f.(data := ""));
    if f.kind.Directory? {
      var made := out.MkdirAll(Keys(root, f));
      return if made then None else Some(DiskError), n;
    }
    var (data, broken) := Copied(f, limit);
    CopiedWhole(f, limit);
    var ok := out.WriteFile(Keys(root, f), data);
    if !ok {
      return Some(DiskError), n;
    }
    n := |data|;
    stop := if broken then Some(BrokenRead) else None;
  }

  method ExtractZipFile(entries: seq<Entry>, destDir: string, maxBytes: int, stripSingleRoot: bool,
                        rejectDangerous: bool, out: OutDir)
    returns (v: Verdict, root: string)
    requires maxBytes <= MAX_INT64
    modifies out
    ensures maxBytes > 0 ==> out.bytes <= old(out.bytes) + maxBytes + 1
    ensures maxBytes > 0 && v.Success? ==> out.bytes <= old(out.bytes) + maxBytes
    ensures v.Success? ==> out.below == PlaceAll(old(out.below), destDir, root, AllWritten(entries, maxBytes))
    ensures root != "" ==> stripSingleRoot && CommonRoot(NamesOf(entries), root)
    ensures stripSingleRoot && (exists r :: CommonRoot(NamesOf(entries), r)) ==> root != ""
    ensures v.Success? && rejectDangerous ==> forall e :: e in entries ==> !e.kind.Symlink?
    ensures v.Success? ==> AllFit(old(out.below), destDir, root, entries, maxBytes, rejectDangerous, |entries|)
    ensures AllFit(old(out.below), destDir, root, entries, maxBytes, rejectDangerous, |entries|) ==>
      (forall e :: e in entries ==> Whole(e)) && (maxBytes > 0 ==> ZipBytes(entries) <= maxBytes) ==> v.Success?
  {
    hide PlaceOne, CommonRoot, Remaining, NamesOf, AsFile, ZipFits, Whole, AllFit, PlaceAll, ZipBytes, Written;
    root := "";
    if stripSingleRoot {
      root := DetectSingleRoot(NamesOf(entries));
    }
    var written := 0;
    ghost var before, asFiles := out.below, AllWritten(entries, maxBytes);
    NothingPlaced(before, destDir, root, entries, maxBytes, rejectDangerous);
    assert asFiles[..0] == [] && entries[..0] == [];
    for i := 0 to |entries|
      invariant out.below == PlaceAll(before, destDir, root, asFiles[..i])
      invariant out.bytes == old(out.bytes) + written
      invariant 0 <= written && (maxBytes > 0 ==> written <= maxBytes) && (maxBytes == MAX_INT64 ==> written == 0)
      invariant rejectDangerous ==> forall k :: 0 <= k < i ==> !entries[k].kind.Symlink?
      invariant written <= ZipBytes(entries[..i])
      invariant AllFit(before, destDir, root, entries, maxBytes, rejectDangerous, i)
    {
      FitsNext(before, destDir, root, entries, maxBytes, rejectDangerous, i);
      assert asFiles[..i + 1] == asFiles[..i] + [asFiles[i]];
      PlaceNext(before, destDir, root, asFiles[..i], asFiles[i]);
      ZipBytesNext(entries, i);
      WrittenIs(entries[i], maxBytes);
      if maxBytes > 0 {
        RemainingIs(maxBytes, written);
      }
      var limit := if maxBytes > 0 then Some(Remaining(maxBytes, written)) else None;
      var stop, n := TakeZipEntry(entries[i], destDir, root, rejectDangerous, limit, out);
      if stop.Some? {
        return stop.value, root;
      }
      written := written + n;
      if maxBytes > 0 && written > maxBytes {
        return TooLarge, root;
      }
    }
    assert asFiles[..|entries|] == asFiles;
    v := Success;
  }

  function NamesOf(entries: seq<Entry>): seq<string>
  {
    seq(|entries|, i requires 0 <= i < |entries| => entries[i].name)
  }

  /** The data of an entry does not matter to where it goes. */
  lemma SamePlace(dest: string, root: string, e: Entry)
    ensures Ignored(dest, root, e) == Ignored(dest, root, e.(data := "")) && Keys(root, e) == Keys(root, e.(data := ""))
  {
  }

  lemma PlaceIgnored(b: Below, dest: string, root: string, e: Entry)
    requires Ignored(dest, root, e) || Dangerous(e.kind) || e.kind.Metadata?
    ensures PlaceOne(b, dest, root, e) == b
  {
  }

  lemma PlaceKept(b: Below, dest: string, root: string, e: Entry)
    requires !Ignored(dest, root, e) && (e.kind.Regular? || e.kind.Directory?)
    ensures var cs := Keys(root, e);
            PlaceOne(b, dest, root, e) ==
              if e.kind.Directory? then Below(b.files, b.dirs + Parents(cs) + {cs})
              else Below(b.files[cs := e.data], b.dirs + Parents(cs))
  {
  }

  // ---------------------------------------------------------------- Tar

  /** Stream bytes the entries take, skipped data included. */
  function Spend(entries: seq<Entry>): nat
  {
    if entries == [] then 0
    else
      var last := entries[|entries| - 1];
      Spend(entries[..|entries| - 1]) + last.lead + |last.data|
  }

  lemma {:induction false} SpendGrows(entries: seq<Entry>, i: nat)
    requires i <= |entries|
    ensures Spend(entries[..i]) <= Spend(entries)
    decreases |entries| - i
  {
    if i < |entries| {
      SpendGrows(entries, i + 1);
      assert entries[..i + 1][..i] == entries[..i];
    } else {
      assert entries[..i] == entries;
    }
  }

  /** What is left of the stream once the data of an entry is skipped, if it is all there. */
  function Skipped(e: Entry, capped: bool, left: nat): Option<nat>
  {
    if !capped then Some(left) else if left < |e.data| then None else Some(left - |e.data|)
  }

  /** One turn of the tar loop with `left` bytes of stream to go (if capped): the
      outcome that ends it, if any, and what is left. */
  method TakeTarEntry(e: Entry, absDest: string, rejectDangerous: bool, root: string, capped: bool, left: nat,
                      out: OutDir)
    returns (stop: Option<Verdict>, rest: nat)
    modifies out
    ensures old(out.bytes) <= out.bytes && rest <= left
    ensures capped ==> out.bytes + rest <= old(out.bytes) + left
    ensures stop == Some(Success) ==>
      capped && left == 0 && e.cleanEnd && out.below == old(out.below) && out.bytes == old(out.bytes)
    ensures stop.None? ==> out.below == PlaceOne(old(out.below), absDest, root, e)
    ensures stop.None? && rejectDangerous ==> !e.kind.Symlink? && !e.kind.Special?
    ensures stop.None? && capped ==> left > 0 && rest == left - e.lead - |e.data|
    ensures stop.None? && capped && rest == 0 ==> out.bytes == old(out.bytes)
    ensures Fits(old(out.below), absDest, root, e) && (capped ==> e.lead + |e.data| < left) ==> stop.None?
  {
    hide PlaceOne, Placement, Ignored, Keys, Parents, Clear, Fits;
    FitsNeeds(out.below, absDest, root, e);
    rest := left;
    if capped {
      if left == 0 && e.cleanEnd {
        return Some(Success), rest;
      }
      if left < e.lead || left == 0 {
        return Some(Verdict.Malformed), rest;
      }
      rest := left - e.lead;
    }
    var skipped := Skipped(e, capped, rest);
    if Dangerous(e.kind) && rejectDangerous {
      return Some(Refused), rest;
    }
    if Dangerous(e.kind) || e.kind.Metadata? {
      PlaceIgnored(out.below, absDest, root, e);
      return if skipped.None? then Some(Verdict.Malformed) else None, if skipped.None? then rest else skipped.value;
    }
    var target := Placement(absDest, root, e);
    if target.Unsafe? || target.Escapes? {
      return Some(Refused), rest;
    }
    if Ignored(absDest, root, e) {
      PlaceIgnored(out.below, absDest, root, e);
      return if skipped.None? then Some(Verdict.Malformed) else None, if skipped.None? then rest else skipped.value;
    }
    PlaceKept(out.below, absDest, root, e);
    if e.kind.Directory? {
      var made := out.MkdirAll(Keys(root, e));
      if !made {
        return Some(DiskError), rest;
      }
      return if skipped.None? then Some(Verdict.Malformed) else None, if skipped.None? then rest else skipped.value;
    }
    stop, rest := CopyTarFile(e, Keys(root, e), capped, rest, out);
  }

  method CopyTarFile(e: Entry, cs: seq<string>, capped: bool, left: nat, out: OutDir)
    returns (stop: Option<Verdict>, rest: nat)
    modifies out
    ensures old(out.bytes) <= out.bytes && rest <= left && stop != Some(Success)
    ensures capped ==> out.bytes + rest <= old(out.bytes) + left
    ensures stop.None? ==> out.below == Below(old(out.below).files[cs := e.data], old(out.below).dirs + Parents(cs))
    ensures stop.None? && capped ==> rest == left - |e.data| && rest > 0
    ensures Clear(old(out.below), cs, false) && e.readable.None? && (capped ==> |e.data| < left) ==> stop.None?
  {
    hide Parents, Clear;
    var (data, broken) := Copied(e, None);
    CopiedWhole(e, None);
    if capped && left < |data| {
      data, broken := data[..left], true;
    }
    var ok := out.WriteFile(cs, data);
    if !ok || broken {
      return Some(if ok then BrokenRead else DiskError), if ok && capped then left - |data| else left;
    }
    rest := if capped then left - |data| else left;
    stop := if capped && rest == 0 then Some(TooLarge) else None;
  }

  /** The reader behind io.LimitedReader: `cap` is MaxBytes + 1 stream bytes, None when uncapped. */
  method ExtractTarReaderWithRoot(entries: seq<Entry>, absDest: string, rejectDangerous: bool, root: string,
                                  cap: Option<nat>, out: OutDir)
    returns (v: Verdict, ghost reached: nat)
    modifies out
    ensures reached <= |entries|
    ensures cap.Some? ==> out.bytes <= old(out.bytes) + cap.value
    ensures cap.Some? && cap.value > 0 && v.Success? ==> out.bytes < old(out.bytes) + cap.value
    ensures v.Success? ==> out.below == PlaceAll(old(out.below), absDest, root, entries[..reached])
    ensures v.Success? && rejectDangerous ==>
      forall i :: 0 <= i < reached ==> !entries[i].kind.Symlink? && !entries[i].kind.Special?
    ensures v.Success? && reached < |entries| ==>
      cap.Some? && Spend(entries[..reached]) == cap.value && entries[reached].cleanEnd
    ensures v.Success? && (cap.None? || Spend(entries) < cap.value) ==> reached == |entries|
    ensures (cap.None? || Spend(entries) < cap.value) && Plain(old(out.below), absDest, root, entries) ==> v.Success?
  {
    hide PlaceOne, Fits, PlaceAll, Plain, Spend;
    var left: nat := if cap.Some? then cap.value else 0;
    reached := 0;
    ghost var before := out.below;
    NothingTaken(before, absDest, root);
    assert entries[..0] == [];
    for i := 0 to |entries|
      invariant reached == i
      invariant out.below == PlaceAll(before, absDest, root, entries[..i])
      invariant out.bytes >= old(out.bytes)
      invariant rejectDangerous ==> forall k :: 0 <= k < i ==> !entries[k].kind.Symlink? && !entries[k].kind.Special?
      invariant cap.Some? ==> out.bytes + left <= old(out.bytes) + cap.value && left == cap.value - Spend(entries[..i])
      invariant cap.Some? && cap.value > 0 && left == 0 ==> out.bytes < old(out.bytes) + cap.value
    {
      assert entries[..i + 1] == entries[..i] + [entries[i]];
      PlaceNext(before, absDest, root, entries[..i], entries[i]);
      SpendNext(entries[..i], entries[i]);
      SpendGrows(entries, i + 1);
      SpendGrows(entries, i);
      PlainAt(before, absDest, root, entries, i);
      var stop;
      stop, left := TakeTarEntry(entries[i], absDest, rejectDangerous, root, cap.Some?, left, out);
      if stop.Some? {
        return stop.value, reached;
      }
      reached := i + 1;
    }
    assert entries[..|entries|] == entries;
    v := Success;
  }

  lemma NothingTaken(b: Below, dest: string, root: string)
    ensures PlaceAll(b, dest, root, []) == b && Spend([]) == 0
  {
  }

  lemma SpendNext(front: seq<Entry>, e: Entry)
    ensures Spend(front + [e]) == Spend(front) + e.lead + |e.data|
  {
    assert (front + [e])[..|front|] == front;
  }

  lemma PlainAt(b: Below, dest: string, root: string, entries: seq<Entry>, i: nat)
    requires i < |entries|
    ensures Plain(b, dest, root, entries) ==> Fits(PlaceAll(b, dest, root, entries[..i]), dest, root, entries[i])
  {
    hide Fits, PlaceAll;
  }

  /** An entry that extracts without an error onto what is already there. */
  ghost predicate Fits(b: Below, dest: string, root: string, e: Entry)
  {
    && !Dangerous(e.kind)
    && (e.kind.Regular? || e.kind.Directory? ==>
          && !Placement(dest, root, e).Unsafe? && !Placement(dest, root, e).Escapes?
          && (!Ignored(dest, root, e) ==> Clear(b, Keys(root, e), e.kind.Directory?)))
    && e.readable.None?
  }

  lemma FitsNeeds(b: Below, dest: string, root: string, e: Entry)
    ensures Fits(b, dest, root, e) ==>
      && !Dangerous(e.kind) && e.readable.None?
      && (e.kind.Regular? || e.kind.Directory? ==>
            !Placement(dest, root, e).Unsafe? && !Placement(dest, root, e).Escapes?
            && (!Ignored(dest, root, e) ==> Clear(b, Keys(root, e), e.kind.Directory?)))
  {
  }

  ghost predicate Plain(b: Below, dest: string, root: string, entries: seq<Entry>)
  {
    forall i :: 0 <= i < |entries| ==> Fits(PlaceAll(b, dest, root, entries[..i]), dest, root, entries[i])
  }
}

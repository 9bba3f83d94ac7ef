/** The walk over blueprints/ in a source checkout: walkBlueprintTree and
    walkBlueprint (ludus-api/source_walker.go). */
module Walker {
  import opened Text
  import opened Options
  import Manifest

  const MAX_DEPTH := 2
  const SLASH := '/'

  /** What opening blueprint.yml in a directory meets, and whether the files
      walkBlueprint looks at next can be read. */
  datatype ManifestFile =
    | NoManifest
    | Unreadable
    | Raw(m: Manifest.BlueprintManifest, configThere: bool, requirementsOk: bool)

  datatype Entry = Entry(name: string, tree: Tree)
  /** `Missing` is a path that does not exist, as blueprints/ in many a source. */
  datatype Tree = Missing | File | Link | Dir(readable: bool, manifest: ManifestFile, entries: seq<Entry>)

  datatype Walked = Walked(path: seq<string>, manifest: Manifest.BlueprintManifest)
  datatype Outcome = Failed | Found(bps: seq<Walked>)

  predicate Dotted(name: string)
  {
    "." <= name
  }

  function WalkBlueprint(mf: ManifestFile, isSemver: string -> bool): Option<Manifest.BlueprintManifest>
  {
    if !mf.Raw? then None
    else
      match Manifest.ParseBlueprintManifest(mf.m, isSemver)
      case Rejected => None
      case Accepted(m) => if mf.configThere && mf.requirementsOk then Some(m) else None
  }

  function Walk(t: Tree, path: seq<string>, depth: nat, isSemver: string -> bool): Outcome
    requires depth <= MAX_DEPTH
    decreases MAX_DEPTH - depth, 2, 0
  {
    if t.Missing? then Found([])
    else if !t.Dir? || !t.readable then Failed
    else WalkFirst(t.entries, path, depth, isSemver, |t.entries|)
  }

  function WalkFirst(entries: seq<Entry>, path: seq<string>, depth: nat, isSemver: string -> bool, n: nat): Outcome
    requires depth <= MAX_DEPTH && n <= |entries|
    decreases MAX_DEPTH - depth, 1, n
  {
    if n == 0 then Found([])
    else
      match WalkFirst(entries, path, depth, isSemver, n - 1)
      case Failed => Failed
      case Found(before) =>
        match WalkEntry(entries[n - 1], path, depth, isSemver)
        case Failed => Failed
        case Found(more) => Found(before + more)
  }

  function WalkEntry(e: Entry, path: seq<string>, depth: nat, isSemver: string -> bool): Outcome
    requires depth <= MAX_DEPTH
    decreases MAX_DEPTH - depth, 1, 0
  {
    if !e.tree.Dir? || Dotted(e.name) then Found([])
    else if !e.tree.manifest.NoManifest? then
      match WalkBlueprint(e.tree.manifest, isSemver)
      case None => Failed
      case Some(m) => if m.id != Join(path + [e.name], SLASH) then Failed else Found([Walked(path + [e.name], m)])
    else if depth >= MAX_DEPTH then Found([])
    else Walk(e.tree, path + [e.name], depth + 1, isSemver)
  }

  method WalkBlueprintTree(dir: Tree, path: seq<string>, depth: nat, isSemver: string -> bool)
    returns (outcome: Outcome)
    requires depth <= MAX_DEPTH
    ensures outcome == Walk(dir, path, depth, isSemver)
    decreases MAX_DEPTH - depth
  {
    if dir.Missing? {
      return Found([]);
    }
    if !dir.Dir? || !dir.readable {
      return Failed;
    }
    var out: seq<Walked> := [];
    for i := 0 to |dir.entries|
      invariant WalkFirst(dir.entries, path, depth, isSemver, i) == Found(out)
    {
      hide WalkFirst, WalkBlueprint;
      WalkNext(dir.entries, path, depth, isSemver, i);
      var e := dir.entries[i];
      if !e.tree.Dir? || Dotted(e.name) {
        assert out + [] == out;
        continue;
      }
      var sub := path + [e.name];
      if !e.tree.manifest.NoManifest? {
        var bp := WalkBlueprint(e.tree.manifest, isSemver);
        if bp.None? || bp.value.id != Join(sub, SLASH) {
          FailureStays(dir.entries, path, depth, isSemver, i + 1, |dir.entries|);
          return Failed;
        }
        out := out + [Walked(sub, bp.value)];
        continue;
      }
      if depth >= MAX_DEPTH {
        assert out + [] == out;
        continue;
      }
      var deeper := WalkBlueprintTree(e.tree, sub, depth + 1, isSemver);
      if deeper.Failed? {
        FailureStays(dir.entries, path, depth, isSemver, i + 1, |dir.entries|);
        return Failed;
      }
      out := out + deeper.bps;
    }
    return Found(out);
  }

  lemma WalkNext(entries: seq<Entry>, path: seq<string>, depth: nat, isSemver: string -> bool, n: nat)
    requires depth <= MAX_DEPTH && n < |entries|
    ensures WalkFirst(entries, path, depth, isSemver, n + 1)
         == match WalkFirst(entries, path, depth, isSemver, n)
            case Failed => Failed
            case Found(before) =>
              match WalkEntry(entries[n], path, depth, isSemver)
              case Failed => Failed
              case Found(more) => Found(before + more)
  {
  }

  lemma {:induction false} FailureStays(entries: seq<Entry>, path: seq<string>, depth: nat, isSemver: string -> bool,
                                        m: nat, n: nat)
    requires depth <= MAX_DEPTH && m <= n <= |entries|
    requires WalkFirst(entries, path, depth, isSemver, m).Failed?
    ensures WalkFirst(entries, path, depth, isSemver, n).Failed?
  {
    hide WalkEntry;
    if m < n {
      FailureStays(entries, path, depth, isSemver, m, n - 1);
    }
  }

  // ---------------------------------------------------------------- What the walk should find

  /** A directory listing: names are components, and no name occurs twice. */
  ghost predicate WellFormed(t: Tree)
  {
    t.Dir? ==>
      && (forall i, j :: 0 <= i < j < |t.entries| ==> t.entries[i].name != t.entries[j].name)
      && (forall i :: 0 <= i < |t.entries| ==> t.entries[i].name != "" && SLASH !in t.entries[i].name)
      && (forall i :: 0 <= i < |t.entries| ==> WellFormed(t.entries[i].tree))
  }

  function Child(entries: seq<Entry>, name: string): Option<Tree>
  {
    if entries == [] then None
    else if entries[0].name == name then Some(entries[0].tree)
    else Child(entries[1..], name)
  }

  function Resolve(t: Tree, path: seq<string>): Option<Tree>
    decreases |path|
  {
    if path == [] then Some(t)
    else if !t.Dir? then None
    else
      match Child(t.entries, path[0])
      case None => None
      case Some(c) => Resolve(c, path[1..])
  }

  predicate DirAt(t: Tree, path: seq<string>)
  {
    Resolve(t, path).Some? && Resolve(t, path).value.Dir?
  }

  predicate ManifestAt(t: Tree, path: seq<string>)
  {
    DirAt(t, path) && !Resolve(t, path).value.manifest.NoManifest?
  }

  predicate Plain(path: seq<string>)
  {
    forall name :: name in path ==> !Dotted(name)
  }

  /** `path` below `t` is a directory with a manifest that no directory above it
      has, without dotted segments, and within the depth that is left. */
  ghost predicate Qualifies(t: Tree, depth: nat, path: seq<string>)
  {
    && 1 <= |path| <= MAX_DEPTH + 1 - depth && Plain(path) && ManifestAt(t, path)
    && forall k :: 0 < k < |path| ==> !ManifestAt(t, path[..k])
  }

  /** A directory the walk lists. */
  ghost predicate Listed(t: Tree, depth: nat, path: seq<string>)
  {
    && |path| <= MAX_DEPTH - depth && Plain(path) && DirAt(t, path)
    && forall k :: 0 < k <= |path| ==> !ManifestAt(t, path[..k])
  }

  predicate GoodManifest(mf: ManifestFile, path: seq<string>, isSemver: string -> bool)
  {
    WalkBlueprint(mf, isSemver).Some? && WalkBlueprint(mf, isSemver).value.id == Join(path, SLASH)
  }

  /** Every listed directory can be read, and every blueprint found has a valid
      manifest whose id is its path. A missing tree is fine. */
  ghost predicate AllGood(t: Tree, base: seq<string>, depth: nat, isSemver: string -> bool)
  {
    && (t.Missing? || (t.Dir? && t.readable))
    && (forall p :: Listed(t, depth, p) ==> Resolve(t, p).value.readable)
    && (forall p :: Qualifies(t, depth, p) ==> GoodManifest(Resolve(t, p).value.manifest, base + p, isSemver))
  }

  // ---------------------------------------------------------------- One level at a time

  lemma {:induction false} ChildOf(entries: seq<Entry>, i: nat)
    requires i < |entries|
    requires forall i, j :: 0 <= i < j < |entries| ==> entries[i].name != entries[j].name
    ensures Child(entries, entries[i].name) == Some(entries[i].tree)
  {
    if i > 0 {
      ChildOf(entries[1..], i - 1);
    }
  }

  lemma {:induction false} ChildIsEntry(entries: seq<Entry>, name: string)
    ensures Child(entries, name).Some? ==>
      exists i :: 0 <= i < |entries| && entries[i] == Entry(name, Child(entries, name).value)
  {
    if entries != [] {
      if entries[0].name == name {
        assert entries[0] == Entry(name, Child(entries, name).value);
      } else {
        ChildIsEntry(entries[1..], name);
        if Child(entries, name).Some? {
          var i :| 0 <= i < |entries[1..]| && entries[1..][i] == Entry(name, Child(entries[1..], name).value);
          assert entries[i + 1] == Entry(name, Child(entries, name).value);
        }
      }
    }
  }

  /** Resolving starts with the entry of the first segment. */
  lemma ResolveStep(t: Tree, i: nat, rest: seq<string>)
    requires t.Dir? && WellFormed(t) && i < |t.entries|
    ensures var p := [t.entries[i].name] + rest; Resolve(t, p) == Resolve(t.entries[i].tree, rest)
  {
    var p := [t.entries[i].name] + rest;
    ChildOf(t.entries, i);
    assert p[1..] == rest;
  }

  ghost predicate EntryQualifies(e: Entry, depth: nat, path: seq<string>)
  {
    && path != [] && path[0] == e.name && !Dotted(e.name) && e.tree.Dir?
    && if e.tree.manifest.NoManifest? then depth < MAX_DEPTH && Qualifies(e.tree, depth + 1, path[1..]) else |path| == 1
  }

  ghost predicate EntryListed(e: Entry, depth: nat, path: seq<string>)
  {
    && path != [] && path[0] == e.name && !Dotted(e.name) && e.tree.Dir?
    && e.tree.manifest.NoManifest? && depth < MAX_DEPTH && Listed(e.tree, depth + 1, path[1..])
  }

  lemma PlainStep(path: seq<string>)
    requires path != []
    ensures Plain(path) <==> !Dotted(path[0]) && Plain(path[1..])
    ensures |path| == 1 ==> Plain(path[1..])
  {
    assert path == [path[0]] + path[1..];
  }

  lemma ResolveSelf(t: Tree)
    ensures Resolve(t, []) == Some(t)
    ensures !t.Dir? ==> forall p :: !DirAt(t, p)
  {
  }

  /** The manifests on the way, seen from one level down. */
  lemma ManifestsStep(t: Tree, i: nat, path: seq<string>)
    requires t.Dir? && WellFormed(t) && i < |t.entries| && path != [] && path[0] == t.entries[i].name
    ensures Resolve(t, path) == Resolve(t.entries[i].tree, path[1..])
    ensures forall k :: 0 < k <= |path| ==>
      (ManifestAt(t, path[..k]) <==> ManifestAt(t.entries[i].tree, path[1..][..k - 1]))
  {
    ResolveStep(t, i, path[1..]);
    assert path == [path[0]] + path[1..];
    forall k | 0 < k <= |path|
      ensures ManifestAt(t, path[..k]) <==> ManifestAt(t.entries[i].tree, path[1..][..k - 1])
    {
      ResolveStep(t, i, path[1..][..k - 1]);
      assert path[..k] == [path[0]] + path[1..][..k - 1];
    }
  }

  lemma EntryMeets(t: Tree, i: nat, depth: nat, path: seq<string>)
    requires t.Dir? && WellFormed(t) && depth <= MAX_DEPTH && i < |t.entries| && path != []
      && path[0] == t.entries[i].name
    ensures Qualifies(t, depth, path) <==> EntryQualifies(t.entries[i], depth, path)
    ensures Listed(t, depth, path) <==> EntryListed(t.entries[i], depth, path)
  {
    hide WellFormed, Resolve, Plain;
    var c, rest := t.entries[i].tree, path[1..];
    ManifestsStep(t, i, path);
    PlainStep(path);
    ResolveSelf(c);
    assert rest[..0] == [];
    assert ManifestAt(t, path[..1]) <==> ManifestAt(c, []);
    assert |path| == 1 ==> rest == [] && path[..1] == path;
    assert |path| > 1 ==> rest[..|rest|] == rest && path[..|path|] == path;
    assert forall k :: 0 < k < |rest| ==> (ManifestAt(c, rest[..k]) <==> ManifestAt(t, path[..k + 1]));
    assert forall k :: 0 < k <= |rest| ==> (ManifestAt(c, rest[..k]) <==> ManifestAt(t, path[..k + 1]));
  }

  lemma FirstSegment(t: Tree, path: seq<string>)
    requires path != [] && DirAt(t, path)
    ensures t.Dir? && exists i :: 0 <= i < |t.entries| && t.entries[i].name == path[0]
  {
    ChildIsEntry(t.entries, path[0]);
  }

  // ---------------------------------------------------------------- Success

  ghost predicate EntryGood(e: Entry, base: seq<string>, depth: nat, isSemver: string -> bool)
  {
    e.tree.Dir? && !Dotted(e.name) ==>
      if e.tree.manifest.NoManifest? then depth < MAX_DEPTH ==> AllGood(e.tree, base + [e.name], depth + 1, isSemver)
      else GoodManifest(e.tree.manifest, base + [e.name], isSemver)
  }

  lemma GoodEntries(t: Tree, base: seq<string>, depth: nat, isSemver: string -> bool, i: nat)
    requires WellFormed(t) && depth <= MAX_DEPTH && t.Dir? && AllGood(t, base, depth, isSemver) && i < |t.entries|
    ensures EntryGood(t.entries[i], base, depth, isSemver)
  {
    hide WellFormed, Resolve, GoodManifest, Qualifies, Listed, Dotted;
    var e := t.entries[i];
    if e.tree.Dir? && !Dotted(e.name) {
      EntryMeets(t, i, depth, [e.name]);
      ManifestsStep(t, i, [e.name]);
      ResolveSelf(e.tree);
      assert [e.name][1..] == [];
      assert !e.tree.manifest.NoManifest? ==> EntryQualifies(e, depth, [e.name]);
      if e.tree.manifest.NoManifest? && depth < MAX_DEPTH {
        ListedSelf(e.tree, depth + 1);
        forall p
          ensures Listed(e.tree, depth + 1, p) ==>
            Resolve(e.tree, p).Some? && Resolve(e.tree, p).value.Dir? && Resolve(e.tree, p).value.readable
        {
          EntryMeets(t, i, depth, [e.name] + p);
          ManifestsStep(t, i, [e.name] + p);
          ListedDir(e.tree, depth + 1, p);
        }
        forall p ensures Qualifies(e.tree, depth + 1, p) ==>
          DirAt(e.tree, p) && GoodManifest(Resolve(e.tree, p).value.manifest, base + [e.name] + p, isSemver)
        {
          EntryMeets(t, i, depth, [e.name] + p);
          ManifestsStep(t, i, [e.name] + p);
          QualifiedDir(e.tree, depth + 1, p);
          assert base + [e.name] + p == base + ([e.name] + p);
        }
      }
    }
  }

  lemma ListedSelf(t: Tree, depth: nat)
    requires t.Dir? && depth <= MAX_DEPTH
    ensures Listed(t, depth, [])
  {
  }

  lemma ListedDir(t: Tree, depth: nat, p: seq<string>)
    ensures Listed(t, depth, p) ==> DirAt(t, p)
  {
  }

  lemma QualifiedDir(t: Tree, depth: nat, p: seq<string>)
    ensures Qualifies(t, depth, p) ==> DirAt(t, p) && p != []
  {
  }

  lemma EntriesGood(t: Tree, base: seq<string>, depth: nat, isSemver: string -> bool)
    requires WellFormed(t) && depth <= MAX_DEPTH && t.Dir? && t.readable
    requires forall i :: 0 <= i < |t.entries| ==> EntryGood(t.entries[i], base, depth, isSemver)
    ensures AllGood(t, base, depth, isSemver)
  {
    hide WellFormed, Resolve, GoodManifest, Qualifies, Listed, Dotted;
    ResolveSelf(t);
    forall p ensures Listed(t, depth, p) ==> DirAt(t, p) && Resolve(t, p).value.readable {
      ListedDir(t, depth, p);
      if p != [] && Listed(t, depth, p) {
        FirstSegment(t, p);
        var i :| 0 <= i < |t.entries| && t.entries[i].name == p[0];
        EntryMeets(t, i, depth, p);
        ManifestsStep(t, i, p);
      }
    }
    forall p
      ensures Qualifies(t, depth, p) ==> DirAt(t, p) && GoodManifest(Resolve(t, p).value.manifest, base + p, isSemver)
    {
      QualifiedDir(t, depth, p);
      if Qualifies(t, depth, p) {
        FirstSegment(t, p);
        var i :| 0 <= i < |t.entries| && t.entries[i].name == p[0];
        EntryMeets(t, i, depth, p);
        ManifestsStep(t, i, p);
        assert base + p == base + [p[0]] + p[1..];
        if |p| == 1 {
          ResolveSelf(t.entries[i].tree);
          assert p[1..] == [] && base + p == base + [p[0]];
        }
      }
    }
  }

  // ---------------------------------------------------------------- What the walk returns

  function PathsOf(bps: seq<Walked>): (paths: seq<seq<string>>)
    ensures |paths| == |bps| && forall i :: 0 <= i < |paths| ==> paths[i] == bps[i].path
  {
    seq(|bps|, i requires 0 <= i < |bps| => bps[i].path)
  }

  ghost predicate Distinct(paths: seq<seq<string>>)
  {
    forall i, j :: 0 <= i < j < |paths| ==> paths[i] != paths[j]
  }

  /** The manifest returned for a path is the one read there. */
  ghost predicate Stamped(w: Walked, t: Tree, base: seq<string>, isSemver: string -> bool)
  {
    && base <= w.path && DirAt(t, w.path[|base|..])
    && WalkBlueprint(Resolve(t, w.path[|base|..]).value.manifest, isSemver) == Some(w.manifest)
    && w.manifest.id == Join(w.path, SLASH)
  }

  /** The blueprints returned are exactly those below `t`, each once. */
  ghost predicate ExactTree(bps: seq<Walked>, t: Tree, base: seq<string>, depth: nat, isSemver: string -> bool)
  {
    && Distinct(PathsOf(bps))
    && (forall p :: p in PathsOf(bps) <==> base <= p && Qualifies(t, depth, p[|base|..]))
    && (forall w :: w in bps ==> Stamped(w, t, base, isSemver))
  }

  ghost predicate ExactEntry(bps: seq<Walked>, t: Tree, i: nat, base: seq<string>, depth: nat, isSemver: string -> bool)
    requires t.Dir? && i < |t.entries|
  {
    && Distinct(PathsOf(bps))
    && (forall p :: p in PathsOf(bps) <==> base <= p && EntryQualifies(t.entries[i], depth, p[|base|..]))
    && (forall w :: w in bps ==> Stamped(w, t, base, isSemver))
  }

  ghost predicate AmongFirst(t: Tree, n: nat, depth: nat, path: seq<string>)
    requires t.Dir? && n <= |t.entries|
  {
    exists i :: 0 <= i < n && EntryQualifies(t.entries[i], depth, path)
  }

  ghost predicate ExactFirst(bps: seq<Walked>, t: Tree, n: nat, base: seq<string>, depth: nat, isSemver: string -> bool)
    requires t.Dir? && n <= |t.entries|
  {
    && Distinct(PathsOf(bps))
    && (forall p :: p in PathsOf(bps) <==> base <= p && AmongFirst(t, n, depth, p[|base|..]))
    && (forall w :: w in bps ==> Stamped(w, t, base, isSemver))
  }

  lemma PathsConcat(a: seq<Walked>, b: seq<Walked>)
    ensures PathsOf(a + b) == PathsOf(a) + PathsOf(b)
  {
  }

  lemma DistinctConcat(a: seq<seq<string>>, b: seq<seq<string>>)
    requires Distinct(a) && Distinct(b) && forall p :: p in a ==> p !in b
    ensures Distinct(a + b)
  {
    var c := a + b;
    forall i, j | 0 <= i < j < |c| ensures c[i] != c[j] {
      if i < |a| <= j {
        assert c[i] in a && c[j] in b;
      }
    }
  }

  /** Paths under different entries differ. */
  lemma Apart(t: Tree, n: nat, depth: nat, path: seq<string>)
    requires t.Dir? && WellFormed(t) && n < |t.entries|
    ensures !(AmongFirst(t, n, depth, path) && EntryQualifies(t.entries[n], depth, path))
    ensures AmongFirst(t, n + 1, depth, path) <==>
      AmongFirst(t, n, depth, path) || EntryQualifies(t.entries[n], depth, path)
  {
    hide Qualifies, Dotted;
    forall i | 0 <= i < n && EntryQualifies(t.entries[i], depth, path)
      ensures !EntryQualifies(t.entries[n], depth, path)
    {
      assert t.entries[i].name != t.entries[n].name;
    }
  }

  lemma JoinFirst(before: seq<Walked>, more: seq<Walked>, t: Tree, n: nat, base: seq<string>, depth: nat,
                  isSemver: string -> bool)
    requires t.Dir? && WellFormed(t) && n < |t.entries|
    requires ExactFirst(before, t, n, base, depth, isSemver) && ExactEntry(more, t, n, base, depth, isSemver)
    ensures ExactFirst(before + more, t, n + 1, base, depth, isSemver)
  {
    hide WellFormed, EntryQualifies, AmongFirst, Stamped, PathsOf, Distinct;
    PathsConcat(before, more);
    forall p | base <= p
      ensures !(p in PathsOf(before) && p in PathsOf(more))
      ensures AmongFirst(t, n + 1, depth, p[|base|..]) <==> p in PathsOf(before) || p in PathsOf(more)
    {
      Apart(t, n, depth, p[|base|..]);
    }
    DistinctConcat(PathsOf(before), PathsOf(more));
  }

  /** One entry with a manifest. */
  lemma OneBlueprint(t: Tree, i: nat, base: seq<string>, depth: nat, isSemver: string -> bool)
    requires t.Dir? && WellFormed(t) && i < |t.entries|
    requires var e := t.entries[i];
             e.tree.Dir? && !Dotted(e.name) && GoodManifest(e.tree.manifest, base + [e.name], isSemver)
    ensures var e := t.entries[i];
            ExactEntry([Walked(base + [e.name], WalkBlueprint(e.tree.manifest, isSemver).value)], t, i, base, depth,
                       isSemver)
  {
    hide WellFormed, Join;
    var e := t.entries[i];
    var path, w := base + [e.name], Walked(base + [e.name], WalkBlueprint(e.tree.manifest, isSemver).value);
    assert path[|base|..] == [e.name] && [e.name][1..] == [];
    ManifestsStep(t, i, [e.name]);
    ResolveSelf(e.tree);
    assert !e.tree.manifest.NoManifest?;
    forall p ensures p in PathsOf([w]) <==> base <= p && EntryQualifies(e, depth, p[|base|..]) {
      if base <= p && EntryQualifies(e, depth, p[|base|..]) {
        assert p == base + p[|base|..] && p[|base|..] == [e.name];
        assert PathsOf([w])[0] == p;
      }
    }
  }

  /** Nothing to find in an entry that is no directory, dotted, or too deep. */
  lemma NoBlueprint(t: Tree, i: nat, base: seq<string>, depth: nat, isSemver: string -> bool)
    requires t.Dir? && i < |t.entries|
    requires var e := t.entries[i];
             !e.tree.Dir? || Dotted(e.name) || (e.tree.manifest.NoManifest? && depth >= MAX_DEPTH)
    ensures ExactEntry([], t, i, base, depth, isSemver)
  {
  }

  /** What lies below an entry, seen from its parent. */
  lemma DeeperBlueprints(bps: seq<Walked>, t: Tree, i: nat, base: seq<string>, depth: nat, isSemver: string -> bool)
    requires t.Dir? && WellFormed(t) && i < |t.entries| && depth < MAX_DEPTH
    requires var e := t.entries[i];
      e.tree.Dir? && !Dotted(e.name) && e.tree.manifest.NoManifest?
        && ExactTree(bps, e.tree, base + [e.name], depth + 1, isSemver)
    ensures ExactEntry(bps, t, i, base, depth, isSemver)
  {
    hide WellFormed, WalkBlueprint, Join, Qualifies, Resolve, Dotted, Distinct, PathsOf;
    var e := t.entries[i];
    var sub := base + [e.name];
    forall p ensures p in PathsOf(bps) <==> base <= p && EntryQualifies(e, depth, p[|base|..]) {
      if base <= p && |p| > |base| {
        assert p[|base|..][1..] == p[|sub|..];
        assert sub <= p <==> p[|base|] == e.name;
      }
      NotHere(e.tree, depth + 1);
      EntryQualifiesNonEmpty(e, depth, if base <= p then p[|base|..] else []);
    }
    forall w | w in bps ensures Stamped(w, t, base, isSemver) {
      assert Stamped(w, e.tree, sub, isSemver);
      var rel := w.path[|base|..];
      assert rel[1..] == w.path[|sub|..] && rel[0] == e.name;
      ManifestsStep(t, i, rel);
    }
  }

  lemma NotHere(t: Tree, depth: nat)
    ensures !Qualifies(t, depth, [])
  {
  }

  lemma EntryQualifiesNonEmpty(e: Entry, depth: nat, p: seq<string>)
    ensures EntryQualifies(e, depth, p) ==> p != [] && p[0] == e.name
  {
  }

  lemma {:induction false} EntryExact(t: Tree, i: nat, base: seq<string>, depth: nat, isSemver: string -> bool)
    requires t.Dir? && WellFormed(t) && depth <= MAX_DEPTH && i < |t.entries|
    ensures var r := WalkEntry(t.entries[i], base, depth, isSemver);
            && (r.Found? <==> EntryGood(t.entries[i], base, depth, isSemver))
            && (r.Found? ==> ExactEntry(r.bps, t, i, base, depth, isSemver))
    decreases MAX_DEPTH - depth, 1, 0
  {
    hide WalkBlueprint, Join, AllGood, Walk, Dotted;
    var e := t.entries[i];
    if !e.tree.Dir? || Dotted(e.name) {
      NoBlueprint(t, i, base, depth, isSemver);
    } else if !e.tree.manifest.NoManifest? {
      if GoodManifest(e.tree.manifest, base + [e.name], isSemver) {
        OneBlueprint(t, i, base, depth, isSemver);
      }
    } else if depth >= MAX_DEPTH {
      NoBlueprint(t, i, base, depth, isSemver);
    } else {
      var r := Walk(e.tree, base + [e.name], depth + 1, isSemver);
      WalkExact(e.tree, base + [e.name], depth + 1, isSemver);
      if r.Found? {
        DeeperBlueprints(r.bps, t, i, base, depth, isSemver);
      }
    }
  }

  lemma {:induction false} FirstExact(t: Tree, n: nat, base: seq<string>, depth: nat, isSemver: string -> bool)
    requires t.Dir? && WellFormed(t) && depth <= MAX_DEPTH && n <= |t.entries|
    ensures var r := WalkFirst(t.entries, base, depth, isSemver, n);
            && (r.Found? <==> forall i :: 0 <= i < n ==> EntryGood(t.entries[i], base, depth, isSemver))
            && (r.Found? ==> ExactFirst(r.bps, t, n, base, depth, isSemver))
    decreases MAX_DEPTH - depth, 1, 1 + n
  {
    hide WellFormed, EntryGood, ExactEntry, WalkEntry;
    if n == 0 {
      NoneFirst(t, base, depth, isSemver);
    } else {
      FirstExact(t, n - 1, base, depth, isSemver);
      EntryExact(t, n - 1, base, depth, isSemver);
      var front, here :=
        WalkFirst(t.entries, base, depth, isSemver, n - 1), WalkEntry(t.entries[n - 1], base, depth, isSemver);
      if front.Found? && here.Found? {
        JoinFirst(front.bps, here.bps, t, n - 1, base, depth, isSemver);
      }
    }
  }

  lemma NoneFirst(t: Tree, base: seq<string>, depth: nat, isSemver: string -> bool)
    requires t.Dir?
    ensures ExactFirst([], t, 0, base, depth, isSemver)
  {
  }

  /** The walk succeeds exactly when everything it lists can be read and every
      blueprint on the way is valid under its own path; then it returns exactly
      the qualifying directories, each once, with the manifest read there. */
  lemma {:induction false} WalkExact(t: Tree, base: seq<string>, depth: nat, isSemver: string -> bool)
    requires WellFormed(t) && depth <= MAX_DEPTH
    ensures var r := Walk(t, base, depth, isSemver);
            && (r.Found? <==> AllGood(t, base, depth, isSemver))
            && (r.Found? ==> ExactTree(r.bps, t, base, depth, isSemver))
    decreases MAX_DEPTH - depth, 2, 0
  {
    hide WellFormed, EntryGood, WalkFirst;
    if t.Missing? {
      NothingMissing(t, base, depth, isSemver);
    } else if t.Dir? && t.readable {
      FirstExact(t, |t.entries|, base, depth, isSemver);
      if AllGood(t, base, depth, isSemver) {
        forall i | 0 <= i < |t.entries| ensures EntryGood(t.entries[i], base, depth, isSemver) {
          GoodEntries(t, base, depth, isSemver, i);
        }
      }
      var r := Walk(t, base, depth, isSemver);
      if r.Found? {
        EntriesGood(t, base, depth, isSemver);
        AllFirst(r.bps, t, base, depth, isSemver);
      }
    }
  }

  /** A missing tree holds no blueprint and nothing to go wrong. */
  lemma NothingMissing(t: Tree, base: seq<string>, depth: nat, isSemver: string -> bool)
    requires t.Missing?
    ensures AllGood(t, base, depth, isSemver) && ExactTree([], t, base, depth, isSemver)
  {
    ResolveSelf(t);
    forall p ensures !Listed(t, depth, p) && !Qualifies(t, depth, p) {
    }
  }

  lemma AllFirst(bps: seq<Walked>, t: Tree, base: seq<string>, depth: nat, isSemver: string -> bool)
    requires t.Dir? && WellFormed(t) && depth <= MAX_DEPTH && ExactFirst(bps, t, |t.entries|, base, depth, isSemver)
    ensures ExactTree(bps, t, base, depth, isSemver)
  {
    hide WellFormed, Resolve, Qualifies, EntryQualifies, Distinct, PathsOf, Stamped;
    forall p ensures Qualifies(t, depth, p) <==> AmongFirst(t, |t.entries|, depth, p) {
      QualifiedDir(t, depth, p);
      if Qualifies(t, depth, p) {
        FirstSegment(t, p);
        var i :| 0 <= i < |t.entries| && t.entries[i].name == p[0];
        EntryMeets(t, i, depth, p);
      }
      if AmongFirst(t, |t.entries|, depth, p) {
        var i :| 0 <= i < |t.entries| && EntryQualifies(t.entries[i], depth, p);
        EntryQualifiesNonEmpty(t.entries[i], depth, p);
        EntryMeets(t, i, depth, p);
      }
    }
  }

  // ---------------------------------------------------------------- The whole tree

  /** The blueprints of a checkout: directories of one to three plain segments
      with a manifest and no manifest above them. */
  ghost predicate IsBlueprint(t: Tree, path: seq<string>)
  {
    && 1 <= |path| <= 3 && Plain(path) && ManifestAt(t, path)
    && forall k :: 0 < k < |path| ==> !ManifestAt(t, path[..k])
  }

  lemma {:induction false} NamesOnPath(t: Tree, path: seq<string>)
    requires WellFormed(t) && DirAt(t, path)
    ensures forall i :: 0 <= i < |path| ==> path[i] != "" && SLASH !in path[i]
    decreases |path|
  {
    if path != [] {
      FirstSegment(t, path);
      var i :| 0 <= i < |t.entries| && t.entries[i].name == path[0];
      ManifestsStep(t, i, path);
      NamesOnPath(t.entries[i].tree, path[1..]);
      assert path == [path[0]] + path[1..];
    }
  }

  lemma ReadIDs(mf: ManifestFile, isSemver: string -> bool)
    requires WalkBlueprint(mf, isSemver).Some?
    ensures Manifest.IsManifestID(WalkBlueprint(mf, isSemver).value.id)
  {
  }

  /** A successful walk from the root finds exactly the blueprints; every id is the
      path, and no two blueprints share an id. */
  lemma BlueprintsFound(t: Tree, isSemver: string -> bool)
    requires WellFormed(t) && Walk(t, [], 0, isSemver).Found?
    ensures var bps := Walk(t, [], 0, isSemver).bps;
            && (forall p :: p in PathsOf(bps) <==> IsBlueprint(t, p))
            && (forall w :: w in bps ==> w.manifest.id == Join(w.path, SLASH) && Split(w.manifest.id, SLASH) == w.path)
            && (forall w :: w in bps ==> Manifest.IsManifestID(w.manifest.id))
            && (forall i, j :: 0 <= i < j < |bps| ==> bps[i].manifest.id != bps[j].manifest.id)
  {
    WalkExact(t, [], 0, isSemver);
    hide Walk, WellFormed, Resolve, WalkBlueprint, Join, Plain;
    var bps := Walk(t, [], 0, isSemver).bps;
    forall p: seq<string> ensures [] <= p && p[0..] == p && (Qualifies(t, 0, p) <==> IsBlueprint(t, p)) {
    }
    forall w | w in bps
      ensures w.manifest.id == Join(w.path, SLASH) && Split(w.manifest.id, SLASH) == w.path
        && Manifest.IsManifestID(w.manifest.id)
    {
      assert Stamped(w, t, [], isSemver);
      ReadIDs(Resolve(t, w.path).value.manifest, isSemver);
      var i :| 0 <= i < |bps| && bps[i] == w;
      assert PathsOf(bps)[i] == w.path;
      assert Qualifies(t, 0, w.path);
      NamesOnPath(t, w.path);
      SplitJoin(w.path, SLASH);
    }
    forall i, j | 0 <= i < j < |bps| ensures bps[i].manifest.id != bps[j].manifest.id {
      assert PathsOf(bps)[i] != PathsOf(bps)[j];
      assert bps[i] in bps && bps[j] in bps;
    }
  }
}

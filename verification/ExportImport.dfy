/** ExportBlueprint followed by ImportBlueprint (ludus-api/api_blueprint_management.go)
    gives the blueprint back. */
module ExportImport {
  import opened Text
  import opened Paths
  import opened Extract
  import opened Manifest
  import opened Options

  datatype Node = DirNode | FileNode(data: string)

  /** A blueprint directory: every path below it, by components. */
  type Nodes = map<seq<string>, Node>

  const MANIFEST_PATH := ["blueprint.yml"]
  const CONFIG_PATH := ["range-config.yml"]
  const REQUIREMENTS_PATH := ["requirements.yml"]

  ghost predicate Plainly(c: string)
  {
    Proper(c) && c != ".." && !HasPrefix(c, "._")
  }

  /** A directory as a file system holds it: proper names, every parent a
      directory, blueprint.yml not a directory, no AppleDouble names. */
  ghost predicate WellFormed(nodes: Nodes)
  {
    && (forall cs :: cs in nodes ==> cs != [] && forall i :: 0 <= i < |cs| ==> Plainly(cs[i]))
    && (forall cs, k :: cs in nodes && 1 <= k < |cs| ==> cs[..k] in nodes && nodes[cs[..k]].DirNode?)
    && (MANIFEST_PATH in nodes ==> nodes[MANIFEST_PATH].FileNode?)
  }

  // ---------------------------------------------------------------- Export

  function NodeEntry(prefix: string, cs: seq<string>, n: Node): Entry
  {
    var name := JoinPath(prefix, Join(cs, SEP));
    if n.DirNode? then Entry(name, Directory, "", None, 0, false) else Entry(name, Regular, n.data, None, 0, false)
  }

  function ManifestEntry(prefix: string, data: string): Entry
  {
    Entry(JoinPath(prefix, "blueprint.yml"), Regular, data, None, 0, false)
  }

  function Walked(nodes: Nodes, prefix: string, walk: seq<seq<string>>): seq<Entry>
    requires forall i :: 0 <= i < |walk| ==> walk[i] in nodes
  {
    if walk == [] then []
    else
      var last := walk[|walk| - 1];
      Walked(nodes, prefix, walk[..|walk| - 1])
        + (if last == MANIFEST_PATH then [] else [NodeEntry(prefix, last, nodes[last])])
  }

  /** `walk` is the order filepath.Walk visits the directory in. */
  method ExportBlueprint(nodes: Nodes, walk: seq<seq<string>>, meta: Meta, marshal: BlueprintManifest -> string)
    returns (entries: seq<Entry>)
    requires forall i :: 0 <= i < |walk| ==> walk[i] in nodes
    ensures var prefix := SanitiseExportFilename(meta.id);
            entries == [ManifestEntry(prefix, marshal(ManifestOf(meta)))] + Walked(nodes, prefix, walk)
  {
    var prefix := SanitiseExportFilename(meta.id);
    var manifest := ManifestOf(meta);
    entries := [ManifestEntry(prefix, marshal(manifest))];
    for i := 0 to |walk|
      invariant entries == [ManifestEntry(prefix, marshal(manifest))] + Walked(nodes, prefix, walk[..i])
    {
      hide NodeEntry, ManifestEntry;
      assert walk[..i + 1][..i] == walk[..i];
      if walk[i] == MANIFEST_PATH {
        continue;
      }
      entries := entries + [NodeEntry(prefix, walk[i], nodes[walk[i]])];
    }
    assert walk[..|walk|] == walk;
  }

  // ---------------------------------------------------------------- Import

  datatype Imported = BadArchive | BadBlueprint | Taken | SaveError | Stored(meta: Meta, nodes: Nodes)

  function TopNames(b: Below): set<string>
  {
    (set cs | cs in b.files && cs != [] :: cs[0]) + (set cs | cs in b.dirs && cs != [] :: cs[0])
  }

  predicate HasPath(b: Below, cs: seq<string>)
  {
    cs in b.files || cs in b.dirs
  }

  /** The wrapper directory, when the archive has exactly one and it holds a manifest. */
  predicate IsWrapper(b: Below, name: string)
  {
    TopNames(b) == {name} && [name] in b.dirs && [name] !in b.files && HasPath(b, [name, "blueprint.yml"])
  }

  function FilesUnder(b: Below, base: seq<string>): map<seq<string>, string>
  {
    map rel | rel in (set cs | cs in b.files && base < cs :: cs[|base|..])
      && base + rel in b.files :: b.files[base + rel]
  }

  function DirsUnder(b: Below, base: seq<string>): set<seq<string>>
  {
    set cs | cs in b.dirs && base < cs :: cs[|base|..]
  }

  function NodesUnder(b: Below, base: seq<string>): Nodes
  {
    var files, dirs := FilesUnder(b, base), DirsUnder(b, base);
    map cs | cs in files.Keys + dirs :: if cs in files then FileNode(files[cs]) else DirNode
  }

  /** WalkBlueprintDir on an extracted directory: parse the manifest, and require
      its config file and readable requirements. */
  function WalkBlueprintDir(nodes: Nodes, unmarshal: string -> Option<BlueprintManifest>,
                            isSemver: string -> bool): Manifest.Parsed
  {
    if MANIFEST_PATH !in nodes || nodes[MANIFEST_PATH].DirNode? then Rejected
    else if unmarshal(nodes[MANIFEST_PATH].data).None? then Rejected
    else
      var parsed := ParseBlueprintManifest(unmarshal(nodes[MANIFEST_PATH].data).value, isSemver);
      if parsed.Rejected? then Rejected
      else if Comps(parsed.m.config) !in nodes then Rejected
      else if REQUIREMENTS_PATH in nodes && nodes[REQUIREMENTS_PATH].DirNode? then Rejected
      else parsed
  }

  method ImportBlueprint(entries: seq<Entry>, tmpDir: string, unmarshal: string -> Option<BlueprintManifest>,
                         isSemver: string -> bool, taken: string -> bool, storeOk: bool)
    returns (r: Imported)
    ensures Plain(Below(map[], {}), tmpDir, "", entries) ==>
      var b := PlaceAll(Below(map[], {}), tmpDir, "", entries);
      exists base :: Chosen(b, base) && r == Outcome(NodesUnder(b, base), unmarshal, isSemver, taken, storeOk)
    ensures !r.BadArchive? ==>
      var b := PlaceAll(Below(map[], {}), tmpDir, "", entries);
      exists base :: Chosen(b, base) && r == Outcome(NodesUnder(b, base), unmarshal, isSemver, taken, storeOk)
  {
    var out := new OutDir();
    var v, reached := ExtractTarReaderWithRoot(entries, tmpDir, true, "", None, out);
    if !v.Success? {
      return BadArchive;
    }
    assert entries[..|entries|] == entries;
    var base: seq<string> := [];
    if |TopNames(out.below)| == 1 {
      var name :| name in TopNames(out.below);
      OneMember(TopNames(out.below), name);
      if [name] in out.below.dirs && [name] !in out.below.files && HasPath(out.below, [name, "blueprint.yml"]) {
        base := [name];
      }
    }
    assert Chosen(out.below, base) by {
      if base == [] {
        forall n ensures !Wraps(out.below, n) {
          WrapsIff(out.below, n);
          WrapperIsTop(out.below, n);
        }
      } else {
        WrapsIff(out.below, base[0]);
      }
    }
    r := Outcome(NodesUnder(out.below, base), unmarshal, isSemver, taken, storeOk);
  }

  /** Everything extracted lies in one directory, which holds a blueprint.yml of any kind. */
  ghost predicate Wraps(b: Below, n: string)
  {
    && [n] in b.dirs && [n] !in b.files && ([n, "blueprint.yml"] in b.files || [n, "blueprint.yml"] in b.dirs)
    && forall cs :: (cs in b.files || cs in b.dirs) && cs != [] ==> cs[0] == n
  }

  lemma WrapsIff(b: Below, n: string)
    ensures IsWrapper(b, n) <==> Wraps(b, n)
  {
    if Wraps(b, n) {
      assert n in TopNames(b) by {
        assert [n][0] == n;
      }
      forall x | x in TopNames(b) ensures x == n {
      }
    }
    if IsWrapper(b, n) {
      forall cs | (cs in b.files || cs in b.dirs) && cs != [] ensures cs[0] == n {
        assert cs[0] in TopNames(b);
      }
    }
  }

  /** The wrapper when there is one, else the top of the archive. */
  ghost predicate Chosen(b: Below, base: seq<string>)
  {
    (exists n :: base == [n] && Wraps(b, n)) || (base == [] && forall n :: !Wraps(b, n))
  }

  function Outcome(nodes: Nodes, unmarshal: string -> Option<BlueprintManifest>, isSemver: string -> bool,
                   taken: string -> bool, storeOk: bool): Imported
  {
    var parsed := WalkBlueprintDir(nodes, unmarshal, isSemver);
    if parsed.Rejected? then BadBlueprint
    else if taken(parsed.m.id) then Taken
    else if !storeOk then SaveError
    else Stored(MetaOf(parsed.m), nodes)
  }

  lemma WrapperIsTop(b: Below, n: string)
    ensures IsWrapper(b, n) ==> |TopNames(b)| == 1 && n in TopNames(b)
  {
    hide TopNames;
    assert |{n}| == 1;
  }

  lemma OneMember(s: set<string>, x: string)
    requires |s| == 1 && x in s
    ensures s == {x}
  {
    assert |s - {x}| == 0;
  }
}

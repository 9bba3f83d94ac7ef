/** The proof of the export/import round trip. */
module ExportRoundTrip {
  import opened Text
  import opened Paths
  import opened Archive
  import opened Extract
  import opened Manifest
  import opened ExportImport
  import opened Options

  // ---------------------------------------------------------------- One entry

  ghost predicate Wrapper(p: string)
  {
    Plainly(p) && IsLetter(p[0])
  }

  ghost predicate PlainPath(cs: seq<string>)
  {
    cs != [] && forall i :: 0 <= i < |cs| ==> Plainly(cs[i])
  }

  lemma {:induction false} JoinEndsIn(cs: seq<string>)
    requires cs != [] && Proper(cs[|cs| - 1])
    ensures Join(cs, SEP) != "" && Join(cs, SEP)[|Join(cs, SEP)| - 1] != SEP
  {
    if |cs| > 1 {
      JoinEndsIn(cs[1..]);
    } else {
      assert cs[0][|cs[0]| - 1] in cs[0];
    }
  }

  lemma BaseOfJoin(cs: seq<string>)
    requires PlainPath(cs)
    ensures Base(Join(cs, SEP)) == cs[|cs| - 1]
  {
    JoinEndsIn(cs);
    SplitJoin(cs, SEP);
  }

  /** The name an export gives a path reads back as that path under the wrapper. */
  lemma EntryName(p: string, cs: seq<string>)
    requires Wrapper(p) && PlainPath(cs)
    ensures JoinPath(p, Join(cs, SEP)) == Join([p] + cs, SEP)
    ensures StripPrefixSegment(Join([p] + cs, SEP), "") == Join([p] + cs, SEP)
    ensures Comps(Join([p] + cs, SEP)) == [p] + cs && Acceptable(Join([p] + cs, SEP))
    ensures !IsMacOSAppleDouble(Join([p] + cs, SEP))
  {
    var all := [p] + cs;
    OneComponent(p);
    JoinDownward(p, cs);
    assert PlainPath(all);
    assert Tidy(all, false);
    RenderedComps(all, false);
    JoinStart(all);
    BaseOfJoin(all);
    var name := Join(all, SEP);
    assert name[0] == p[0] && IsLetter(name[0]);
    assert |all| > 1 && SEP in name;
  }

  lemma NodePlaced(dest: string, p: string, cs: seq<string>, n: Node)
    requires GoodDest(dest) && Wrapper(p) && PlainPath(cs)
    ensures var e := NodeEntry(p, cs, n);
            && Placement(dest, "", e).Target? && !Ignored(dest, "", e) && Keys("", e) == [p] + cs
            && e.readable.None? && (e.kind.Regular? || e.kind.Directory?)
            && (n.DirNode? <==> e.kind.Directory?) && (n.FileNode? ==> e.data == n.data)
  {
    EntryName(p, cs);
    SecondCheckIff(dest, Join([p] + cs, SEP));
  }

  // ---------------------------------------------------------------- Lists of paths and nodes

  datatype Item = Item(path: seq<string>, node: Node)

  function EntriesOf(p: string, items: seq<Item>): seq<Entry>
  {
    if items == [] then []
    else EntriesOf(p, items[..|items| - 1]) + [NodeEntry(p, items[|items| - 1].path, items[|items| - 1].node)]
  }

  function ItemsOf(nodes: Nodes, walk: seq<seq<string>>): seq<Item>
    requires forall i :: 0 <= i < |walk| ==> walk[i] in nodes
  {
    if walk == [] then []
    else
      var last := walk[|walk| - 1];
      ItemsOf(nodes, walk[..|walk| - 1]) + (if last == MANIFEST_PATH then [] else [Item(last, nodes[last])])
  }

  lemma EntriesSnoc(p: string, items: seq<Item>, x: Item)
    ensures EntriesOf(p, items + [x]) == EntriesOf(p, items) + [NodeEntry(p, x.path, x.node)]
  {
    assert (items + [x])[..|items|] == items;
  }

  lemma {:induction false} ExportedItems(nodes: Nodes, p: string, walk: seq<seq<string>>, data: string)
    requires forall i :: 0 <= i < |walk| ==> walk[i] in nodes
    ensures [ManifestEntry(p, data)] + Walked(nodes, p, walk)
         == EntriesOf(p, [Item(MANIFEST_PATH, FileNode(data))] + ItemsOf(nodes, walk))
  {
    var first := [Item(MANIFEST_PATH, FileNode(data))];
    if walk == [] {
      assert Join(MANIFEST_PATH, SEP) == "blueprint.yml";
      assert first[..0] == [];
      assert first + [] == first;
      assert EntriesOf(p, first) == EntriesOf(p, []) + [NodeEntry(p, MANIFEST_PATH, FileNode(data))];
    } else {
      hide NodeEntry, ManifestEntry;
      var front, last := walk[..|walk| - 1], walk[|walk| - 1];
      ExportedItems(nodes, p, front, data);
      if last == MANIFEST_PATH {
        assert Walked(nodes, p, front) + [] == Walked(nodes, p, front);
        assert ItemsOf(nodes, front) + [] == ItemsOf(nodes, front);
      } else {
        EntriesSnoc(p, first + ItemsOf(nodes, front), Item(last, nodes[last]));
        assert first + (ItemsOf(nodes, front) + [Item(last, nodes[last])])
          == first + ItemsOf(nodes, front) + [Item(last, nodes[last])];
        assert [ManifestEntry(p, data)] + (Walked(nodes, p, front) + [NodeEntry(p, last, nodes[last])])
            == [ManifestEntry(p, data)] + Walked(nodes, p, front) + [NodeEntry(p, last, nodes[last])];
      }
    }
  }

  lemma {:induction false} ItemsMembers(nodes: Nodes, walk: seq<seq<string>>)
    requires forall i :: 0 <= i < |walk| ==> walk[i] in nodes
    ensures forall x :: x in ItemsOf(nodes, walk) <==>
      x.path in walk && x.path != MANIFEST_PATH && x.node == nodes[x.path]
  {
    if walk != [] {
      ItemsMembers(nodes, walk[..|walk| - 1]);
      assert walk == walk[..|walk| - 1] + [walk[|walk| - 1]];
    }
  }

  // ---------------------------------------------------------------- What extraction builds

  /** Everything extracted so far belongs to the tree t under the wrapper. */
  ghost predicate PartOf(b: Below, p: string, t: Nodes)
  {
    && (forall f :: f in b.files ==> |f| > 1 && f[0] == p && f[1..] in t && t[f[1..]] == FileNode(b.files[f]))
    && (forall d :: d in b.dirs ==> d == [p] || (|d| > 1 && d[0] == p && d[1..] in t && t[d[1..]].DirNode?))
  }

  lemma ParentsOf(p: string, cs: seq<string>, t: Nodes)
    requires WellFormed(t) && cs in t
    ensures forall d :: d in Parents([p] + cs) ==>
      d == [p] || (|d| > 1 && d[0] == p && d[1..] in t && t[d[1..]].DirNode?)
    ensures [p] in Parents([p] + cs)
  {
    var all := [p] + cs;
    forall k | 1 <= k < |all| ensures all[..k] == [p] || (all[..k][1..] in t && t[all[..k][1..]].DirNode?) {
      if k > 1 {
        assert all[..k][1..] == cs[..k - 1];
      }
    }
    assert all[..1] == [p];
  }

  lemma ItemClear(b: Below, p: string, t: Nodes, cs: seq<string>)
    requires WellFormed(t) && cs in t && PartOf(b, p, t)
    ensures Clear(b, [p] + cs, t[cs].DirNode?)
  {
    var all := [p] + cs;
    ParentsOf(p, cs, t);
    forall k | 1 <= k < |all| ensures all[..k] !in b.files {
      assert all[..k] in Parents(all);
    }
    assert all[1..] == cs;
  }

  /** What placing an item makes of what lies below the destination. */
  function WithItem(b: Below, p: string, x: Item): Below
  {
    var cs := [p] + x.path;
    if x.node.DirNode? then Below(b.files, b.dirs + Parents(cs) + {cs})
    else Below(b.files[cs := x.node.data], b.dirs + Parents(cs))
  }

  lemma ItemKeepsTree(b: Below, p: string, t: Nodes, x: Item)
    requires WellFormed(t) && PartOf(b, p, t) && x.path in t && t[x.path] == x.node
    ensures var c := WithItem(b, p, x);
            && Clear(b, [p] + x.path, x.node.DirNode?) && PartOf(c, p, t) && [p] in c.dirs
            && (x.node.FileNode? ==> [p] + x.path in c.files) && (x.node.DirNode? ==> [p] + x.path in c.dirs)
            && b.files.Keys <= c.files.Keys && b.dirs <= c.dirs
  {
    hide Clear, PartOf;
    assert x.path != [];
    ItemClear(b, p, t, x.path);
    ParentsOf(p, x.path, t);
    assert ([p] + x.path)[..1] == [p];
    PartOfStep(b, p, t, x, Parents([p] + x.path));
  }

  lemma EntryIsItem(b: Below, dest: string, p: string, x: Item)
    requires GoodDest(dest) && Wrapper(p) && PlainPath(x.path) && Clear(b, [p] + x.path, x.node.DirNode?)
    ensures Fits(b, dest, "", NodeEntry(p, x.path, x.node))
    ensures PlaceOne(b, dest, "", NodeEntry(p, x.path, x.node)) == WithItem(b, p, x)
  {
    hide NodeEntry, Placement, Ignored, Keys, Clear, GoodDest, Parents, PlaceOne;
    NodePlaced(dest, p, x.path, x.node);
    PlaceKept(b, dest, "", NodeEntry(p, x.path, x.node));
  }

  lemma PartOfStep(b: Below, p: string, t: Nodes, x: Item, parents: set<seq<string>>)
    requires PartOf(b, p, t) && x.path in t && t[x.path] == x.node && x.path != []
    requires forall d :: d in parents ==> d == [p] || (|d| > 1 && d[0] == p && d[1..] in t && t[d[1..]].DirNode?)
    ensures PartOf(if x.node.DirNode? then Below(b.files, b.dirs + parents + {[p] + x.path})
                   else Below(b.files[[p] + x.path := x.node.data], b.dirs + parents), p, t)
  {
    assert ([p] + x.path)[1..] == x.path;
  }

  lemma PlainSnoc(b: Below, dest: string, es: seq<Entry>, e: Entry)
    requires Plain(b, dest, "", es) && Fits(PlaceAll(b, dest, "", es), dest, "", e)
    ensures Plain(b, dest, "", es + [e])
    ensures PlaceAll(b, dest, "", es + [e]) == PlaceOne(PlaceAll(b, dest, "", es), dest, "", e)
  {
    hide Fits, PlaceOne;
    var all := es + [e];
    assert all[..|es|] == es;
    forall i | 0 <= i < |all| ensures Fits(PlaceAll(b, dest, "", all[..i]), dest, "", all[i]) {
      assert all[..i] == es[..i];
    }
  }

  /** Everything placed, and every item on disk, after the whole list. */
  lemma {:induction false} ItemsPlaced(dest: string, p: string, t: Nodes, items: seq<Item>)
    requires GoodDest(dest) && Wrapper(p) && WellFormed(t)
    requires forall i :: 0 <= i < |items| ==> items[i].path in t && t[items[i].path] == items[i].node
    ensures var b := PlaceAll(Below(map[], {}), dest, "", EntriesOf(p, items));
            && PartOf(b, p, t) && (items != [] ==> [p] in b.dirs)
            && (forall x :: x in items ==> if x.node.FileNode? then [p] + x.path in b.files else [p] + x.path in b.dirs)
    ensures Plain(Below(map[], {}), dest, "", EntriesOf(p, items))
  {
    hide NodeEntry, PlaceOne, Fits, Plain, PartOf, WellFormed, GoodDest, Wrapper, WithItem, PlainPath, Clear;
    if items == [] {
      NothingPlaced(dest, p, t);
    } else {
      var front, x := items[..|items| - 1], items[|items| - 1];
      assert forall i :: 0 <= i < |front| ==> front[i] == items[i];
      ItemsPlaced(dest, p, t, front);
      assert items == front + [x];
      var es, e := EntriesOf(p, front), NodeEntry(p, x.path, x.node);
      var b := PlaceAll(Below(map[], {}), dest, "", es);
      ItemKeepsTree(b, p, t, x);
      NodePath(t, x.path);
      EntryIsItem(b, dest, p, x);
      PlainSnoc(Below(map[], {}), dest, es, e);
    }
  }

  lemma NodePath(t: Nodes, cs: seq<string>)
    requires WellFormed(t) && cs in t
    ensures PlainPath(cs)
  {
  }

  lemma NothingPlaced(dest: string, p: string, t: Nodes)
    ensures PartOf(PlaceAll(Below(map[], {}), dest, "", []), p, t) && Plain(Below(map[], {}), dest, "", [])
  {
  }

  // ---------------------------------------------------------------- Reading it back

  /** A disk that holds exactly the tree under the wrapper reads back as the tree. */
  lemma ReadsBack(b: Below, p: string, t: Nodes)
    requires PartOf(b, p, t) && [p] in b.dirs && [p] !in b.files
    requires forall cs :: cs in t ==> cs != [] && if t[cs].FileNode? then [p] + cs in b.files else [p] + cs in b.dirs
    ensures NodesUnder(b, [p]) == t
  {
    var files, dirs := FilesUnder(b, [p]), DirsUnder(b, [p]);
    forall cs ensures cs in files.Keys + dirs <==> cs in t {
      assert ([p] + cs)[1..] == cs;
      if cs in t {
        assert [p] < [p] + cs && ([p] + cs)[|[p]|..] == cs;
      }
    }
    forall cs | cs in t ensures NodesUnder(b, [p])[cs] == t[cs] {
      assert ([p] + cs)[1..] == cs && [p] < [p] + cs;
    }
  }

  lemma OnlyWrapper(b: Below, p: string, t: Nodes)
    requires PartOf(b, p, t) && [p] in b.dirs && [p] !in b.files && [p] + MANIFEST_PATH in b.files
    ensures IsWrapper(b, p)
    ensures forall base :: Chosen(b, base) ==> base == [p]
  {
    assert [p] + MANIFEST_PATH == [p, "blueprint.yml"];
    assert TopNames(b) == {p} by {
      assert [p] in b.dirs && [p][0] == p;
    }
    assert IsWrapper(b, p);
    forall n ensures Wraps(b, n) <==> IsWrapper(b, n) {
      WrapsIff(b, n);
    }
    forall n | IsWrapper(b, n) ensures n == p {
      assert n in TopNames(b);
    }
    hide IsWrapper, Wraps;
    forall base | Chosen(b, base) ensures base == [p] {
    }
  }

  /** What an import of the tree t answers, once its archive is extracted. */
  lemma OutcomeOf(nodes: Nodes, meta: Meta, data: string, unmarshal: string -> Option<BlueprintManifest>,
                  isSemver: string -> bool, taken: string -> bool, storeOk: bool)
    requires unmarshal(data) == Some(ManifestOf(meta))
    ensures var t := nodes[MANIFEST_PATH := FileNode(data)];
            Outcome(t, unmarshal, isSemver, taken, storeOk) == Expected(nodes, meta, t, isSemver, taken, storeOk)
  {
    hide ParseBlueprintManifest, MetaOk, Comps, Clean;
    ExportedManifestIff(meta, isSemver);
    OneComponent("range-config.yml");
    assert CONFIG_PATH[0][0] == REQUIREMENTS_PATH[0][0] == 'r' && MANIFEST_PATH[0][0] == 'b';
    MetaRoundTrip(meta);
  }

  lemma MetaRoundTrip(meta: Meta)
    ensures MetaOf(ManifestOf(meta)) == meta
  {
  }

  /** The import stores the same metadata and the same tree, if and only if the
      metadata passes the manifest checks, the directory has its range config, and
      requirements.yml is not a directory; the id must be free and the save work. */
  function Expected(nodes: Nodes, meta: Meta, t: Nodes, isSemver: string -> bool, taken: string -> bool,
                    storeOk: bool): Imported
  {
    if MetaOk(meta, isSemver) && CONFIG_PATH in nodes
      && !(REQUIREMENTS_PATH in nodes && nodes[REQUIREMENTS_PATH].DirNode?) then
      if taken(meta.id) then Taken else if !storeOk then SaveError else Stored(meta, t)
    else BadBlueprint
  }

  ghost predicate Covers(walk: seq<seq<string>>, nodes: Nodes)
  {
    forall cs :: cs in walk <==> cs in nodes
  }

  lemma ExtractedTree(nodes: Nodes, walk: seq<seq<string>>, p: string, data: string, dest: string)
    requires WellFormed(nodes) && Covers(walk, nodes) && Wrapper(p) && GoodDest(dest)
    ensures var entries := [ManifestEntry(p, data)] + Walked(nodes, p, walk);
            var b := PlaceAll(Below(map[], {}), dest, "", entries);
            && Plain(Below(map[], {}), dest, "", entries)
            && (forall base :: Chosen(b, base) ==> NodesUnder(b, base) == nodes[MANIFEST_PATH := FileNode(data)])
  {
    var t := nodes[MANIFEST_PATH := FileNode(data)];
    var items := AllItems(nodes, walk, data);
    TreeStaysWellFormed(nodes, data);
    assert MANIFEST_PATH in t && t[MANIFEST_PATH].FileNode? && (forall cs :: cs in t ==> cs != []);
    hide PlaceAll, Plain, GoodDest, NodesUnder, ManifestEntry, WellFormed, Wrapper, PartOf, Chosen, EntriesOf, Walked,
      AllItems;
    ExportedItems(nodes, p, walk, data);
    ItemsOfTree(nodes, walk, data);
    ItemsPlaced(dest, p, t, items);
    var b := PlaceAll(Below(map[], {}), dest, "", EntriesOf(p, items));
    forall cs | cs in t ensures cs != [] && if t[cs].FileNode? then [p] + cs in b.files else [p] + cs in b.dirs {
      assert Item(cs, t[cs]) in items;
    }
    ReadsBack(b, p, t);
    OnlyWrapper(b, p, t);
  }

  /** The manifest first, then the walk. */
  function AllItems(nodes: Nodes, walk: seq<seq<string>>, data: string): seq<Item>
    requires forall i :: 0 <= i < |walk| ==> walk[i] in nodes
  {
    [Item(MANIFEST_PATH, FileNode(data))] + ItemsOf(nodes, walk)
  }

  /** They are exactly the nodes of the exported tree. */
  lemma ItemsOfTree(nodes: Nodes, walk: seq<seq<string>>, data: string)
    requires Covers(walk, nodes)
    ensures var t, items := nodes[MANIFEST_PATH := FileNode(data)], AllItems(nodes, walk, data);
            && items != []
            && (forall i :: 0 <= i < |items| ==> items[i].path in t && t[items[i].path] == items[i].node)
            && (forall cs :: cs in t ==> Item(cs, t[cs]) in items)
  {
    var t, items := nodes[MANIFEST_PATH := FileNode(data)], AllItems(nodes, walk, data);
    ItemsMembers(nodes, walk);
    forall i | 0 <= i < |items| ensures items[i].path in t && t[items[i].path] == items[i].node {
      if i > 0 {
        assert items[i] == ItemsOf(nodes, walk)[i - 1];
        assert items[i] in ItemsOf(nodes, walk);
      }
    }
    forall cs | cs in t ensures Item(cs, t[cs]) in items {
      if cs == MANIFEST_PATH {
        assert items[0] == Item(cs, t[cs]);
      } else {
        assert Item(cs, t[cs]) in ItemsOf(nodes, walk);
      }
    }
  }

  lemma TreeStaysWellFormed(nodes: Nodes, data: string)
    requires WellFormed(nodes)
    ensures WellFormed(nodes[MANIFEST_PATH := FileNode(data)])
  {
    var t := nodes[MANIFEST_PATH := FileNode(data)];
    var m := "blueprint.yml";
    assert m[0] == 'b' && SEP !in m;
    forall cs, k | cs in t && 1 <= k < |cs| ensures cs[..k] in t && t[cs[..k]].DirNode? {
      assert cs in nodes;
      assert cs[..k] != MANIFEST_PATH;
    }
  }

  /** Export, then import: the record's metadata and the directory come back, with
      the root blueprint.yml replaced by the manifest made from the record. */
  method ExportThenImport(nodes: Nodes, walk: seq<seq<string>>, meta: Meta, tmpDir: string,
                          marshal: BlueprintManifest -> string, unmarshal: string -> Option<BlueprintManifest>,
                          isSemver: string -> bool, taken: string -> bool, storeOk: bool)
    returns (r: Imported)
    requires WellFormed(nodes) && Covers(walk, nodes) && GoodDest(tmpDir) && IsManifestID(meta.id)
    requires unmarshal(marshal(ManifestOf(meta))) == Some(ManifestOf(meta))
    ensures r
      == Expected(nodes, meta, nodes[MANIFEST_PATH := FileNode(marshal(ManifestOf(meta)))], isSemver, taken, storeOk)
  {
    hide PlaceAll, Plain, GoodDest, NodesUnder, ManifestEntry, Outcome, Expected, SanitiseExportFilename, Chosen;
    assert forall i :: 0 <= i < |walk| ==> walk[i] in walk;
    var entries := ExportBlueprint(nodes, walk, meta, marshal);
    ghost var p, data := SanitiseExportFilename(meta.id), marshal(ManifestOf(meta));
    PrefixIsWrapper(meta.id);
    ExtractedTree(nodes, walk, p, data, tmpDir);
    OutcomeOf(nodes, meta, data, unmarshal, isSemver, taken, storeOk);
    r := ImportBlueprint(entries, tmpDir, unmarshal, isSemver, taken, storeOk);
  }

  lemma PrefixIsWrapper(id: string)
    requires IsManifestID(id)
    ensures Wrapper(SanitiseExportFilename(id))
  {
    PrefixIsComponent(id);
  }
}

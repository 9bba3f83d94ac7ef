/** A walked source: what its directories and documents say, and the names the
    install pipeline reads out of them (ludus-api/source_walker.go,
    source_schema.go, source_catalog.go, ansible_inventory.go). */
module Source {
  import opened Text
  import opened StringOrder
  import opened Options

  // ---------------------------------------------------------------- Documents

  datatype RoleMeta = RoleMeta(namespace: string, author: string, roleName: string)

  /** A directory under ansible/roles. `meta` is its parsed meta/main.yml. */
  datatype RoleDirRaw = RoleDir(base: string, meta: Option<RoleMeta>)
  type RoleDir = d: RoleDirRaw | d.base != "" witness RoleDir("role", None)

  /** A directory under ansible/collections with its parsed galaxy.yml. */
  datatype GalaxyManifest = GalaxyManifest(namespace: string, name: string)
  datatype CollectionDir = CollectionDir(base: string, galaxy: Option<GalaxyManifest>)

  datatype Requirement = Requirement(name: string, version: string, origin: string)
  datatype RequirementsDoc = RequirementsDoc(
    roles: seq<Requirement>, collections: seq<Requirement>, subscriptionRoles: seq<string>)

  /** requirements.yml: missing, rejected by the YAML decoder (which may have
      filled in part of the document first), or parsed. */
  datatype Requirements = Absent | Malformed(partial: RequirementsDoc) | Parsed(doc: RequirementsDoc)

  datatype RoleNode = Scalar(value: string) | Mapping(pairs: seq<(string, Option<string>)>) | OtherNode
  datatype VM = VM(template: string, roles: seq<RoleNode>)

  /** `manifest` is the blueprint's id, `config` the parsed range config; None
      when the file is missing, unreadable or not YAML. */
  datatype WalkedBlueprint = WalkedBlueprint(manifest: Option<string>, config: Option<seq<VM>>,
                                             requirements: Requirements)

  /** A template goes by the name in its packer file or else by its directory's, which is not empty. */
  type TemplateName = s: string | s != "" witness "template"

  datatype WalkedSource = WalkedSource(
    blueprints: seq<WalkedBlueprint>, templates: seq<TemplateName>,
    localRoles: seq<RoleDir>, localCollections: seq<CollectionDir>)

  // ---------------------------------------------------------------- Role and collection identity

  predicate IsTokenChar(c: char)
  {
    'a' <= c <= 'z' || 'A' <= c <= 'Z' || '0' <= c <= '9' || c == '_' || c == '-'
  }

  /** The characters of a token by their codes: digits, letters, hyphen and underscore. */
  lemma TokenCharIff(c: char)
    ensures var n := c as int;
      IsTokenChar(c) <==> 48 <= n <= 57 || 65 <= n <= 90 || 97 <= n <= 122 || n == 45 || n == 95
  {
  }

  predicate IsGalaxyToken(s: string)
  {
    s != "" && forall i :: 0 <= i < |s| ==> IsTokenChar(s[i])
  }

  function RoleGalaxyName(d: RoleDir): string
  {
    if d.meta.None? then ""
    else
      var ns := if Trim(d.meta.value.namespace) != "" then Trim(d.meta.value.namespace) else Trim(d.meta.value.author);
      var name := if Trim(d.meta.value.roleName) != "" then Trim(d.meta.value.roleName) else d.base;
      if IsGalaxyToken(ns) && IsGalaxyToken(name) then ns + "." + name else ""
  }

  lemma TokenHasNoDot(s: string)
    requires IsGalaxyToken(s)
    ensures '.' !in s
  {
  }

  /** A role has a published identity, author and name joined by a dot, exactly when
      its meta file gives it both parts: the namespace, or the author when there is
      none, and the role name, or the directory's name when there is none. */
  lemma GalaxyNameIff(d: RoleDir, ns: string, name: string)
    requires IsGalaxyToken(ns) && IsGalaxyToken(name)
    ensures RoleGalaxyName(d) == ns + "." + name <==>
      && d.meta.Some?
      && (Trim(d.meta.value.namespace) == ns || (Trim(d.meta.value.namespace) == "" && Trim(d.meta.value.author) == ns))
      && (Trim(d.meta.value.roleName) == name || (Trim(d.meta.value.roleName) == "" && d.base == name))
    ensures RoleGalaxyName(d) != "" ==>
      exists a, b :: IsGalaxyToken(a) && IsGalaxyToken(b) && RoleGalaxyName(d) == a + "." + b
  {
    if d.meta.Some? {
      var a := if Trim(d.meta.value.namespace) != "" then Trim(d.meta.value.namespace) else Trim(d.meta.value.author);
      var b := if Trim(d.meta.value.roleName) != "" then Trim(d.meta.value.roleName) else d.base;
      if IsGalaxyToken(a) && IsGalaxyToken(b) && a + "." + b == ns + "." + name {
        SplitTokens(a, b);
        SplitTokens(ns, name);
        assert Split(a + "." + b, '.')[0] == a && Split(a + "." + b, '.')[1] == b;
      }
    }
  }

  lemma SplitTokens(a: string, b: string)
    requires IsGalaxyToken(a) && IsGalaxyToken(b)
    ensures Split(a + "." + b, '.') == [a, b]
  {
    TokenHasNoDot(a);
    TokenHasNoDot(b);
    SplitPlainThen(a, '.', b);
    SplitPlain(b, '.');
    assert a + "." + b == a + ['.'] + b;
  }

  function LocalRoleName(d: RoleDir): (name: string)
    ensures name != ""
  {
    if RoleGalaxyName(d) != "" then RoleGalaxyName(d) else d.base
  }

  function CollectionName(d: CollectionDir): string
  {
    if d.galaxy.None? || d.galaxy.value.namespace == "" || d.galaxy.value.name == "" then ""
    else d.galaxy.value.namespace + "." + d.galaxy.value.name
  }

  /** localRoleNamesByRef: every name a reference may use, with the canonical name. */
  function RefMap(dirs: seq<RoleDir>): map<string, string>
  {
    if dirs == [] then map[]
    else
      var d := dirs[|dirs| - 1];
      RefMap(dirs[..|dirs| - 1])[d.base := LocalRoleName(d)][LocalRoleName(d) := LocalRoleName(d)]
  }

  /** Some directory goes by the name k, as its own or as its canonical one. */
  ghost predicate GoesBy(dirs: seq<RoleDir>, k: string)
  {
    exists d :: d in dirs && (k == d.base || k == LocalRoleName(d))
  }

  /** `dirs[i]` is the last directory that goes by the name k. */
  ghost predicate LastKnownAs(dirs: seq<RoleDir>, k: string, i: int)
  {
    && 0 <= i < |dirs| && (k == dirs[i].base || k == LocalRoleName(dirs[i]))
    && forall j :: i < j < |dirs| ==> k != dirs[j].base && k != LocalRoleName(dirs[j])
  }

  /** The map has exactly the names the directories go by, and gives each the
      canonical name of the last directory that goes by it. */
  lemma {:induction false} RefMapExact(dirs: seq<RoleDir>, k: string)
    ensures k in RefMap(dirs) <==> GoesBy(dirs, k)
    ensures k in RefMap(dirs) ==> exists i :: LastKnownAs(dirs, k, i) && RefMap(dirs)[k] == LocalRoleName(dirs[i])
  {
    hide LocalRoleName;
    if dirs != [] {
      var front, d := dirs[..|dirs| - 1], dirs[|dirs| - 1];
      RefMapExact(front, k);
      assert dirs == front + [d];
      if k == d.base || k == LocalRoleName(d) {
        assert LastKnownAs(dirs, k, |front|);
      } else if k in RefMap(front) {
        var i :| LastKnownAs(front, k, i) && RefMap(front)[k] == LocalRoleName(front[i]);
        assert LastKnownAs(dirs, k, i);
      }
    }
  }

  /** n is the canonical name of the last directory that goes by the name k. */
  ghost predicate KnownAs(dirs: seq<RoleDir>, k: string, n: string)
  {
    exists i :: LastKnownAs(dirs, k, i) && n == LocalRoleName(dirs[i])
  }

  lemma OnlyLast(dirs: seq<RoleDir>, k: string, i: int, j: int)
    requires LastKnownAs(dirs, k, i) && LastKnownAs(dirs, k, j)
    ensures i == j
  {
    hide LocalRoleName;
  }

  lemma RefMapMeans(dirs: seq<RoleDir>)
    ensures forall k, n :: KnownAs(dirs, k, n) <==> k in RefMap(dirs) && RefMap(dirs)[k] == n
    ensures forall k :: k in RefMap(dirs) <==> GoesBy(dirs, k)
  {
    hide LocalRoleName, RefMap;
    forall k ensures k in RefMap(dirs) <==> GoesBy(dirs, k) {
      RefMapExact(dirs, k);
    }
    forall k, i | LastKnownAs(dirs, k, i) ensures GoesBy(dirs, k) {
      assert dirs[i] in dirs;
    }
    forall k, n ensures KnownAs(dirs, k, n) <==> k in RefMap(dirs) && RefMap(dirs)[k] == n {
      RefMapExact(dirs, k);
      if k in RefMap(dirs) {
        var j :| LastKnownAs(dirs, k, j) && RefMap(dirs)[k] == LocalRoleName(dirs[j]);
        if i :| LastKnownAs(dirs, k, i) && n == LocalRoleName(dirs[i]) {
          OnlyLast(dirs, k, i, j);
        }
      }
    }
  }

  method LocalRoleNamesByRef(walked: WalkedSource) returns (out: map<string, string>)
    ensures out == RefMap(walked.localRoles)
    ensures forall k :: k in out <==> GoesBy(walked.localRoles, k)
    ensures forall k :: k in out ==> KnownAs(walked.localRoles, k, out[k])
  {
    out := map[];
    for i := 0 to |walked.localRoles|
      invariant out == RefMap(walked.localRoles[..i])
    {
      var d := walked.localRoles[i];
      var name := LocalRoleName(d);
      out := out[d.base := name];
      out := out[name := name];
      assert walked.localRoles[..i + 1][..i] == walked.localRoles[..i];
    }
    assert walked.localRoles[..|walked.localRoles|] == walked.localRoles;
    forall k
      ensures k in out <==> GoesBy(walked.localRoles, k)
      ensures k in out ==> KnownAs(walked.localRoles, k, out[k])
    {
      RefMapMeans(walked.localRoles);
    }
  }

  /** The names installUnionedAnsible strips from what it sends to Galaxy. */
  ghost function VendoredRoles(dirs: seq<RoleDir>): set<string>
  {
    (set d | d in dirs :: d.base) + (set d | d in dirs && RoleGalaxyName(d) != "" :: RoleGalaxyName(d))
  }

  /** The vendored roles by published identity, where it is not the directory's own name. */
  function PublishedRoles(dirs: seq<RoleDir>): map<string, RoleDir>
  {
    if dirs == [] then map[]
    else
      var d := dirs[|dirs| - 1];
      var front := PublishedRoles(dirs[..|dirs| - 1]);
      if RoleGalaxyName(d) in ["", d.base] then front else front[RoleGalaxyName(d) := d]
  }

  lemma PublishedSnoc(front: seq<RoleDir>, d: RoleDir)
    ensures PublishedRoles(front + [d])
         == if RoleGalaxyName(d) in ["", d.base] then PublishedRoles(front)
           else PublishedRoles(front)[RoleGalaxyName(d) := d]
  {
    hide RoleGalaxyName;
    assert (front + [d])[..|front|] == front;
  }

  lemma {:induction false} PublishedExact(dirs: seq<RoleDir>)
    ensures forall g :: g in PublishedRoles(dirs) <==>
      exists d :: d in dirs && RoleGalaxyName(d) == g && g !in ["", d.base]
    ensures forall g :: g in PublishedRoles(dirs) ==>
      exists i :: LastPublished(dirs, g, i) && PublishedRoles(dirs)[g] == dirs[i]
  {
    hide RoleGalaxyName;
    if dirs != [] {
      var front, last := dirs[..|dirs| - 1], dirs[|dirs| - 1];
      PublishedExact(front);
      assert dirs == front + [last];
      forall g | g in PublishedRoles(dirs)
        ensures exists i :: LastPublished(dirs, g, i) && PublishedRoles(dirs)[g] == dirs[i]
      {
        if RoleGalaxyName(last) == g && g !in ["", last.base] {
          assert LastPublished(dirs, g, |front|);
        } else {
          assert g in PublishedRoles(front);
          var i :| LastPublished(front, g, i) && PublishedRoles(front)[g] == front[i];
          assert LastPublished(dirs, g, i);
        }
      }
    }
  }

  /** `dirs[i]` is the last directory published as g under another name of its own. */
  ghost predicate LastPublished(dirs: seq<RoleDir>, g: string, i: int)
  {
    && 0 <= i < |dirs| && RoleGalaxyName(dirs[i]) == g && g !in ["", dirs[i].base]
    && forall j :: i < j < |dirs| ==> !(RoleGalaxyName(dirs[j]) == g && g != dirs[j].base)
  }

  lemma VendoredRolesSnoc(front: seq<RoleDir>, d: RoleDir)
    ensures VendoredRoles(front + [d]) == VendoredRoles(front) + {d.base}
      + (if RoleGalaxyName(d) != "" then {RoleGalaxyName(d)} else {})
  {
    hide RoleGalaxyName;
    var all := front + [d];
    assert forall x :: x in all <==> x in front || x == d;
  }

  method VendoredRoleNames(walked: WalkedSource) returns (names: set<string>, byGalaxy: map<string, RoleDir>)
    ensures names == VendoredRoles(walked.localRoles)
    ensures byGalaxy == PublishedRoles(walked.localRoles)
  {
    hide RoleGalaxyName, VendoredRoles, PublishedRoles;
    names := {};
    VendoredNothing();
    byGalaxy := map[];
    for i := 0 to |walked.localRoles|
      invariant names == VendoredRoles(walked.localRoles[..i])
      invariant byGalaxy == PublishedRoles(walked.localRoles[..i])
    {
      var d := walked.localRoles[i];
      var gname := RoleGalaxyName(d);
      ghost var front := walked.localRoles[..i];
      assert walked.localRoles[..i + 1] == front + [d];
      PublishedSnoc(front, d);
      names := names + {d.base};
      if gname != "" && gname != d.base {
        names := names + {gname};
        byGalaxy := byGalaxy[gname := d];
      }
      VendoredRolesSnoc(front, d);
    }
    assert walked.localRoles[..|walked.localRoles|] == walked.localRoles;
  }

  lemma VendoredNothing()
    ensures VendoredRoles([]) == {} && PublishedRoles([]) == map[]
  {
  }

  /** The reference map and the stripped names cover the same names; every value
      of the map is the canonical name of a shipped role. */
  lemma {:induction false} RefMapKeys(dirs: seq<RoleDir>)
    ensures RefMap(dirs).Keys == VendoredRoles(dirs)
    ensures forall k :: k in RefMap(dirs) ==> RefMap(dirs)[k] in (set d | d in dirs :: LocalRoleName(d))
    ensures forall k :: k in RefMap(dirs) ==> RefMap(dirs)[k] != ""
  {
    hide RoleGalaxyName, VendoredRoles;
    if dirs == [] {
      VendoredNothing();
    } else {
      var front, d := dirs[..|dirs| - 1], dirs[|dirs| - 1];
      RefMapKeys(front);
      assert dirs == front + [d];
      VendoredRolesSnoc(front, d);
      assert RefMap(dirs) == RefMap(front)[d.base := LocalRoleName(d)][LocalRoleName(d) := LocalRoleName(d)];
    }
  }

  /** A name that is stripped is one some vendored role goes by. */
  lemma StrippedKnown(dirs: seq<RoleDir>, k: string)
    ensures k in VendoredRoles(dirs) <==> GoesBy(dirs, k)
    ensures GoesBy(dirs, k) <==> exists n :: KnownAs(dirs, k, n)
  {
    RefMapKeys(dirs);
    RefMapMeans(dirs);
    hide KnownAs, GoesBy, RefMap, VendoredRoles;
    if k in RefMap(dirs) {
      assert KnownAs(dirs, k, RefMap(dirs)[k]);
    }
  }

  ghost function VendoredCollections(dirs: seq<CollectionDir>): set<string>
  {
    set d | d in dirs && CollectionName(d) != "" :: CollectionName(d)
  }

  /** The bundled collections are those whose galaxy.yml gives both parts of the name. */
  lemma VendoredCollectionsIff(dirs: seq<CollectionDir>, x: string)
    ensures x in VendoredCollections(dirs) <==>
      exists d :: d in dirs && d.galaxy.Some? && d.galaxy.value.namespace != "" && d.galaxy.value.name != ""
        && x == d.galaxy.value.namespace + "." + d.galaxy.value.name
  {
  }

  method VendoredCollectionFQCNs(walked: WalkedSource) returns (out: set<string>)
    ensures out == VendoredCollections(walked.localCollections)
  {
    out := {};
    for i := 0 to |walked.localCollections|
      invariant out == VendoredCollections(walked.localCollections[..i])
    {
      var d := walked.localCollections[i];
      ghost var front := walked.localCollections[..i];
      assert walked.localCollections[..i + 1] == front + [d];
      if CollectionName(d) != "" {
        out := out + {CollectionName(d)};
      }
      assert VendoredCollections(front + [d])
        == VendoredCollections(front) + (if CollectionName(d) != "" then {CollectionName(d)} else {});
    }
    assert walked.localCollections[..|walked.localCollections|] == walked.localCollections;
  }

  // ---------------------------------------------------------------- Range config references

  function FirstName(pairs: seq<(string, Option<string>)>): string
  {
    if pairs == [] then ""
    else if pairs[0].0 == "name" && pairs[0].1.Some? then pairs[0].1.value
    else FirstName(pairs[1..])
  }

  function RoleNameFromNode(n: RoleNode): string
  {
    match n
    case Scalar(value) => value
    case Mapping(pairs) => FirstName(pairs)
    case OtherNode => ""
  }

  ghost function TemplateRefs(vms: seq<VM>): set<string>
  {
    set vm | vm in vms && vm.template != "" :: vm.template
  }

  ghost function NodeNames(nodes: seq<RoleNode>): set<string>
  {
    set n | n in nodes && RoleNameFromNode(n) != "" :: RoleNameFromNode(n)
  }

  ghost function RoleRefs(vms: seq<VM>): set<string>
  {
    set vm, name | vm in vms && name in NodeNames(vm.roles) :: name
  }

  /** A role written as a mapping goes by its first "name" with a text. */
  lemma {:induction false} NodeNameIs(pairs: seq<(string, Option<string>)>, i: nat)
    requires i < |pairs| && pairs[i].0 == "name" && pairs[i].1.Some?
    requires forall j :: 0 <= j < i ==> !(pairs[j].0 == "name" && pairs[j].1.Some?)
    ensures RoleNameFromNode(Mapping(pairs)) == pairs[i].1.value
  {
    if i > 0 {
      assert forall j :: 0 <= j < |pairs| - 1 ==> pairs[1..][j] == pairs[j + 1];
      NodeNameIs(pairs[1..], i - 1);
    }
  }

  /** Any other node names no role, except a text, which is the name. */
  lemma {:induction false} NodeNameless(pairs: seq<(string, Option<string>)>, text: string)
    requires forall p :: p in pairs ==> !(p.0 == "name" && p.1.Some?)
    ensures RoleNameFromNode(Mapping(pairs)) == "" && RoleNameFromNode(OtherNode) == ""
    ensures RoleNameFromNode(Scalar(text)) == text
  {
    if pairs != [] {
      assert pairs[0] in pairs;
      NodeNameless(pairs[1..], text);
    }
  }

  /** The names a config references: each once, in ascending order, whatever
      order the sets were walked in. */
  method InferFromRangeConfig(vms: seq<VM>) returns (templates: seq<string>, roles: seq<string>)
    ensures Ascending(templates) && Elements(templates) == TemplateRefs(vms)
    ensures Ascending(roles) && Elements(roles) == RoleRefs(vms)
  {
    hide TemplateRefs, RoleRefs, NodeNames;
    NoRefs();
    assert vms[..0] == [];
    var tSet: set<string>, rSet: set<string> := {}, {};
    for i := 0 to |vms|
      invariant tSet == TemplateRefs(vms[..i])
      invariant rSet == RoleRefs(vms[..i])
    {
      var vm := vms[i];
      ghost var front := vms[..i];
      assert vms[..i + 1] == front + [vm];
      if vm.template != "" {
        tSet := tSet + {vm.template};
      }
      RefsSnoc(front, vm);
      assert vm.roles[..0] == [];
      for j := 0 to |vm.roles|
        invariant rSet == RoleRefs(front) + NodeNames(vm.roles[..j])
      {
        var name := RoleNameFromNode(vm.roles[j]);
        assert vm.roles[..j + 1] == vm.roles[..j] + [vm.roles[j]];
        if name != "" {
          rSet := rSet + {name};
        }
        NamesSnoc(vm.roles[..j], vm.roles[j]);
      }
      assert vm.roles[..|vm.roles|] == vm.roles;
    }
    assert vms[..|vms|] == vms;
    templates := SortedMembers(tSet);
    roles := SortedMembers(rSet);
  }

  lemma NoRefs()
    ensures TemplateRefs([]) == {} && RoleRefs([]) == {} && NodeNames([]) == {}
  {
  }

  lemma RefsSnoc(front: seq<VM>, vm: VM)
    ensures TemplateRefs(front + [vm]) == TemplateRefs(front) + (if vm.template != "" then {vm.template} else {})
    ensures RoleRefs(front + [vm]) == RoleRefs(front) + NodeNames(vm.roles)
  {
  }

  lemma NamesSnoc(front: seq<RoleNode>, n: RoleNode)
    ensures NodeNames(front + [n])
      == NodeNames(front) + (if RoleNameFromNode(n) != "" then {RoleNameFromNode(n)} else {})
  {
  }

  /** The one list InferFromRangeConfig can return. */
  ghost function SortedList(s: set<string>): (xs: seq<string>)
    ensures Ascending(xs) && Elements(xs) == s
  {
    SortedListExists(s);
    var xs :| Ascending(xs) && Elements(xs) == s;
    xs
  }

  lemma SortedListExists(s: set<string>)
    ensures exists xs :: Ascending(xs) && Elements(xs) == s
    decreases s
  {
    if s == {} {
      assert Ascending([]) && Elements([]) == s;
    } else {
      var x :| x in s;
      SortedListExists(s - {x});
      var xs :| Ascending(xs) && Elements(xs) == s - {x};
      InsertSortedKeeps(xs, x);
      assert Elements(InsertSorted(xs, x)) == s;
    }
  }

  ghost function ConfigTemplates(bp: WalkedBlueprint): seq<string>
  {
    if bp.config.None? then [] else SortedList(TemplateRefs(bp.config.value))
  }

  ghost function ConfigRoles(bp: WalkedBlueprint): seq<string>
  {
    if bp.config.None? then [] else SortedList(RoleRefs(bp.config.value))
  }

  method ConfigRefs(bp: WalkedBlueprint) returns (templates: seq<string>, roles: seq<string>)
    ensures templates == ConfigTemplates(bp) && roles == ConfigRoles(bp)
  {
    templates, roles := [], [];
    if bp.config.Some? {
      templates, roles := InferFromRangeConfig(bp.config.value);
      AscendingUnique(templates, ConfigTemplates(bp));
      AscendingUnique(roles, ConfigRoles(bp));
    }
  }

  // ---------------------------------------------------------------- requirements.yml

  /** What code that ignores the decoder's error sees. */
  function LooseDoc(r: Requirements): RequirementsDoc
  {
    match r
    case Absent => RequirementsDoc([], [], [])
    case Malformed(partial) => partial
    case Parsed(doc) => doc
  }

  /** What code that honours the decoder's error sees. */
  function StrictDoc(r: Requirements): RequirementsDoc
  {
    if r.Parsed? then r.doc else RequirementsDoc([], [], [])
  }

  ghost function DeclaredNames(entries: seq<Requirement>): set<string>
  {
    set r | r in entries && r.name != "" :: r.name
  }

  ghost function DeclaredSubscriptions(names: seq<string>): set<string>
  {
    set n | n in names && n != ""
  }

  /** parseDeclaredRequirements, with the subscription section beside it. */
  method ParseDeclaredRequirements(req: Requirements)
    returns (roles: set<string>, collections: set<string>, subscriptions: set<string>)
    ensures roles == DeclaredNames(StrictDoc(req).roles)
    ensures collections == DeclaredNames(StrictDoc(req).collections)
    ensures subscriptions == DeclaredSubscriptions(StrictDoc(req).subscriptionRoles)
    ensures forall n :: n in roles <==> n != "" && req.Parsed? && exists r :: r in req.doc.roles && r.name == n
    ensures forall n :: n in collections <==>
      n != "" && req.Parsed? && exists r :: r in req.doc.collections && r.name == n
    ensures forall n :: n in subscriptions <==> n != "" && req.Parsed? && n in req.doc.subscriptionRoles
  {
    roles, collections, subscriptions := {}, {}, {};
    if !req.Parsed? {
      return;
    }
    roles := NamesOf(req.doc.roles);
    collections := NamesOf(req.doc.collections);
    for i := 0 to |req.doc.subscriptionRoles|
      invariant subscriptions == DeclaredSubscriptions(req.doc.subscriptionRoles[..i])
    {
      var n := req.doc.subscriptionRoles[i];
      assert req.doc.subscriptionRoles[..i + 1] == req.doc.subscriptionRoles[..i] + [n];
      if n != "" {
        subscriptions := subscriptions + {n};
      }
    }
    assert req.doc.subscriptionRoles[..|req.doc.subscriptionRoles|] == req.doc.subscriptionRoles;
  }

  method NamesOf(entries: seq<Requirement>) returns (names: set<string>)
    ensures names == DeclaredNames(entries)
  {
    names := {};
    for i := 0 to |entries|
      invariant names == DeclaredNames(entries[..i])
    {
      assert entries[..i + 1] == entries[..i] + [entries[i]];
      if entries[i].name != "" {
        names := names + {entries[i].name};
      }
      assert DeclaredNames(entries[..i] + [entries[i]])
        == DeclaredNames(entries[..i]) + (if entries[i].name != "" then {entries[i].name} else {});
    }
    assert entries[..|entries|] == entries;
  }
}

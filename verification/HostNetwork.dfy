/** The two callers of the block editor: the bridge stanza of a range in
    /etc/network/interfaces (ludus-api/network.go) and its route in
    /etc/network/if-up.d/sdn-routes (ludus-api/sdn.go). */
module HostNetwork {
  import opened Text
  import opened Options
  import opened BlockEditor
  import opened BlockLaws
  import opened RangeFiles
  import opened RangeRuns

  const INTERFACES_PREFIX := "# LUDUS MANAGED INTERFACE FOR USER "
  const ROUTES_PREFIX := "# LUDUS MANAGED BLOCK FOR RANGE "
  const NAT_VNET := "ludusnat"

  /** Go's %03d. */
  function Pad3(n: int): string
  {
    var digits := if n < 0 then NatText(-n) else NatText(n);
    var width := if n < 0 then 2 else 3;
    (if n < 0 then "-" else "")
      + (if |digits| >= width then "" else if |digits| == width - 1 then "0" else "00"[..width - |digits|]) + digits
  }

  function BridgeName(n: int): (name: string)
    ensures '#' !in name
  {
    "vmbr1" + Pad3(n)
  }

  function BridgeOptions(): (lines: seq<string>)
    ensures forall i :: 0 <= i < |lines| ==> '#' !in lines[i]
  {
    ["    bridge-ports none", "    bridge-stp off", "    bridge-fd 0", "    bridge-vlan-aware yes",
     "    bridge-vids 2-4094"]
  }

  function NetworkVia(n: int): (s: string)
    ensures '#' !in s
  {
    " 10." + IntText(n) + ".0.0/16 via 192.0.2." + IntText(100 + n)
  }

  function BridgeLines(n: int): seq<string>
  {
    ["auto " + BridgeName(n), "iface " + BridgeName(n) + " inet manual"]
    + BridgeOptions()
    + ["    post-up ip route add" + NetworkVia(n), "    post-down ip route del" + NetworkVia(n)]
  }

  function BridgeBlock(n: int): string
  {
    Join(BridgeLines(n), NL)
  }

  function RouteBlock(n: int): string
  {
    "\nif [ \"$IFACE\" = \"r" + IntText(n) + "\" ]; then\n"
    + "\tip route replace" + NetworkVia(n) + " dev " + NAT_VNET + "\nfi\n\t"
  }

  /** The route of a range is the same wherever it is written: the stanza adds it when the
      bridge comes up and deletes it when the bridge goes down, and the routes file
      replaces it when the range's own interface comes up. */
  lemma SameRoute(n: int)
    ensures var route := " 10." + IntText(n) + ".0.0/16 via 192.0.2." + IntText(100 + n);
      && BridgeLines(n)[|BridgeLines(n)| - 2..]
           == ["    post-up ip route add" + route, "    post-down ip route del" + route]
      && "\nif [ \"$IFACE\" = \"r" + IntText(n) + "\" ]; then\n" + "\tip route replace" + route <= RouteBlock(n)
  {
    hide IntText;
  }

  /** The lines of one stanza that carry the range number. */
  lemma SampleStanza()
    ensures BridgeLines(7)[..2] == ["auto vmbr1007", "iface vmbr1007 inet manual"]
    ensures BridgeLines(7)[7] == "    post-up ip route add" + " 10.7.0.0/16 via 192.0.2.107"
    ensures BridgeLines(7)[8] == "    post-down ip route del" + " 10.7.0.0/16 via 192.0.2.107"
    ensures BridgeName(42) == "vmbr1042" && BridgeName(999) == "vmbr1999" && BridgeName(1000) == "vmbr11000"
  {
    SampleNames();
    SampleRoute();
    hide BridgeName, NetworkVia;
    assert BridgeLines(7)[..2] == ["auto " + BridgeName(7), "iface " + BridgeName(7) + " inet manual"];
    assert "auto " + "vmbr1007" == "auto vmbr1007"
      && "iface " + "vmbr1007" + " inet manual" == "iface vmbr1007 inet manual";
  }

  lemma SampleNames()
    ensures BridgeName(7) == "vmbr1007"
    ensures BridgeName(42) == "vmbr1042" && BridgeName(999) == "vmbr1999" && BridgeName(1000) == "vmbr11000"
  {
    SampleNumbers();
    hide Pad3;
    assert "vmbr1" + "007" == "vmbr1007" && "vmbr1" + "042" == "vmbr1042";
    assert "vmbr1" + "999" == "vmbr1999" && "vmbr1" + "1000" == "vmbr11000";
  }

  lemma SampleRoute()
    ensures NetworkVia(7) == " 10.7.0.0/16 via 192.0.2.107"
  {
    SampleNumbers();
    hide IntText;
    assert " 10." + "7" == " 10.7" && " 10.7" + ".0.0/16 via 192.0.2." == " 10.7.0.0/16 via 192.0.2.";
    assert " 10.7.0.0/16 via 192.0.2." + "107" == " 10.7.0.0/16 via 192.0.2.107";
  }

  lemma SampleNumbers()
    ensures Pad3(7) == "007" && Pad3(42) == "042" && Pad3(999) == "999" && Pad3(1000) == "1000"
    ensures IntText(7) == "7" && IntText(107) == "107"
  {
    assert NatText(9) == "9" && NatText(99) == "99" && NatText(999) == "999";
    assert NatText(10) == "10" && NatText(100) == "100" && NatText(1000) == "1000";
    assert NatText(4) == "4" && NatText(42) == "42" && NatText(107) == "107";
  }

  /** A block without '#' holds no marker line, since every marker starts with '#'. */
  lemma HashFreeBlockOk(p: string, key: int, block: string)
    requires p != "" && p[0] == '#' && '#' !in block
    ensures BlockOk(p, key, block)
  {
    var parts := Split(block, NL);
    forall i, k: int | 0 <= i < |parts|
      ensures Trim(parts[i]) != Marks(p, k).begin && Trim(parts[i]) != Marks(p, k).end
    {
      TrimIsSolid(parts[i]);
      if '#' in parts[i] {
        SplitChars(block, NL, i, '#');
      }
      assert Marks(p, k).begin[0] == '#' && Marks(p, k).end[0] == '#';
    }
  }

  lemma {:induction false} JoinHashFree(parts: seq<string>)
    requires forall i :: 0 <= i < |parts| ==> '#' !in parts[i]
    ensures '#' !in Join(parts, NL)
  {
    if |parts| > 1 {
      JoinHashFree(parts[1..]);
    }
  }

  lemma BridgeBlockHashFree(n: int)
    ensures '#' !in BridgeBlock(n)
  {
    hide BridgeName, BridgeOptions, NetworkVia;
    var head := ["auto " + BridgeName(n), "iface " + BridgeName(n) + " inet manual"];
    var tail := ["    post-up ip route add" + NetworkVia(n), "    post-down ip route del" + NetworkVia(n)];
    var lines := head + BridgeOptions() + tail;
    forall i | 0 <= i < |lines| ensures '#' !in lines[i] {
      if i < |head| {
        assert lines[i] == head[i];
      } else if i < |head + BridgeOptions()| {
        assert lines[i] == BridgeOptions()[i - |head|];
      } else {
        assert lines[i] == tail[i - |head + BridgeOptions()|];
      }
    }
    JoinHashFree(lines);
  }

  lemma RouteBlockHashFree(n: int)
    ensures '#' !in RouteBlock(n)
  {
    hide IntText, NetworkVia;
    assert '#' !in "\nif [ \"$IFACE\" = \"r" + IntText(n);
  }

  lemma PrefixesGood()
    ensures GoodPrefix(INTERFACES_PREFIX) && GoodPrefix(ROUTES_PREFIX)
  {
  }

  // ---------------------------------------------------------------- The files on the host

  datatype Outcome = Unchanged | Changed | Failed

  class HostFile {
    var onDisk: bool
    var content: string

    constructor (onDisk: bool, content: string)
      ensures this.onDisk == onDisk && this.content == content
    {
      this.onDisk := onDisk;
      this.content := content;
    }

    /** applyBlockInFileAtPath: read, edit, and write back only what changed. A write
        that fails leaves `torn` behind, which may be anything. */
    method ApplyBlockAtPath(marker: string, block: string, present: bool, torn: Option<string>)
      returns (outcome: Outcome)
      modifies this
      ensures onDisk == old(onDisk)
      ensures outcome.Failed? <==>
        !onDisk || (torn.Some? && Trim(old(content)) != Trim(Edit(old(content), MarkersOf(marker), block, present)))
      ensures outcome.Failed? ==> content == if onDisk then torn.value else old(content)
      ensures outcome.Changed? ==>
        content == Edit(old(content), MarkersOf(marker), block, present) && Trim(content) != Trim(old(content))
      ensures outcome.Unchanged? ==>
        content == old(content) && Trim(content) == Trim(Edit(content, MarkersOf(marker), block, present))
    {
      if !onDisk {
        return Failed;
      }
      var newContent, contentChanged := ApplyBlockInFile(content, marker, block, present);
      if contentChanged {
        if torn.Some? {
          content := torn.value;
          return Failed;
        }
        content := newContent;
      }
      return if contentChanged then Changed else Unchanged;
    }
  }

  function RangeOp(block: string, n: int, present: bool): Op
  {
    if present then Insert(n, block) else Remove(n, block)
  }

  /** The interface command the caller runs afterwards. */
  datatype Command = IfUp(name: string) | IfDown(name: string)

  method ManageVmbrInterfaceStandalone(interfaces: HostFile, rangeNumber: int, present: bool, torn: Option<string>)
    returns (ok: bool, commands: seq<Command>)
    modifies interfaces
    ensures interfaces.onDisk == old(interfaces.onDisk)
    ensures var after :=
      Step(INTERFACES_PREFIX, old(interfaces.content), RangeOp(BridgeBlock(rangeNumber), rangeNumber, present));
      var writes := after != old(interfaces.content);
      && (ok <==> interfaces.onDisk && (writes ==> torn.None?))
      && interfaces.content == (if ok then after else if interfaces.onDisk then torn.value else old(interfaces.content))
      && commands
           == (if ok && writes then [if present then IfUp(BridgeName(rangeNumber)) else IfDown(BridgeName(rangeNumber))]
               else [])
  {
    hide Trim, Edit, MarkersOf, BridgeBlock, BridgeName;
    var outcome := interfaces.ApplyBlockAtPath(
      MarkerText(INTERFACES_PREFIX, rangeNumber), BridgeBlock(rangeNumber), present, torn);
    ok := !outcome.Failed?;
    commands := [];
    if outcome.Changed? {
      commands := [if present then IfUp(BridgeName(rangeNumber)) else IfDown(BridgeName(rangeNumber))];
    }
  }

  const SHEBANG := "#!/bin/sh\n"

  /** A missing routes file is created first: `made` is what then stands in it, the
      shebang if nothing fails, and None if no file came about. The route is added
      at once when the block went in. */
  method RouteForRangeNetworkInVNet(routes: HostFile, rangeNumber: int, present: bool, made: Option<string>,
                                    torn: Option<string>, routeOk: bool)
    returns (ok: bool, commands: seq<string>)
    modifies routes
    ensures routes.onDisk <==> old(routes.onDisk) || made.Some?
    ensures !routes.onDisk ==> !ok && commands == [] && routes.content == old(routes.content)
    ensures routes.onDisk ==>
      var before := if old(routes.onDisk) then old(routes.content) else made.value;
      var after := Step(ROUTES_PREFIX, before, RangeOp(RouteBlock(rangeNumber), rangeNumber, present));
      var applied := after == before || torn.None?;
      && routes.content == (if applied then after else torn.value)
      && commands == (if applied && present then ["ip route add" + NetworkVia(rangeNumber) + " dev ludusnat"] else [])
      && (ok <==> applied && (present ==> routeOk))
  {
    hide Trim, Edit, MarkersOf, RouteBlock;
    if !routes.onDisk && made.Some? {
      routes.onDisk := true;
      routes.content := made.value;
    }
    var outcome := routes.ApplyBlockAtPath(
      MarkerText(ROUTES_PREFIX, rangeNumber), RouteBlock(rangeNumber), present, torn);
    if outcome.Failed? {
      return false, [];
    }
    commands := [];
    if present {
      commands := ["ip route add" + NetworkVia(rangeNumber) + (" dev " + NAT_VNET)];
      assert " dev " + NAT_VNET == " dev ludusnat";
    }
    ok := present ==> routeOk;
  }

  // ---------------------------------------------------------------- Every history of range changes

  datatype Change = Change(rangeNumber: int, present: bool)

  function BlockFor(bridges: bool, n: int): string
  {
    if bridges then BridgeBlock(n) else RouteBlock(n)
  }

  function PrefixFor(bridges: bool): string
  {
    if bridges then INTERFACES_PREFIX else ROUTES_PREFIX
  }

  function Ops(bridges: bool, changes: seq<Change>): (ops: seq<Op>)
    ensures |ops| == |changes|
    ensures forall i :: 0 <= i < |ops| ==>
      ops[i] == RangeOp(BlockFor(bridges, changes[i].rangeNumber), changes[i].rangeNumber, changes[i].present)
  {
    seq(|changes|, i requires 0 <= i < |changes| =>
      RangeOp(BlockFor(bridges, changes[i].rangeNumber), changes[i].rangeNumber, changes[i].present))
  }

  /** The ranges that are present, oldest insertion first. */
  function Live(changes: seq<Change>): seq<int>
  {
    if changes == [] then []
    else
      var before, last := Live(changes[..|changes| - 1]), changes[|changes| - 1];
      if last.present then (if last.rangeNumber in before then before else before + [last.rangeNumber])
      else Without(before, last.rangeNumber)
  }

  /** The last change that names the range adds it. */
  ghost predicate LastAdded(changes: seq<Change>, n: int, i: int)
  {
    && 0 <= i < |changes| && changes[i] == Change(n, true)
    && forall j :: i < j < |changes| ==> changes[j].rangeNumber != n
  }

  /** A range is live exactly when the last change about it added it. */
  lemma {:induction false} LiveIff(changes: seq<Change>, n: int)
    ensures n in Live(changes) <==> exists i :: LastAdded(changes, n, i)
  {
    if changes != [] {
      var front, last := changes[..|changes| - 1], changes[|changes| - 1];
      LiveIff(front, n);
      WithoutMembers(Live(front), last.rangeNumber, n);
      if last.rangeNumber == n {
        if last.present {
          assert LastAdded(changes, n, |front|);
        }
      } else {
        if i :| LastAdded(front, n, i) {
          assert LastAdded(changes, n, i);
        }
        if i :| LastAdded(changes, n, i) {
          assert LastAdded(front, n, i);
        }
      }
    }
  }

  lemma {:induction false} WithoutMembers(ns: seq<int>, m: int, n: int)
    ensures n in Without(ns, m) <==> n in ns && n != m
  {
    if ns != [] {
      WithoutMembers(ns[1..], m, n);
      assert ns == [ns[0]] + ns[1..];
    }
  }

  function Without(ns: seq<int>, n: int): seq<int>
  {
    if ns == [] then [] else (if ns[0] == n then [] else [ns[0]]) + Without(ns[1..], n)
  }

  function Entries(bridges: bool, ns: seq<int>): (es: seq<Entry>)
    ensures |es| == |ns|
    ensures forall i :: 0 <= i < |es| ==> es[i] == Entry(ns[i], BlockFor(bridges, ns[i]))
  {
    seq(|ns|, i requires 0 <= i < |ns| => Entry(ns[i], BlockFor(bridges, ns[i])))
  }

  lemma {:induction false} DropEntries(bridges: bool, ns: seq<int>, n: int)
    ensures Drop(Entries(bridges, ns), n) == Entries(bridges, Without(ns, n))
  {
    hide BlockFor;
    if ns != [] {
      DropEntries(bridges, ns[1..], n);
      assert Entries(bridges, ns)[1..] == Entries(bridges, ns[1..]);
      if ns[0] != n {
        assert Entries(bridges, Without(ns, n)) == [Entries(bridges, ns)[0]] + Entries(bridges, Without(ns[1..], n));
      }
    }
  }

  lemma PutEntries(bridges: bool, ns: seq<int>, n: int)
    ensures Put(Entries(bridges, ns), n, BlockFor(bridges, n))
         == Entries(bridges, if n in ns then ns else ns + [n])
  {
    hide BlockFor;
    var es := Entries(bridges, ns);
    ReplaceKeys(es, n, BlockFor(bridges, n));
    if n in ns {
      var i :| 0 <= i < |ns| && ns[i] == n;
      assert es[i].key == n;
    }
  }

  lemma {:induction false} MapOfLive(bridges: bool, changes: seq<Change>)
    ensures RunMap(Ops(bridges, changes)) == Entries(bridges, Live(changes))
  {
    hide BlockFor;
    if changes != [] {
      var front, last := changes[..|changes| - 1], changes[|changes| - 1];
      MapOfLive(bridges, front);
      assert Ops(bridges, changes)[..|changes| - 1] == Ops(bridges, front);
      PutEntries(bridges, Live(front), last.rangeNumber);
      DropEntries(bridges, Live(front), last.rangeNumber);
    }
  }

  /** Both host files, after any history of range changes, hold exactly the text
      they started with and one block for every range that is present. */
  lemma HistoryOfRanges(bridges: bool, base: string, changes: seq<Change>)
    requires Unmanaged(PrefixFor(bridges), base)
    ensures Run(PrefixFor(bridges), base, Ops(bridges, changes))
         == FileText(PrefixFor(bridges), base, Entries(bridges, Live(changes)))
    ensures Ok(PrefixFor(bridges), Entries(bridges, Live(changes)))
  {
    hide Run, FileText, RunMap;
    var p, ops := PrefixFor(bridges), Ops(bridges, changes);
    PrefixesGood();
    forall i | 0 <= i < |ops| ensures OpOk(p, ops[i]) {
      var n := changes[i].rangeNumber;
      BridgeBlockHashFree(n);
      RouteBlockHashFree(n);
      HashFreeBlockOk(p, n, BlockFor(bridges, n));
    }
    RunRefines(p, base, ops);
    MapOfLive(bridges, changes);
  }

  lemma OneLineUnmanaged(line: string)
    requires NL !in line && Solid(line) && |line| > 1 && line[1] != ' '
    ensures Unmanaged(ROUTES_PREFIX, line + [NL])
  {
    assert Split(line + [NL], NL) == [line, ""] by {
      SplitPlainThen(line, NL, "");
      assert line + [NL] == line + [NL] + "";
      assert Split("", NL) == [""];
    }
    SolidIsTrimmed(line);
    assert Trim("") == "";
    hide Marks, Split, Trim;
    forall key: int ensures NoBegin(Split(line + [NL], NL), Marks(ROUTES_PREFIX, key)) {
      BeginStart(key);
    }
  }

  lemma BeginStart(key: int)
    ensures var b := Marks(ROUTES_PREFIX, key).begin; |b| > 1 && b[1] == ' '
  {
  }

  /** The routes file the caller creates is a legal start. */
  lemma FreshRoutesUnmanaged()
    ensures Unmanaged(ROUTES_PREFIX, SHEBANG)
  {
    hide Unmanaged;
    assert SHEBANG == "#!/bin/sh" + [NL];
    OneLineUnmanaged("#!/bin/sh");
  }
}

/** The claims ledger (source_artifacts) of ludus-api/source_install.go and its
    table definition: a unique index on (source, kind, name), a list of values
    the kind column takes, and a name that must not be empty. */
module Ledger {

  datatype Kind = Template | LocalRole | LocalCollection | GalaxyRole | GalaxyCollection | SubscriptionRole

  datatype Artifact = Artifact(source: string, kind: Kind, name: string, version: string)

  /** The text the callers store for a kind. */
  function KindText(kind: Kind): string
  {
    match kind
    case Template => "template"
    case LocalRole => "local_role"
    case LocalCollection => "local_collection"
    case GalaxyRole => "galaxy_role"
    case GalaxyCollection => "collection"
    case SubscriptionRole => "subscription_role"
  }

  /** The values the kind column accepts; a save checks them. */
  const KIND_VALUES := ["template", "local_role", "galaxy_role", "collection", "subscription_role"]

  predicate Storable(kind: Kind, name: string)
  {
    KindText(kind) in KIND_VALUES && name != ""
  }

  /** The table takes every kind its callers use except bundled collections. */
  lemma StorableIff(kind: Kind, name: string)
    ensures Storable(kind, name) <==> !kind.LocalCollection? && name != ""
  {
    var t := KindText(kind);
    if kind.LocalCollection? {
      assert forall i :: 0 <= i < |KIND_VALUES| ==> |KIND_VALUES[i]| != |t|;
    } else {
      assert t in [KIND_VALUES[0], KIND_VALUES[1], KIND_VALUES[2], KIND_VALUES[3], KIND_VALUES[4]];
    }
  }

  predicate SameClaim(a: Artifact, source: string, kind: Kind, name: string)
  {
    a.source == source && a.kind == kind && a.name == name
  }

  ghost predicate Unique(rows: seq<Artifact>)
  {
    forall i, j :: 0 <= i < j < |rows| ==> !SameClaim(rows[i], rows[j].source, rows[j].kind, rows[j].name)
  }

  predicate Claimed(rows: seq<Artifact>, source: string, kind: Kind, name: string)
  {
    exists i :: 0 <= i < |rows| && SameClaim(rows[i], source, kind, name)
  }

  ghost function Claims(rows: seq<Artifact>, source: string, kind: Kind): set<string>
  {
    set a | a in rows && a.source == source && a.kind == kind :: a.name
  }

  /** What the database and the lookup may do during one call. */
  datatype Faults = Faults(collectionFound: bool, lookupOk: bool, saveOk: bool)

  /** The call can write: the table is there, the database saves, and the row passes the column checks. */
  predicate Recording(kind: Kind, name: string, f: Faults)
  {
    f.collectionFound && f.saveOk && Storable(kind, name)
  }

  // ---------------------------------------------------------------- insertSourceArtifact

  function Reversioned(rows: seq<Artifact>, source: string, kind: Kind, name: string, version: string): seq<Artifact>
  {
    if rows == [] then []
    else if SameClaim(rows[0], source, kind, name) then [rows[0].(version := version)] + rows[1..]
    else [rows[0]] + Reversioned(rows[1..], source, kind, name, version)
  }

  /** The rows after one insertSourceArtifact; `indexed` says whether the table
      has its unique index, which rejects a second row for the same claim. */
  function Inserted(rows: seq<Artifact>, source: string, kind: Kind, name: string, version: string, f: Faults,
                    indexed: bool)
    : seq<Artifact>
  {
    var known := Claimed(rows, source, kind, name);
    if !Recording(kind, name, f) then rows
    else if f.lookupOk && known then Reversioned(rows, source, kind, name, version)
    else if indexed && known then rows
    else rows + [Artifact(source, kind, name, version)]
  }

  class Table {
    var rows: seq<Artifact>
    const indexed: bool

    constructor (indexed: bool)
      ensures rows == [] && this.indexed == indexed
    {
      rows := [];
      this.indexed := indexed;
    }

    method Find(source: string, kind: Kind, name: string) returns (at: int)
      ensures 0 <= at <==> Claimed(rows, source, kind, name)
      ensures 0 <= at ==> at < |rows| && SameClaim(rows[at], source, kind, name)
      ensures 0 <= at ==> forall i :: 0 <= i < at ==> !SameClaim(rows[i], source, kind, name)
    {
      at := 0;
      while at < |rows|
        invariant 0 <= at <= |rows|
        invariant forall i :: 0 <= i < at ==> !SameClaim(rows[i], source, kind, name)
      {
        if SameClaim(rows[at], source, kind, name) {
          return;
        }
        at := at + 1;
      }
      at := -1;
    }

    method InsertSourceArtifact(source: string, kind: Kind, name: string, version: string, f: Faults)
      modifies this`rows
      ensures rows == Inserted(old(rows), source, kind, name, version, f, indexed)
    {
      if !f.collectionFound {
        return;
      }
      var at := Find(source, kind, name);
      var saves := f.saveOk && Storable(kind, name);
      if f.lookupOk && 0 <= at {
        ReversionedAt(rows, at, source, kind, name, version);
        if rows[at].version != version && saves {
          rows := rows[at := rows[at].(version := version)];
        }
        return;
      }
      if saves && !(indexed && 0 <= at) {
        rows := rows + [Artifact(source, kind, name, version)];
      }
    }

    /** One query and the deletes it leads to. */
    method ReleaseKind(kind: Kind, name: string, q: ReleaseFaults)
      modifies this`rows
      ensures rows == Released(old(rows), [kind], name, q)
    {
      if !q.lookupOk(kind) {
        NotFoundKept(rows, kind, name, q);
        return;
      }
      var kept: seq<Artifact> := [];
      for i := 0 to |rows|
        invariant rows == old(rows) && kept == Released(rows[..i], [kind], name, q)
      {
        assert rows[..i + 1][..i] == rows[..i];
        if !(rows[i].kind == kind && rows[i].name == name && q.deleteOk(rows[i])) {
          kept := kept + [rows[i]];
        }
      }
      assert rows[..|rows|] == rows;
      rows := kept;
    }

    method ReleaseSourceClaims(kinds: seq<Kind>, name: string, q: ReleaseFaults)
      modifies this`rows
      ensures rows == Released(old(rows), kinds, name, q)
    {
      NoKindsKept(rows, name, q);
      for i := 0 to |kinds|
        invariant rows == Released(old(rows), kinds[..i], name, q)
      {
        assert kinds[..i + 1] == kinds[..i] + [kinds[i]];
        ReleasedTwice(old(rows), kinds[..i], kinds[i], name, q);
        ReleaseKind(kinds[i], name, q);
      }
      assert kinds[..|kinds|] == kinds;
    }
  }

  /** A query for a kind may fail, and then nothing of that kind is deleted; a
      delete may fail, and then its row stays. */
  datatype ReleaseFaults = ReleaseFaults(lookupOk: Kind -> bool, deleteOk: Artifact -> bool)

  /** A row the release deletes. */
  predicate Drops(a: Artifact, kinds: seq<Kind>, name: string, q: ReleaseFaults)
  {
    a.kind in kinds && a.name == name && q.lookupOk(a.kind) && q.deleteOk(a)
  }

  function Released(rows: seq<Artifact>, kinds: seq<Kind>, name: string, q: ReleaseFaults): seq<Artifact>
  {
    if rows == [] then []
    else
      var last := rows[|rows| - 1];
      Released(rows[..|rows| - 1], kinds, name, q) + (if Drops(last, kinds, name, q) then [] else [last])
  }

  lemma {:induction false} NoKindsKept(rows: seq<Artifact>, name: string, q: ReleaseFaults)
    ensures Released(rows, [], name, q) == rows
  {
    if rows != [] {
      NoKindsKept(rows[..|rows| - 1], name, q);
    }
  }

  lemma {:induction false} NotFoundKept(rows: seq<Artifact>, kind: Kind, name: string, q: ReleaseFaults)
    requires !q.lookupOk(kind)
    ensures Released(rows, [kind], name, q) == rows
  {
    if rows != [] {
      NotFoundKept(rows[..|rows| - 1], kind, name, q);
    }
  }

  /** Kind after kind is the same as all kinds at once. */
  lemma {:induction false} ReleasedTwice(rows: seq<Artifact>, kinds: seq<Kind>, kind: Kind, name: string,
                                         q: ReleaseFaults)
    ensures Released(Released(rows, kinds, name, q), [kind], name, q) == Released(rows, kinds + [kind], name, q)
  {
    if rows != [] {
      var front, last := rows[..|rows| - 1], rows[|rows| - 1];
      ReleasedTwice(front, kinds, kind, name, q);
      var once := Released(front, kinds, name, q);
      assert Drops(last, kinds + [kind], name, q) <==> Drops(last, kinds, name, q) || Drops(last, [kind], name, q);
      if Drops(last, kinds, name, q) {
        assert once + [] == once;
      } else {
        assert (once + [last])[..|once|] == once;
      }
    }
  }

  lemma {:induction false} ReversionedAt(rows: seq<Artifact>, at: nat, source: string, kind: Kind, name: string,
                                         version: string)
    requires at < |rows| && SameClaim(rows[at], source, kind, name)
    requires forall i :: 0 <= i < at ==> !SameClaim(rows[i], source, kind, name)
    ensures Reversioned(rows, source, kind, name, version) == rows[at := rows[at].(version := version)]
  {
    if at > 0 {
      assert forall i :: 0 <= i < at - 1 ==> rows[1..][i] == rows[i + 1];
      ReversionedAt(rows[1..], at - 1, source, kind, name, version);
    }
  }

  lemma FirstClaim(rows: seq<Artifact>, source: string, kind: Kind, name: string) returns (at: nat)
    requires Claimed(rows, source, kind, name)
    ensures at < |rows| && SameClaim(rows[at], source, kind, name)
    ensures forall i :: 0 <= i < at ==> !SameClaim(rows[i], source, kind, name)
  {
    at := 0;
    while !SameClaim(rows[at], source, kind, name)
      invariant at < |rows|
      invariant exists i :: at <= i < |rows| && SameClaim(rows[i], source, kind, name)
      invariant forall i :: 0 <= i < at ==> !SameClaim(rows[i], source, kind, name)
      decreases |rows| - at
    {
      at := at + 1;
    }
  }

  /** One insert keeps the ledger free of duplicates if and only if the index is
      there, the lookup worked, the claim was new, or nothing was written. */
  lemma InsertKeepsUnique(rows: seq<Artifact>, source: string, kind: Kind, name: string, version: string, f: Faults,
                          indexed: bool)
    requires Unique(rows)
    ensures Unique(Inserted(rows, source, kind, name, version, f, indexed))
      <==> indexed || f.lookupOk || !Claimed(rows, source, kind, name) || !Recording(kind, name, f)
  {
    var out := Inserted(rows, source, kind, name, version, f, indexed);
    hide Recording;
    if Recording(kind, name, f) && Claimed(rows, source, kind, name) {
      var at := FirstClaim(rows, source, kind, name);
      if f.lookupOk {
        ReversionedAt(rows, at, source, kind, name, version);
      } else if !indexed {
        assert SameClaim(out[at], out[|rows|].source, out[|rows|].kind, out[|rows|].name);
      }
    }
  }

  /** What an insert does to the rows of a ledger without duplicates, row by row: when it
      can write and looked the claim up, the claim has one row, with the new version. */
  lemma InsertedRows(rows: seq<Artifact>, source: string, kind: Kind, name: string, version: string, f: Faults,
                     indexed: bool, a: Artifact)
    requires Unique(rows)
    ensures var after := Inserted(rows, source, kind, name, version, f, indexed);
      && (!Recording(kind, name, f) ==> after == rows)
      && (Recording(kind, name, f) && f.lookupOk ==>
            (a in after <==>
               a == Artifact(source, kind, name, version) || (a in rows && !SameClaim(a, source, kind, name))))
      && (Recording(kind, name, f) && !f.lookupOk ==>
            (a in after <==>
               a in rows
               || (a == Artifact(source, kind, name, version) && !(indexed && Claimed(rows, source, kind, name)))))
  {
    hide Recording;
    if Recording(kind, name, f) && f.lookupOk && Claimed(rows, source, kind, name) {
      var at := FirstClaim(rows, source, kind, name);
      ReversionedAt(rows, at, source, kind, name, version);
      var after := rows[at := rows[at].(version := version)];
      assert after[at] == Artifact(source, kind, name, version);
      forall i | 0 <= i < |rows| && i != at ensures !SameClaim(rows[i], source, kind, name) && after[i] == rows[i] {
        assert i < at ==> !SameClaim(rows[i], rows[at].source, rows[at].kind, rows[at].name);
        assert at < i ==> !SameClaim(rows[at], rows[i].source, rows[i].kind, rows[i].name);
      }
    }
  }

  lemma {:induction false} ReleasedMembers(rows: seq<Artifact>, kinds: seq<Kind>, name: string, q: ReleaseFaults)
    ensures forall a :: a in Released(rows, kinds, name, q) <==> a in rows && !Drops(a, kinds, name, q)
  {
    if rows != [] {
      ReleasedMembers(rows[..|rows| - 1], kinds, name, q);
      assert rows == rows[..|rows| - 1] + [rows[|rows| - 1]];
    }
  }

  lemma {:induction false} ReleaseKeepsUnique(rows: seq<Artifact>, kinds: seq<Kind>, name: string, q: ReleaseFaults)
    requires Unique(rows)
    ensures Unique(Released(rows, kinds, name, q))
  {
    if rows != [] {
      var front, last := rows[..|rows| - 1], rows[|rows| - 1];
      ReleaseKeepsUnique(front, kinds, name, q);
      ReleasedMembers(front, kinds, name, q);
      var kept := Released(front, kinds, name, q);
      forall i | 0 <= i < |kept| ensures !SameClaim(kept[i], last.source, last.kind, last.name) {
        assert kept[i] in front;
        var j :| 0 <= j < |front| && front[j] == kept[i];
        assert rows[j] == kept[i];
      }
    }
  }

  /** An insert adds the claim when it can write, and never touches another one. */
  lemma InsertClaims(rows: seq<Artifact>, source: string, kind: Kind, name: string, version: string, f: Faults,
                     indexed: bool, s: string, k: Kind)
    ensures Claims(Inserted(rows, source, kind, name, version, f, indexed), s, k)
         == Claims(rows, s, k) + (if s == source && k == kind && Recording(kind, name, f) then {name} else {})
  {
    hide Recording;
    var out := Inserted(rows, source, kind, name, version, f, indexed);
    if !Recording(kind, name, f) {
    } else if Claimed(rows, source, kind, name) {
      var at := FirstClaim(rows, source, kind, name);
      assert rows[at] in rows;
      if f.lookupOk {
        ReversionedAt(rows, at, source, kind, name, version);
        SameNamesSameClaims(rows, out, s, k);
      } else if indexed {
      } else {
        assert out == rows + [Artifact(source, kind, name, version)];
      }
    } else {
      assert out == rows + [Artifact(source, kind, name, version)];
      assert Artifact(source, kind, name, version) in out;
    }
  }

  lemma SameNamesSameClaims(a: seq<Artifact>, b: seq<Artifact>, s: string, k: Kind)
    requires |a| == |b| && forall i :: 0 <= i < |a| ==> SameClaim(a[i], b[i].source, b[i].kind, b[i].name)
    ensures Claims(a, s, k) == Claims(b, s, k)
  {
    forall n | n in Claims(a, s, k) ensures n in Claims(b, s, k) {
      var i :| 0 <= i < |a| && a[i].source == s && a[i].kind == k && a[i].name == n;
      assert b[i] in b;
    }
    forall n | n in Claims(b, s, k) ensures n in Claims(a, s, k) {
      var i :| 0 <= i < |b| && b[i].source == s && b[i].kind == k && b[i].name == n;
      assert a[i] in a;
    }
  }

  /** A release takes a name from a source's claims of a kind exactly when it
      finds the kind and deletes every such row, and touches nothing else. */
  lemma ReleaseClaims(rows: seq<Artifact>, kinds: seq<Kind>, name: string, q: ReleaseFaults, s: string, k: Kind)
    ensures forall n :: n in Claims(Released(rows, kinds, name, q), s, k) <==>
      n in Claims(rows, s, k)
        && !(n == name && forall a :: a in rows && SameClaim(a, s, k, name) ==> Drops(a, kinds, name, q))
  {
    ReleasedMembers(rows, kinds, name, q);
    hide Released;
    var after := Released(rows, kinds, name, q);
    forall n
      ensures n in Claims(after, s, k) <==>
        n in Claims(rows, s, k)
          && !(n == name && forall a :: a in rows && SameClaim(a, s, k, name) ==> Drops(a, kinds, name, q))
    {
      if n in Claims(after, s, k) {
        var a :| a in after && a.source == s && a.kind == k && a.name == n;
        assert a in rows && !Drops(a, kinds, name, q);
      } else if n in Claims(rows, s, k) {
        var a :| a in rows && a.source == s && a.kind == k && a.name == n;
        assert Drops(a, kinds, name, q) by {
          assert a !in after;
        }
        forall b | b in rows && SameClaim(b, s, k, name) ensures Drops(b, kinds, name, q) {
          assert b !in after;
        }
      }
    }
  }

  // ---------------------------------------------------------------- Every reachable ledger

  datatype Call = Insert(source: string, kind: Kind, name: string, version: string, faults: Faults)
                | Release(kinds: seq<Kind>, name: string, queries: ReleaseFaults)

  function After(rows: seq<Artifact>, calls: seq<Call>, indexed: bool): seq<Artifact>
  {
    if calls == [] then rows
    else
      var before := After(rows, calls[..|calls| - 1], indexed);
      match calls[|calls| - 1]
      case Insert(s, k, n, v, f) => Inserted(before, s, k, n, v, f, indexed)
      case Release(ks, n, q) => Released(before, ks, n, q)
  }

  /** With the index, whatever the lookups and saves do; without it, as long as
      no lookup fails: at most one row per (source, kind, name), always. */
  lemma {:induction false} LedgerStaysUnique(rows: seq<Artifact>, calls: seq<Call>, indexed: bool)
    requires Unique(rows)
    requires indexed || forall c :: c in calls && c.Insert? ==> c.faults.lookupOk
    ensures Unique(After(rows, calls, indexed))
  {
    if calls != [] {
      var front, last := calls[..|calls| - 1], calls[|calls| - 1];
      assert last in calls;
      LedgerStaysUnique(rows, front, indexed);
      var before := After(rows, front, indexed);
      match last {
        case Insert(s, k, n, v, f) => InsertKeepsUnique(before, s, k, n, v, f, indexed);
        case Release(ks, n, q) => ReleaseKeepsUnique(before, ks, n, q);
      }
    }
  }

  lemma {:induction false} AfterConcat(rows: seq<Artifact>, a: seq<Call>, b: seq<Call>, indexed: bool)
    ensures After(rows, a + b, indexed) == After(After(rows, a, indexed), b, indexed)
  {
    if b == [] {
      assert a + b == a;
    } else {
      AfterConcat(rows, a, b[..|b| - 1], indexed);
      assert (a + b)[..|a + b| - 1] == a + b[..|b| - 1];
    }
  }

  /** The names a run of inserts claims for a source under a kind. */
  ghost function ClaimedBy(calls: seq<Call>, source: string, kind: Kind): set<string>
  {
    set c | c in calls && c.Insert? && c.source == source && c.kind == kind
      && Recording(kind, c.name, c.faults) :: c.name
  }

  /** A run of inserts adds exactly the claims it can write. */
  lemma {:induction false} InsertsClaim(rows: seq<Artifact>, calls: seq<Call>, indexed: bool, source: string,
                                        kind: Kind)
    requires forall c :: c in calls ==> c.Insert?
    ensures Claims(After(rows, calls, indexed), source, kind)
      == Claims(rows, source, kind) + ClaimedBy(calls, source, kind)
  {
    hide Recording, Claims, Inserted;
    if calls != [] {
      var front, last := calls[..|calls| - 1], calls[|calls| - 1];
      assert last in calls && calls == front + [last];
      InsertsClaim(rows, front, indexed, source, kind);
      InsertClaims(After(rows, front, indexed), last.source, last.kind, last.name, last.version, last.faults, indexed,
                   source, kind);
      ClaimedSnoc(front, last, source, kind);
    }
  }

  lemma ClaimedSnoc(front: seq<Call>, last: Call, source: string, kind: Kind)
    requires last.Insert?
    ensures ClaimedBy(front + [last], source, kind) == ClaimedBy(front, source, kind)
      + (if source == last.source && kind == last.kind && Recording(kind, last.name, last.faults) then {last.name}
        else {})
  {
    hide Recording;
    assert forall c :: c in front + [last] <==> c in front || c == last;
  }
}

/** Laws of the claims ledger over whole runs of calls: making the same calls
    again changes nothing, and what no run can ever leave in it. */
module LedgerLaws {
  import opened Ledger

  // ---------------------------------------------------------------- The same run again

  /** Inserts whose lookups work and whose faults depend on the claim alone. */
  ghost predicate Steady(calls: seq<Call>, f: (string, Kind, string) -> Faults)
  {
    forall c :: c in calls ==> c.Insert? && c.faults == f(c.source, c.kind, c.name) && c.faults.lookupOk
  }

  predicate Sets(c: Call, a: Artifact)
  {
    c.Insert? && SameClaim(a, c.source, c.kind, c.name) && Recording(c.kind, c.name, c.faults)
  }

  /** The version a run leaves on a claim's row. */
  function LastVersion(calls: seq<Call>, a: Artifact): string
  {
    if calls == [] then a.version
    else if Sets(calls[|calls| - 1], a) then calls[|calls| - 1].version
    else LastVersion(calls[..|calls| - 1], a)
  }

  lemma {:induction false} LastVersionTwice(calls: seq<Call>, a: Artifact)
    ensures LastVersion(calls, a.(version := LastVersion(calls, a))) == LastVersion(calls, a)
    ensures (exists c :: c in calls && Sets(c, a)) ==>
      forall v :: LastVersion(calls, a.(version := v)) == LastVersion(calls, a)
  {
    hide Recording;
    if calls != [] && !Sets(calls[|calls| - 1], a) {
      LastVersionTwice(calls[..|calls| - 1], a);
      assert calls == calls[..|calls| - 1] + [calls[|calls| - 1]];
    }
  }

  ghost predicate AllClaimed(calls: seq<Call>, rows: seq<Artifact>)
  {
    forall c :: c in calls && c.Insert? && Recording(c.kind, c.name, c.faults) ==>
      Claimed(rows, c.source, c.kind, c.name)
  }

  /** A row that the run made, with the version it left there. */
  ghost predicate SetBy(calls: seq<Call>, a: Artifact)
  {
    a.version == LastVersion(calls, a) && exists c :: c in calls && Sets(c, a)
  }

  /** What a run makes of the rows: those there keep their place and get the last
      version set for them, and those added are ones the run set. */
  ghost predicate RunOutcome(rows: seq<Artifact>, calls: seq<Call>, out: seq<Artifact>)
  {
    && |rows| <= |out|
    && (forall i :: 0 <= i < |rows| ==> out[i] == rows[i].(version := LastVersion(calls, rows[i])))
    && (forall i :: |rows| <= i < |out| ==> SetBy(calls, out[i]))
    && AllClaimed(calls, out)
  }

  lemma {:induction false} RunSets(rows: seq<Artifact>, calls: seq<Call>, f: (string, Kind, string) -> Faults,
                                   indexed: bool)
    requires Unique(rows) && Steady(calls, f)
    ensures RunOutcome(rows, calls, After(rows, calls, indexed))
  {
    if calls != [] {
      var front, last := calls[..|calls| - 1], calls[|calls| - 1];
      assert calls == front + [last] && last in calls;
      assert Steady(front, f);
      RunSets(rows, front, f, indexed);
      LedgerStaysUnique(rows, front, indexed);
      OneMoreSet(rows, front, last, After(rows, front, indexed), indexed);
    }
  }

  lemma OneMoreSet(rows: seq<Artifact>, front: seq<Call>, last: Call, before: seq<Artifact>, indexed: bool)
    requires RunOutcome(rows, front, before) && Unique(before) && last.Insert? && last.faults.lookupOk
    ensures RunOutcome(rows, front + [last],
                       Inserted(before, last.source, last.kind, last.name, last.version, last.faults, indexed))
  {
    hide Recording, RunOutcome;
    if !Recording(last.kind, last.name, last.faults) {
      NothingSet(rows, front, last, before);
    } else if Claimed(before, last.source, last.kind, last.name) {
      var at := FirstClaim(before, last.source, last.kind, last.name);
      ReversionedAt(before, at, last.source, last.kind, last.name, last.version);
      OldRowSet(rows, front, last, before, at);
    } else {
      NewRowSet(rows, front, last, before);
    }
  }

  lemma LastVersionSnoc(front: seq<Call>, last: Call, a: Artifact)
    ensures LastVersion(front + [last], a) == if Sets(last, a) then last.version else LastVersion(front, a)
  {
    assert (front + [last])[..|front|] == front;
  }

  /** A row set by a run is still set by it when the call after leaves the row alone. */
  lemma SetBySnoc(front: seq<Call>, last: Call, a: Artifact)
    requires SetBy(front, a) && !Sets(last, a)
    ensures SetBy(front + [last], a)
  {
    hide LastVersion, Sets;
    LastVersionSnoc(front, last, a);
    var c :| c in front && Sets(c, a);
    assert c in front + [last];
  }

  lemma NothingSet(rows: seq<Artifact>, front: seq<Call>, last: Call, before: seq<Artifact>)
    requires RunOutcome(rows, front, before) && last.Insert? && !Recording(last.kind, last.name, last.faults)
    ensures RunOutcome(rows, front + [last], before)
  {
    hide Recording, LastVersion;
    var calls := front + [last];
    forall i | 0 <= i < |rows| ensures before[i] == rows[i].(version := LastVersion(calls, rows[i])) {
      LastVersionSnoc(front, last, rows[i]);
    }
    forall i | |rows| <= i < |before| ensures SetBy(calls, before[i]) {
      assert SetBy(front, before[i]);
      SetBySnoc(front, last, before[i]);
    }
    assert AllClaimed(calls, before);
  }

  lemma NewRowSet(rows: seq<Artifact>, front: seq<Call>, last: Call, before: seq<Artifact>)
    requires RunOutcome(rows, front, before) && last.Insert? && Recording(last.kind, last.name, last.faults)
    requires !Claimed(before, last.source, last.kind, last.name)
    ensures RunOutcome(rows, front + [last], before + [Artifact(last.source, last.kind, last.name, last.version)])
  {
    hide Recording, LastVersion;
    var a := Artifact(last.source, last.kind, last.name, last.version);
    var out := before + [a];
    forall i | 0 <= i < |before| ensures out[i] == before[i] && !Sets(last, before[i]) {
      assert !SameClaim(before[i], last.source, last.kind, last.name);
    }
    assert out[|before|] == a && Sets(last, a);
    forall i | |rows| <= i < |out|
      ensures SetBy(front + [last], out[i])
    {
      if i < |before| {
        assert SetBy(front, before[i]);
        SetBySnoc(front, last, out[i]);
      } else {
        LastVersionSnoc(front, last, out[i]);
        assert last in front + [last] && Sets(last, out[i]);
      }
    }
    forall i | 0 <= i < |rows| ensures out[i] == rows[i].(version := LastVersion(front + [last], rows[i])) {
      LastVersionSnoc(front, last, rows[i]);
      assert Sets(last, rows[i]) <==> Sets(last, before[i]);
    }
    StillClaimed(front, last, before, out);
  }

  lemma OldRowSet(rows: seq<Artifact>, front: seq<Call>, last: Call, before: seq<Artifact>, at: nat)
    requires RunOutcome(rows, front, before) && Unique(before)
    requires last.Insert? && Recording(last.kind, last.name, last.faults)
    requires at < |before| && SameClaim(before[at], last.source, last.kind, last.name)
    ensures RunOutcome(rows, front + [last], before[at := before[at].(version := last.version)])
  {
    hide Recording, LastVersion;
    var out := before[at := before[at].(version := last.version)];
    OtherRowsUnset(before, last, at);
    forall i | 0 <= i < |out| ensures Sets(last, out[i]) <==> i == at {
      assert i != at ==> !Sets(last, before[i]);
    }
    forall i | |rows| <= i < |out|
      ensures SetBy(front + [last], out[i])
    {
      if i != at {
        assert SetBy(front, before[i]);
        SetBySnoc(front, last, out[i]);
      } else {
        LastVersionSnoc(front, last, out[i]);
        assert last in front + [last] && Sets(last, out[i]);
      }
    }
    forall i | 0 <= i < |rows|
      ensures LastVersion(front + [last], rows[i]) == if i == at then last.version else LastVersion(front, rows[i])
    {
      LastVersionSnoc(front, last, rows[i]);
      assert Sets(last, out[i]) <==> Sets(last, rows[i]);
    }
    assert SameClaim(out[at], last.source, last.kind, last.name);
    StillClaimed(front, last, before, out);
  }

  lemma StillClaimed(front: seq<Call>, last: Call, before: seq<Artifact>, out: seq<Artifact>)
    requires AllClaimed(front, before)
    requires |before| <= |out|
    requires forall i :: 0 <= i < |before| ==> SameClaim(out[i], before[i].source, before[i].kind, before[i].name)
    requires last.Insert? && exists i :: 0 <= i < |out| && SameClaim(out[i], last.source, last.kind, last.name)
    ensures AllClaimed(front + [last], out)
  {
    hide Recording;
    forall c | c in front && c.Insert? && Recording(c.kind, c.name, c.faults)
      ensures Claimed(out, c.source, c.kind, c.name)
    {
      var i :| 0 <= i < |before| && SameClaim(before[i], c.source, c.kind, c.name);
      assert SameClaim(out[i], c.source, c.kind, c.name);
    }
  }

  lemma OtherRowsUnset(rows: seq<Artifact>, c: Call, at: nat)
    requires Unique(rows) && at < |rows| && c.Insert? && SameClaim(rows[at], c.source, c.kind, c.name)
    ensures forall i :: 0 <= i < |rows| && i != at ==> !Sets(c, rows[i])
  {
    hide Recording;
    forall i | 0 <= i < |rows| && i != at ensures !Sets(c, rows[i]) {
      assert i < at ==> !SameClaim(rows[i], rows[at].source, rows[at].kind, rows[at].name);
      assert at < i ==> !SameClaim(rows[at], rows[i].source, rows[i].kind, rows[i].name);
    }
  }

  /** Row i repeats the claim of one of the first n rows. */
  ghost predicate Repeats(rows: seq<Artifact>, n: nat, i: nat)
  {
    exists j :: 0 <= j < n <= |rows| && i < |rows| && SameClaim(rows[j], rows[i].source, rows[i].kind, rows[i].name)
  }

  lemma NothingToAppend(rows: seq<Artifact>, n: nat)
    requires n <= |rows|
    ensures Unique(rows) && (forall i :: n <= i < |rows| ==> Repeats(rows, n, i)) ==> |rows| == n
  {
    if n < |rows| && Repeats(rows, n, n) {
      var j :| 0 <= j < n && SameClaim(rows[j], rows[n].source, rows[n].kind, rows[n].name);
    }
  }

  /** On a ledger that already has what the calls claim, an added row would repeat a claim. */
  lemma AppendedRepeats(out: seq<Artifact>, calls: seq<Call>, again: seq<Artifact>)
    requires RunOutcome(out, calls, again)
    requires AllClaimed(calls, out)
    ensures forall i :: |out| <= i < |again| ==> Repeats(again, |out|, i)
  {
    hide Recording, LastVersion;
    forall i | |out| <= i < |again| ensures Repeats(again, |out|, i) {
      assert SetBy(calls, again[i]);
      var c :| c in calls && Sets(c, again[i]);
      var j :| 0 <= j < |out| && SameClaim(out[j], c.source, c.kind, c.name);
      assert SameClaim(again[j], again[i].source, again[i].kind, again[i].name);
    }
  }

  /** Making the same calls once more leaves the ledger as it is, row by row:
      whatever was in it, and whichever versions the calls carry. */
  lemma RunAgain(rows: seq<Artifact>, calls: seq<Call>, f: (string, Kind, string) -> Faults, indexed: bool)
    requires Unique(rows) && Steady(calls, f)
    ensures After(After(rows, calls, indexed), calls, indexed) == After(rows, calls, indexed)
  {
    var out := After(rows, calls, indexed);
    var again := After(out, calls, indexed);
    LedgerStaysUnique(rows, calls, indexed);
    LedgerStaysUnique(out, calls, indexed);
    RunSets(rows, calls, f, indexed);
    RunSets(out, calls, f, indexed);
    AppendedRepeats(out, calls, again);
    NothingToAppend(again, |out|);
    hide After, Recording, LastVersion, Repeats, Unique, Claimed;
    forall i | 0 <= i < |out| ensures again[i] == out[i] {
      LastVersionTwice(calls, if i < |rows| then rows[i] else out[i]);
    }
  }

  // ---------------------------------------------------------------- What a ledger can hold

  lemma {:induction false} LedgerHolds(calls: seq<Call>, indexed: bool)
    ensures forall a :: a in After([], calls, indexed) ==> Storable(a.kind, a.name)
  {
    if calls != [] {
      hide Storable;
      var front, last := calls[..|calls| - 1], calls[|calls| - 1];
      LedgerHolds(front, indexed);
      var before := After([], front, indexed);
      match last {
        case Insert(s, k, n, v, f) =>
          if Claimed(before, s, k, n) {
            var at := FirstClaim(before, s, k, n);
            ReversionedAt(before, at, s, k, n, v);
          }
        case Release(ks, n, q) => ReleasedMembers(before, ks, n, q);
      }
    }
  }

  ghost predicate Unclaimed(rows: seq<Artifact>, kind: Kind)
  {
    forall s :: Claims(rows, s, kind) == {}
  }

  /** No call, and no run of calls, ever leaves a claim on a bundled collection. */
  lemma CollectionsNeverClaimed(calls: seq<Call>, indexed: bool)
    ensures Unclaimed(After([], calls, indexed), LocalCollection)
  {
    LedgerHolds(calls, indexed);
    forall a | a in After([], calls, indexed) ensures !a.kind.LocalCollection? {
      StorableIff(a.kind, a.name);
    }
  }

  /** One call with a working database claims any other kind. */
  lemma OtherKindsClaimable(kind: Kind)
    requires !kind.LocalCollection?
    ensures !Unclaimed(After([], [Insert("s", kind, "a", "", Faults(true, true, true))], true), kind)
  {
    var f := Faults(true, true, true);
    var calls := [Insert("s", kind, "a", "", f)];
    StorableIff(kind, "a");
    InsertClaims([], "s", kind, "a", "", f, true, "s", kind);
    assert After([], calls[..0], true) == [];
    assert "a" in Claims(After([], calls, true), "s", kind);
  }

  /** The kinds that no run of calls ever claims are exactly the bundled collections. */
  lemma NeverClaimedIff(kind: Kind)
    ensures (forall calls, indexed :: Unclaimed(After([], calls, indexed), kind)) <==> kind.LocalCollection?
  {
    if kind.LocalCollection? {
      forall calls, indexed ensures Unclaimed(After([], calls, indexed), kind) {
        CollectionsNeverClaimed(calls, indexed);
      }
    } else {
      OtherKindsClaimable(kind);
    }
  }
}

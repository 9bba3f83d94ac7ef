/** The range and user numbers of ludus-api/database.go and the names, routes and
    tags derived from a range number (network.go, sdn.go, api_migration.go). */
module Numbers {
  import opened Text
  import opened Options
  import opened HostNetwork

  // ---------------------------------------------------------------- The search

  function Members(xs: seq<int>): set<int>
  {
    set x | x in xs
  }

  /** The least number from `first` on that is not taken. */
  ghost predicate IsLeastFree(n: int, first: int, taken: set<int>)
  {
    first <= n && n !in taken && forall i :: first <= i < n ==> i in taken
  }

  /** A set that holds a whole interval is at least as large as the interval. */
  lemma {:induction false} IntervalFits(taken: set<int>, first: int, n: nat)
    requires forall i :: first <= i < first + n ==> i in taken
    ensures n <= |taken|
  {
    if n > 0 {
      IntervalFits(taken - {first + n - 1}, first, n - 1);
    }
  }

  lemma {:induction false} MembersFew(xs: seq<int>)
    ensures |Members(xs)| <= |xs|
  {
    if xs == [] {
      assert Members(xs) == {};
    } else {
      var front := xs[..|xs| - 1];
      MembersFew(front);
      assert xs == front + [xs[|xs| - 1]];
      assert Members(xs) == Members(front) + {xs[|xs| - 1]};
    }
  }

  /** While everything below `i` is taken, `i` is within the bound. */
  lemma SearchBound(used: seq<int>, reserved: seq<int>, first: int, i: int)
    requires first <= i && forall k :: first <= k < i ==> k in Members(used) + Members(reserved)
    ensures i - first <= |used| + |reserved|
  {
    MembersFew(used);
    MembersFew(reserved);
    IntervalFits(Members(used) + Members(reserved), first, i - first);
  }

  /** The specification leaves the search no choice. */
  lemma OnlyLeastFree(n: int, first: int, taken: set<int>)
    requires IsLeastFree(n, first, taken)
    ensures forall k :: IsLeastFree(k, first, taken) ==> k == n
  {
    forall k | IsLeastFree(k, first, taken) ensures k == n {
      assert k < n ==> k in taken;
      assert n < k ==> n in taken;
    }
  }

  method FindNextAvailableRangeNumber(queryOk: bool, used: seq<int>, reserved: seq<int>) returns (n: int)
    ensures !queryOk ==> n == -1
    ensures queryOk ==> IsLeastFree(n, 1, Members(used) + Members(reserved)) && n <= |used| + |reserved| + 1
    ensures queryOk ==> forall k :: IsLeastFree(k, 1, Members(used) + Members(reserved)) ==> k == n
  {
    if !queryOk {
      return -1;
    }
    var i := 1;
    while true
      invariant 1 <= i && forall k :: 1 <= k < i ==> k in Members(used) + Members(reserved)
      decreases |used| + |reserved| + 1 - i
    {
      SearchBound(used, reserved, 1, i);
      var found := false;
      for j := 0 to |used|
        invariant !found && i !in used[..j]
      {
        if used[j] == i {
          found := true;
          break;
        }
      }
      if !found {
        for j := 0 to |reserved|
          invariant !found && i !in reserved[..j]
        {
          if reserved[j] == i {
            found := true;
            break;
          }
        }
        if !found {
          OnlyLeastFree(i, 1, Members(used) + Members(reserved));
          return i;
        }
      }
      SearchBound(used, reserved, 1, i + 1);
      i := i + 1;
    }
  }

  /** User numbers start at 2: number 1 belongs to root. */
  method FindNextAvailableUserNumber(queryOk: bool, used: seq<int>) returns (n: int)
    ensures !queryOk ==> n == -1
    ensures queryOk ==> IsLeastFree(n, 2, Members(used)) && n <= |used| + 2
    ensures queryOk ==> forall k :: IsLeastFree(k, 2, Members(used)) ==> k == n
  {
    if !queryOk {
      return -1;
    }
    var i := 2;
    while true
      invariant 2 <= i && forall k :: 2 <= k < i ==> k in Members(used)
      decreases |used| + 2 - i
    {
      SearchBound(used, [], 2, i);
      var found := false;
      for j := 0 to |used|
        invariant !found && i !in used[..j]
      {
        if used[j] == i {
          found := true;
          break;
        }
      }
      if !found {
        OnlyLeastFree(i, 2, Members(used));
        return i;
      }
      SearchBound(used, [], 2, i + 1);
      i := i + 1;
    }
  }

  // ---------------------------------------------------------------- Every history of a table

  /** A row is added with the number the search returned (`queryOk` says whether
      the search could read the table), or with a number the caller chose, or a
      row is deleted. */
  datatype Event = Allocate(queryOk: bool, found: int) | Choose(n: int) | Free(at: nat)

  type Int32 = n: int | -0x8000_0000 <= n < 0x8000_0000

  /** The conversion int32(n), which wraps. */
  function ToInt32(n: int): Int32
  {
    (n + 0x8000_0000) % TWO_TO_32 - 0x8000_0000
  }

  /** Ranges: first number 1, a reserved list, and a unique index on the column.
      Users: first number 2, nothing reserved, no index, no choosing. */
  datatype Column = Column(first: int, reserved: seq<Int32>, indexed: bool)

  ghost predicate Possible(col: Column, rows: seq<int>, e: Event)
  {
    match e
    case Allocate(queryOk, found) =>
      if queryOk then IsLeastFree(found, col.first, Members(rows) + Members(col.reserved)) else found == -1
    case Choose(_) => col.indexed
    case Free(at) => at < |rows|
  }

  function Next(col: Column, rows: seq<int>, e: Event): seq<int>
  {
    match e
    case Allocate(_, found) => if col.indexed && found in rows then rows else rows + [found]
    case Choose(n) => if n <= 0 || ToInt32(n) in col.reserved || n in rows then rows else rows + [n]
    case Free(at) => if at < |rows| then rows[..at] + rows[at + 1..] else rows
  }

  /** A chosen number is taken exactly when it is positive, not reserved as a 32-bit
      number, and free; an allocated one unless the index already has it. */
  lemma NextIff(col: Column, rows: seq<int>, n: int, queryOk: bool)
    ensures Next(col, rows, Choose(n)) == rows + [n] <==>
      1 <= n && ToInt32(n) !in col.reserved && forall i :: 0 <= i < |rows| ==> rows[i] != n
    ensures Next(col, rows, Choose(n)) in [rows, rows + [n]]
    ensures Next(col, rows, Allocate(queryOk, n)) == rows + [n] <==>
      !(col.indexed && exists i :: 0 <= i < |rows| && rows[i] == n)
    ensures Next(col, rows, Allocate(queryOk, n)) in [rows, rows + [n]]
  {
    assert |rows + [n]| == |rows| + 1;
  }

  /** The tables a history of events can lead to, from the empty one. */
  ghost predicate Reaches(col: Column, events: seq<Event>, rows: seq<int>)
  {
    if events == [] then rows == []
    else
      var last := events[|events| - 1];
      exists before :: Reaches(col, events[..|events| - 1], before) && Possible(col, before, last)
        && rows == Next(col, before, last)
  }

  ghost predicate Distinct(rows: seq<int>)
  {
    forall i, j :: 0 <= i < j < |rows| ==> rows[i] != rows[j]
  }

  /** Two rows differ unless both are the failure value. */
  ghost predicate Sound(col: Column, rows: seq<int>)
  {
    && (forall i, j :: 0 <= i < j < |rows| && rows[i] == rows[j] ==> rows[i] == -1 && !col.indexed)
    && (forall i :: 0 <= i < |rows| ==> rows[i] == -1 || (rows[i] > 0 && rows[i] !in col.reserved))
  }

  lemma NextSound(col: Column, rows: seq<int>, e: Event)
    requires col.first > 0 && Sound(col, rows) && Possible(col, rows, e)
    ensures Sound(col, Next(col, rows, e))
  {
    if e.Free? {
      var after := Next(col, rows, e);
      assert forall i :: 0 <= i < |after| ==> after[i] == rows[if i < e.at then i else i + 1];
    }
  }

  lemma {:induction false} HistorySound(col: Column, events: seq<Event>, rows: seq<int>)
    requires col.first > 0 && Reaches(col, events, rows)
    ensures Sound(col, rows)
  {
    if events != [] {
      var last := events[|events| - 1];
      var before :| Reaches(col, events[..|events| - 1], before) && Possible(col, before, last)
        && rows == Next(col, before, last);
      HistorySound(col, events[..|events| - 1], before);
      NextSound(col, before, last);
    }
  }

  lemma ReachesNext(col: Column, events: seq<Event>, before: seq<int>, e: Event)
    requires Reaches(col, events, before) && Possible(col, before, e)
    ensures Reaches(col, events + [e], Next(col, before, e))
  {
    var all := events + [e];
    assert all[..|all| - 1] == events && all[|all| - 1] == e;
    assert Reaches(col, all[..|all| - 1], before);
  }

  /** How often the search ran while the table could not be read. */
  function FailedReads(events: seq<Event>): nat
  {
    if events == [] then 0
    else
      var last := events[|events| - 1];
      FailedReads(events[..|events| - 1]) + (if last.Allocate? && !last.queryOk then 1 else 0)
  }

  lemma NextFailures(col: Column, rows: seq<int>, e: Event)
    requires col.first > 0 && Possible(col, rows, e)
    ensures multiset(Next(col, rows, e))[-1] <= multiset(rows)[-1] + (if e.Allocate? && !e.queryOk then 1 else 0)
  {
    if e.Free? {
      assert rows == rows[..e.at] + [rows[e.at]] + rows[e.at + 1..];
    }
  }

  lemma {:induction false} FailuresCounted(col: Column, events: seq<Event>, rows: seq<int>)
    requires col.first > 0 && Reaches(col, events, rows)
    ensures multiset(rows)[-1] <= FailedReads(events)
  {
    if events != [] {
      var last := events[|events| - 1];
      var before :| Reaches(col, events[..|events| - 1], before) && Possible(col, before, last)
        && rows == Next(col, before, last);
      FailuresCounted(col, events[..|events| - 1], before);
      NextFailures(col, before, last);
    }
  }

  lemma TwiceCounted(rows: seq<int>, i: nat, j: nat)
    requires i < j < |rows| && rows[i] == rows[j]
    ensures multiset(rows)[rows[i]] >= 2
  {
    assert rows == rows[..i] + [rows[i]] + rows[i + 1..j] + [rows[j]] + rows[j + 1..];
  }

  /** With an index, or with at most one allocation on a failed read, the numbers
      are pairwise distinct; none is ever a reserved one. */
  lemma NumbersDistinct(col: Column, events: seq<Event>, rows: seq<int>)
    requires col.first > 0 && Reaches(col, events, rows) && (col.indexed || FailedReads(events) <= 1)
    ensures Distinct(rows)
    ensures forall i :: 0 <= i < |rows| && rows[i] != -1 ==> rows[i] > 0 && rows[i] !in col.reserved
  {
    HistorySound(col, events, rows);
    FailuresCounted(col, events, rows);
    forall i, j | 0 <= i < j < |rows| ensures rows[i] != rows[j] {
      if rows[i] == rows[j] {
        TwiceCounted(rows, i, j);
      }
    }
  }

  /** Two user records created while the table cannot be read share the number -1. */
  lemma FailedReadsCollide(col: Column)
    requires !col.indexed
    ensures Reaches(col, [Allocate(false, -1), Allocate(false, -1)], [-1, -1])
    ensures FailedReads([Allocate(false, -1), Allocate(false, -1)]) == 2
  {
    var e := Allocate(false, -1);
    ReachesNext(col, [], [], e);
    assert [] + [e] == [e] && [] + [-1] == [-1];
    ReachesNext(col, [e], [-1], e);
    assert [e] + [e] == [e, e] && [-1] + [-1] == [-1, -1];
    assert FailedReads([e]) == 1 && [e, e][..1] == [e];
  }

  /** Every history in which at most `failures` allocations ran on a failed read
      keeps the numbers pairwise distinct if and only if the column has its
      unique index or `failures` is at most one. */
  lemma NumbersDistinctIff(col: Column, failures: nat)
    requires col.first > 0
    ensures (forall events, rows | Reaches(col, events, rows) && FailedReads(events) <= failures :: Distinct(rows))
      <==> col.indexed || failures <= 1
  {
    if col.indexed || failures <= 1 {
      forall events, rows | Reaches(col, events, rows) && FailedReads(events) <= failures ensures Distinct(rows) {
        NumbersDistinct(col, events, rows);
      }
    } else {
      FailedReadsCollide(col);
      var rows := [-1, -1];
      assert rows[0] == rows[1] && !Distinct(rows);
    }
  }

  // ---------------------------------------------------------------- Tags over histories

  const TWO_TO_32 := 0x1_0000_0000

  /** uint32(base + number), which wraps. */
  function VxlanTag(tagBase: int, n: int): nat
  {
    (tagBase + n) % TWO_TO_32
  }

  /** Tags of two ranges clash exactly when the numbers are a multiple of 2^32 apart. */
  lemma TagsClashIff(tagBase: int, m: int, n: int)
    ensures VxlanTag(tagBase, m) == VxlanTag(tagBase, n) <==> (m - n) % TWO_TO_32 == 0
  {
  }

  ghost predicate TagsDistinct(tagBase: int, rows: seq<int>)
  {
    forall i, j :: 0 <= i < j < |rows| ==> VxlanTag(tagBase, rows[i]) != VxlanTag(tagBase, rows[j])
  }

  predicate ChosenUpTo(events: seq<Event>, limit: int)
  {
    forall i :: 0 <= i < |events| && events[i].Choose? ==> events[i].n <= limit
  }

  ghost predicate Bounded(col: Column, rows: seq<int>, k: nat, limit: int)
  {
    && |rows| <= k
    && forall i :: 0 <= i < |rows| ==> -1 <= rows[i] && (rows[i] <= col.first + k + |col.reserved| || rows[i] <= limit)
  }

  lemma NextBounded(col: Column, rows: seq<int>, e: Event, k: nat, limit: int)
    requires col.first > 0 && Bounded(col, rows, k, limit) && Possible(col, rows, e) && (e.Choose? ==> e.n <= limit)
    ensures Bounded(col, Next(col, rows, e), k + 1, limit)
  {
    if e.Allocate? && e.queryOk {
      SearchBound(rows, col.reserved, col.first, e.found);
    } else if e.Free? {
      assert forall i :: 0 <= i < |rows| - 1 ==> Next(col, rows, e)[i] == rows[if i < e.at then i else i + 1];
    }
  }

  /** Rows stay below the first number plus everything that ever happened, or the
      largest number chosen. */
  lemma {:induction false} RowsBounded(col: Column, events: seq<Event>, rows: seq<int>, limit: int)
    requires col.first > 0 && Reaches(col, events, rows) && ChosenUpTo(events, limit)
    ensures Bounded(col, rows, |events|, limit)
  {
    hide Bounded, Possible, Next;
    EmptyBounded(col, limit);
    if events != [] {
      var front, last := events[..|events| - 1], events[|events| - 1];
      var before :| Reaches(col, front, before) && Possible(col, before, last) && rows == Next(col, before, last);
      RowsBounded(col, front, before, limit);
      NextBounded(col, before, last, |front|, limit);
    }
  }

  lemma EmptyBounded(col: Column, limit: int)
    ensures Bounded(col, [], 0, limit)
  {
  }

  lemma NearTagsDiffer(tagBase: int, m: int, n: int)
    requires -1 <= m < TWO_TO_32 - 1 && -1 <= n < TWO_TO_32 - 1 && m != n
    ensures VxlanTag(tagBase, m) != VxlanTag(tagBase, n)
  {
    TagsClashIff(tagBase, m, n);
  }

  /** A history of ranges short of 2^31 events. */
  ghost predicate RangeHistory(reserved: seq<Int32>, events: seq<Event>, rows: seq<int>, limit: int)
  {
    && Reaches(Column(1, reserved, true), events, rows) && ChosenUpTo(events, limit)
    && |events| + |reserved| < 0x8000_0000
  }

  lemma HistoryTagsDiffer(tagBase: int, reserved: seq<Int32>, events: seq<Event>, rows: seq<int>, limit: int)
    requires RangeHistory(reserved, events, rows, limit) && limit < TWO_TO_32 - 1
    ensures TagsDistinct(tagBase, rows)
  {
    var col := Column(1, reserved, true);
    NumbersDistinct(col, events, rows);
    RowsBounded(col, events, rows, limit);
    forall i, j | 0 <= i < j < |rows| ensures VxlanTag(tagBase, rows[i]) != VxlanTag(tagBase, rows[j]) {
      NearTagsDiffer(tagBase, rows[i], rows[j]);
    }
  }

  /** A failed read and a chosen number of 2^32 - 1 give two ranges one tag. */
  lemma ChosenTagClashes(tagBase: int, reserved: seq<Int32>)
    requires -1 !in reserved && |reserved| < 0x7FFF_FFFE
    ensures var events := [Allocate(false, -1), Choose(TWO_TO_32 - 1)];
            && RangeHistory(reserved, events, [-1, TWO_TO_32 - 1], TWO_TO_32 - 1)
            && !TagsDistinct(tagBase, [-1, TWO_TO_32 - 1])
  {
    var col := Column(1, reserved, true);
    var a, c, rows := Allocate(false, -1), Choose(TWO_TO_32 - 1), [-1, TWO_TO_32 - 1];
    ReachesNext(col, [], [], a);
    assert [] + [a] == [a] && [] + [-1] == [-1];
    assert ToInt32(TWO_TO_32 - 1) == -1;
    ReachesNext(col, [a], [-1], c);
    assert [a] + [c] == [a, c] && [-1] + [TWO_TO_32 - 1] == rows;
    assert rows[0] == -1 && rows[1] == TWO_TO_32 - 1;
    TagsClashIff(tagBase, rows[0], rows[1]);
  }

  /** The tags of the ranges in the table differ after every history in which no
      number beyond `limit` was chosen, if and only if `limit` is below 2^32 - 1. */
  lemma TagsDifferIff(tagBase: int, reserved: seq<Int32>, limit: int)
    requires -1 !in reserved && |reserved| < 0x7FFF_FFFE
    ensures (forall events, rows | RangeHistory(reserved, events, rows, limit) :: TagsDistinct(tagBase, rows))
      <==> limit < TWO_TO_32 - 1
  {
    hide TagsDistinct, Reaches;
    if limit < TWO_TO_32 - 1 {
      forall events, rows | RangeHistory(reserved, events, rows, limit) ensures TagsDistinct(tagBase, rows) {
        HistoryTagsDiffer(tagBase, reserved, events, rows, limit);
      }
    } else {
      ChosenTagClashes(tagBase, reserved);
      assert RangeHistory(reserved, [Allocate(false, -1), Choose(TWO_TO_32 - 1)], [-1, TWO_TO_32 - 1], limit);
    }
  }

  // ---------------------------------------------------------------- Names from numbers

  function VNetName(n: int): string
  {
    "r" + IntText(n)
  }

  const INT64_MIN := -0x8000_0000_0000_0000
  const INT64_MAX := 0x7FFF_FFFF_FFFF_FFFF

  predicate AllDigits(s: string)
  {
    forall c :: c in s ==> '0' <= c <= '9'
  }

  /** strconv.Atoi on a 64-bit machine. */
  function Atoi(s: string): Option<int>
  {
    var signed := s != "" && (s[0] == '-' || s[0] == '+');
    var digits := if signed then s[1..] else s;
    if digits == "" || !AllDigits(digits) then None
    else
      var v := if signed && s[0] == '-' then -DigitsValue(digits) else DigitsValue(digits);
      if INT64_MIN <= v <= INT64_MAX then Some(v) else None
  }

  /** How the migration reads the range number back out of a VNet's name. */
  function NumberOfVNet(name: string): Option<int>
  {
    var parts := Split(name, 'r');
    if |parts| != 2 then None else Atoi(parts[1])
  }

  /** The bridge the migration looks for. */
  function MigratedBridgeName(n: int): string
  {
    "vmbr" + IntText(1000 + n)
  }

  lemma AtoiIntText(n: int)
    requires INT64_MIN <= n <= INT64_MAX
    ensures Atoi(IntText(n)) == Some(n)
  {
    var s := IntText(n);
    hide NatText, DigitsValue;
    IntTextHead(n);
    if n < 0 {
      NatTextValue(-n);
    } else {
      NatTextValue(n);
      assert s[0] in NatText(n);
    }
  }

  lemma VNetRoundTrip(n: int)
    requires INT64_MIN <= n <= INT64_MAX
    ensures NumberOfVNet(VNetName(n)) == Some(n)
  {
    assert VNetName(n) == "" + ['r'] + IntText(n);
    SplitPlainThen("", 'r', IntText(n));
    SplitPlain(IntText(n), 'r');
    assert Split(VNetName(n), 'r') == ["", IntText(n)];
    AtoiIntText(n);
  }

  function PowTen(k: nat): nat
  {
    if k == 0 then 1 else 10 * PowTen(k - 1)
  }

  lemma {:induction false} LeadingDigit(d: char, s: string)
    requires '0' <= d <= '9'
    ensures DigitsValue([d] + s) == (d as int - '0' as int) * PowTen(|s|) + DigitsValue(s)
  {
    if s == "" {
      assert ([d] + s)[..0] == "";
    } else {
      var front := s[..|s| - 1];
      LeadingDigit(d, front);
      assert ([d] + s)[..|s|] == [d] + front;
      assert 10 * ((d as int - '0' as int) * PowTen(|front|)) == (d as int - '0' as int) * PowTen(|s|);
    }
  }

  lemma PaddedValue(n: nat)
    ensures AllDigits(Pad3(n)) && DigitsValue(Pad3(n)) == n && |Pad3(n)| >= 3
  {
    var digits := NatText(n);
    NatTextValue(n);
    if |digits| == 2 {
      LeadingDigit('0', digits);
      assert Pad3(n) == ['0'] + digits;
    } else if |digits| == 1 {
      LeadingDigit('0', digits);
      LeadingDigit('0', ['0'] + digits);
      assert Pad3(n) == ['0'] + (['0'] + digits);
    } else {
      assert Pad3(n) == digits;
    }
  }

  lemma NatTextLength(n: nat)
    ensures n <= 999 ==> |NatText(n)| <= 3
    ensures n >= 1000 ==> |NatText(n)| >= 4
  {
    if n >= 10 {
      assert |NatText(n)| == |NatText(n / 10)| + 1;
      if n >= 100 {
        assert |NatText(n / 10)| == |NatText(n / 100)| + 1;
        if n >= 1000 {
          assert |NatText(n / 100)| == |NatText(n / 1000)| + 1;
        }
      }
    }
  }

  lemma {:induction false} SameDigits(a: string, b: string)
    requires AllDigits(a) && AllDigits(b) && |a| == |b| && DigitsValue(a) == DigitsValue(b)
    ensures a == b
  {
    if a != "" {
      var fa, fb, da, db := a[..|a| - 1], b[..|b| - 1], a[|a| - 1], b[|b| - 1];
      assert da in a && db in b;
      assert forall c :: c in fa ==> c in a;
      assert forall c :: c in fb ==> c in b;
      assert DigitsValue(fa) == DigitsValue(fb) && da == db;
      SameDigits(fa, fb);
      assert a == fa + [da] && b == fb + [db];
    }
  }

  /** The padded name of range n is the name the migration looks for exactly on 0 to 999. */
  lemma BridgeNamesAgreeIff(n: int)
    ensures BridgeName(n) == MigratedBridgeName(n) <==> 0 <= n <= 999
  {
    hide Pad3, IntText, NatText;
    CancelPrefix("vmbr", "1" + Pad3(n), IntText(1000 + n));
    assert BridgeName(n) == "vmbr" + ("1" + Pad3(n));
    if n < 0 {
      NegativePadded(n);
    } else {
      NaturalPadded(n);
    }
  }

  lemma NaturalPadded(n: nat)
    ensures "1" + Pad3(n) == IntText(1000 + n) <==> n <= 999
  {
    PaddedValue(n);
    PadLength(n);
    hide Pad3, NatText, DigitsValue;
    LeadingDigit('1', Pad3(n));
    assert "1" + Pad3(n) == ['1'] + Pad3(n);
    NatTextValue(1000 + n);
    if n <= 999 {
      assert PowTen(1) == 10 && PowTen(2) == 100 && PowTen(3) == 1000;
      FourDigits(n);
      SameDigits("1" + Pad3(n), NatText(1000 + n));
    } else {
      PowTenGrows(|Pad3(n)|);
    }
  }

  lemma PadLength(n: nat)
    ensures n <= 999 ==> |Pad3(n)| == 3
    ensures n >= 1000 ==> |Pad3(n)| >= 4
  {
    NatTextLength(n);
  }

  lemma NegativePadded(n: int)
    requires n < 0
    ensures "1" + Pad3(n) != IntText(1000 + n)
  {
    var plain := IntText(1000 + n);
    assert ("1" + Pad3(n))[1] == '-';
    if 1000 + n >= 0 {
      assert '-' !in NatText(1000 + n);
    } else {
      assert plain[0] == '-';
    }
  }

  lemma FourDigits(n: nat)
    requires n <= 999
    ensures |NatText(1000 + n)| == 4
  {
    assert |NatText((1000 + n) / 1000)| == 1;
    assert |NatText((1000 + n) / 100)| == 2;
    assert |NatText((1000 + n) / 10)| == 3;
  }

  lemma {:induction false} PowTenGrows(k: nat)
    requires k >= 4
    ensures PowTen(k) >= 10000
  {
    if k > 4 {
      PowTenGrows(k - 1);
    } else {
      assert PowTen(1) == 10 && PowTen(2) == 100 && PowTen(3) == 1000;
    }
  }

  /** Different ranges get different bridges, VNets and routes. */
  lemma RangeNamesInjective(m: nat, n: nat)
    requires BridgeName(m) == BridgeName(n) || VNetName(m) == VNetName(n) || NetworkVia(m) == NetworkVia(n)
    ensures m == n
  {
    if BridgeName(m) == BridgeName(n) {
      assert BridgeName(m)[5..] == Pad3(m) && BridgeName(n)[5..] == Pad3(n);
      PaddedValue(m);
      PaddedValue(n);
    } else if VNetName(m) == VNetName(n) {
      assert VNetName(m)[1..] == IntText(m) && VNetName(n)[1..] == IntText(n);
      IntTextInjective(m, n);
    } else {
      RouteStart(m);
      RouteStart(n);
      IntTextInjective(m, n);
    }
  }

  lemma RouteStart(n: int)
    ensures |Split(NetworkVia(n), '.')| > 1 && Split(NetworkVia(n), '.')[1] == IntText(n)
  {
    hide IntText, Split;
    var rest := "0.0/16 via 192.0.2." + IntText(100 + n);
    SecondPiece(" 10", IntText(n), rest);
    ViaInPieces(IntText(n), IntText(100 + n));
  }

  lemma ViaInPieces(a: string, b: string)
    ensures " 10." + a + ".0.0/16 via 192.0.2." + b == " 10" + ['.'] + (a + ['.'] + ("0.0/16 via 192.0.2." + b))
  {
    var middle := ['.'] + "0.0/16 via 192.0.2.";
    assert " 10" + ['.'] == " 10." && middle == ".0.0/16 via 192.0.2.";
    assert " 10." + a + middle + b == " 10." + (a + ['.'] + ("0.0/16 via 192.0.2." + b));
  }

  lemma SecondPiece(a: string, b: string, rest: string)
    requires '.' !in a && '.' !in b
    ensures var parts := Split(a + ['.'] + (b + ['.'] + rest), '.');
            |parts| > 1 && parts[1] == b
  {
    SplitPlainThen(a, '.', b + ['.'] + rest);
    SplitPlainThen(b, '.', rest);
  }
}

/** Version constraints of the catalog: installedVersionSatisfies and
    parseVersionConstraint (ludus-api/source_catalog.go). The semver library
    parses; its precedence is the one of section 11 of Semantic Versioning 2.0.0. */
module Versions {
  import opened Text
  import opened StringOrder
  import opened Options

  // ---------------------------------------------------------------- Precedence

  datatype Ident = Num(n: nat) | Alpha(s: string)

  /** A parsed version without its build metadata. */
  datatype Version = Version(major: nat, minor: nat, patch: nat, pre: seq<Ident>)

  function Sign(a: int, b: int): int
  {
    if a < b then -1 else if a > b then 1 else 0
  }

  function CompareIdent(a: Ident, b: Ident): int
  {
    match (a, b)
    case (Num(m), Num(n)) => Sign(m, n)
    case (Num(_), Alpha(_)) => -1
    case (Alpha(_), Num(_)) => 1
    case (Alpha(s), Alpha(t)) => if Less(s, t) then -1 else if s == t then 0 else 1
  }

  /** Identifier by identifier; a proper prefix comes first. */
  function CompareIdents(a: seq<Ident>, b: seq<Ident>): int
  {
    if a == [] || b == [] then Sign(|a|, |b|)
    else if CompareIdent(a[0], b[0]) != 0 then CompareIdent(a[0], b[0])
    else CompareIdents(a[1..], b[1..])
  }

  /** A release comes after all of its pre-releases. */
  function ComparePre(a: seq<Ident>, b: seq<Ident>): int
  {
    if a == [] || b == [] then Sign(|b|, |a|) else CompareIdents(a, b)
  }

  function Compare(a: Version, b: Version): int
  {
    if a.major != b.major then Sign(a.major, b.major)
    else if a.minor != b.minor then Sign(a.minor, b.minor)
    else if a.patch != b.patch then Sign(a.patch, b.patch)
    else ComparePre(a.pre, b.pre)
  }

  // ---------------------------------------------------------------- Precedence as section 11 words it

  /** Numbers by size, words by text, and a number before a word. */
  ghost predicate IdentPrecedes(a: Ident, b: Ident)
  {
    || (a.Num? && b.Num? && a.n < b.n)
    || (a.Num? && b.Alpha?)
    || (a.Alpha? && b.Alpha? && Before(a.s, b.s))
  }

  /** The first identifiers that differ decide; if none do, the shorter list comes first. */
  ghost predicate IdentsPrecede(a: seq<Ident>, b: seq<Ident>)
  {
    (a <= b && a != b) || exists k :: 0 <= k < |a| && k < |b| && a[..k] == b[..k] && IdentPrecedes(a[k], b[k])
  }

  ghost predicate Precedes(a: Version, b: Version)
  {
    || a.major < b.major
    || (a.major == b.major && a.minor < b.minor)
    || (a.major == b.major && a.minor == b.minor && a.patch < b.patch)
    || (a.major == b.major && a.minor == b.minor && a.patch == b.patch
        && ((a.pre != [] && b.pre == []) || (a.pre != [] && b.pre != [] && IdentsPrecede(a.pre, b.pre))))
  }

  lemma IdentComparesIff(a: Ident, b: Ident)
    ensures CompareIdent(a, b) < 0 <==> IdentPrecedes(a, b)
  {
    if a.Alpha? && b.Alpha? {
      LessIff(a.s, b.s);
      LessTotal(a.s, b.s);
    }
  }

  lemma {:induction false} IdentsCompareIff(a: seq<Ident>, b: seq<Ident>)
    ensures CompareIdents(a, b) < 0 <==> IdentsPrecede(a, b)
  {
    hide CompareIdent, IdentPrecedes;
    if a != [] && b != [] {
      IdentsCompareIff(a[1..], b[1..]);
      IdentComparesIff(a[0], b[0]);
      IdentOrder(a[0], b[0]);
      IdentsTail(a, b);
    }
  }

  /** Equal first identifiers can be left out; different ones decide. */
  lemma IdentsTail(a: seq<Ident>, b: seq<Ident>)
    requires a != [] && b != []
    ensures a[0] == b[0] ==> (IdentsPrecede(a, b) <==> IdentsPrecede(a[1..], b[1..]))
    ensures a[0] != b[0] ==> (IdentsPrecede(a, b) <==> IdentPrecedes(a[0], b[0]))
  {
    hide IdentPrecedes;
    IdentComparesIff(a[0], b[0]);
    IdentOrder(a[0], b[0]);
    assert a == [a[0]] + a[1..] && b == [b[0]] + b[1..];
    if k :| 0 <= k < |a| && k < |b| && a[..k] == b[..k] && IdentPrecedes(a[k], b[k]) {
      if k > 0 {
        assert a[0] == a[..k][0] == b[0];
        assert a[1..][..k - 1] == a[..k][1..] && b[1..][..k - 1] == b[..k][1..];
        assert a[1..][k - 1] == a[k] && b[1..][k - 1] == b[k];
      }
    }
    if a[0] == b[0] {
      if k :| 0 <= k < |a| - 1 && k < |b| - 1 && a[1..][..k] == b[1..][..k] && IdentPrecedes(a[1..][k], b[1..][k]) {
        assert a[..k + 1] == [a[0]] + a[1..][..k] && b[..k + 1] == [b[0]] + b[1..][..k];
        assert a[k + 1] == a[1..][k] && b[k + 1] == b[1..][k];
      }
    } else if IdentPrecedes(a[0], b[0]) {
      assert a[..0] == b[..0];
    }
  }

  /** The comparison is the precedence of section 11. */
  lemma ComparesIff(a: Version, b: Version)
    ensures Compare(a, b) < 0 <==> Precedes(a, b)
    ensures Compare(a, b) > 0 <==> Precedes(b, a)
  {
    PrecedenceTotal(a, b);
    IdentsCompareIff(a.pre, b.pre);
    IdentsCompareIff(b.pre, a.pre);
    hide CompareIdents, IdentsPrecede;
  }

  lemma IdentOrder(a: Ident, b: Ident)
    ensures CompareIdent(b, a) == -CompareIdent(a, b)
    ensures CompareIdent(a, b) == 0 <==> a == b
  {
    if a.Alpha? && b.Alpha? {
      LessTotal(a.s, b.s);
    }
  }

  lemma IdentTransitive(a: Ident, b: Ident, c: Ident)
    requires CompareIdent(a, b) < 0 && CompareIdent(b, c) < 0
    ensures CompareIdent(a, c) < 0
  {
    if a.Alpha? && b.Alpha? && c.Alpha? {
      LessTransitive(a.s, b.s, c.s);
    }
  }

  lemma {:induction false} IdentsOrder(a: seq<Ident>, b: seq<Ident>)
    ensures CompareIdents(b, a) == -CompareIdents(a, b)
    ensures CompareIdents(a, b) == 0 <==> a == b
  {
    hide CompareIdent;
    if a != [] && b != [] {
      IdentOrder(a[0], b[0]);
      IdentsOrder(a[1..], b[1..]);
      assert a == [a[0]] + a[1..] && b == [b[0]] + b[1..];
    }
  }

  lemma {:induction false} IdentsTransitive(a: seq<Ident>, b: seq<Ident>, c: seq<Ident>)
    requires CompareIdents(a, b) < 0 && CompareIdents(b, c) < 0
    ensures CompareIdents(a, c) < 0
  {
    hide CompareIdent;
    if a != [] && b != [] && c != [] {
      IdentOrder(a[0], b[0]);
      IdentOrder(b[0], c[0]);
      IdentOrder(a[0], c[0]);
      if CompareIdent(a[0], b[0]) < 0 && CompareIdent(b[0], c[0]) < 0 {
        IdentTransitive(a[0], b[0], c[0]);
      } else if CompareIdent(a[0], b[0]) == 0 && CompareIdent(b[0], c[0]) == 0 {
        IdentsTransitive(a[1..], b[1..], c[1..]);
      }
    }
  }

  /** Precedence is a total preorder, and ties are the versions that differ in
      nothing but build metadata. */
  lemma PrecedenceTotal(a: Version, b: Version)
    ensures Compare(b, a) == -Compare(a, b)
    ensures Compare(a, b) == 0 <==> a == b
  {
    IdentsOrder(a.pre, b.pre);
  }

  lemma PrecedenceTransitive(a: Version, b: Version, c: Version)
    requires Compare(a, b) <= 0 && Compare(b, c) <= 0
    ensures Compare(a, c) <= 0
  {
    PrecedenceTotal(a, b);
    PrecedenceTotal(b, c);
    if CompareIdents(a.pre, b.pre) < 0 && CompareIdents(b.pre, c.pre) < 0 {
      IdentsTransitive(a.pre, b.pre, c.pre);
    }
    hide CompareIdents;
  }

  /** A pre-release precedes its release, and more identifiers come later. */
  lemma PreReleaseFirst(major: nat, minor: nat, patch: nat, pre: seq<Ident>, more: seq<Ident>)
    requires pre != [] && more != []
    ensures Compare(Version(major, minor, patch, pre), Version(major, minor, patch, [])) < 0
    ensures Compare(Version(major, minor, patch, pre), Version(major, minor, patch, pre + more)) < 0
  {
    PrefixFirst(pre, more);
  }

  lemma {:induction false} PrefixFirst(pre: seq<Ident>, more: seq<Ident>)
    requires more != []
    ensures CompareIdents(pre, pre + more) < 0
  {
    if pre != [] {
      IdentOrder(pre[0], pre[0]);
      PrefixFirst(pre[1..], more);
      assert (pre + more)[1..] == pre[1..] + more;
    }
  }

  // ---------------------------------------------------------------- Constraints

  const OPERATORS: seq<string> := [">=", "<=", "==", "!=", ">", "<"]

  function ParseVersionConstraint(constraint: string): (string, string)
  {
    var s := Trim(constraint);
    if ">=" <= s then (">=", Trim(s[2..]))
    else if "<=" <= s then ("<=", Trim(s[2..]))
    else if "==" <= s then ("==", Trim(s[2..]))
    else if "!=" <= s then ("!=", Trim(s[2..]))
    else if ">" <= s then (">", Trim(s[1..]))
    else if "<" <= s then ("<", Trim(s[1..]))
    else ("==", s)
  }

  function Semverify(v: string): string
  {
    if v == "" || "v" <= v then v else "v" + v
  }

  predicate Holds(op: string, cmp: int)
  {
    match op
    case "==" => cmp == 0
    case "!=" => cmp != 0
    case ">" => cmp > 0
    case ">=" => cmp >= 0
    case "<" => cmp < 0
    case "<=" => cmp <= 0
    case _ => false
  }

  /** `parse` is the semver library's parser: None for what it calls invalid. */
  predicate InstalledVersionSatisfies(parse: string -> Option<Version>, installed: string, constraint: string)
  {
    var i, c := Trim(installed), Trim(constraint);
    if i == "" || c == "" then false
    else
      var (op, want) := ParseVersionConstraint(c);
      if want == "" then false
      else
        match (parse(Semverify(i)), parse(Semverify(want)))
        case (Some(a), Some(b)) => Holds(op, Compare(a, b))
        case _ => op == "==" && i == want
  }

  /** The operand can stand behind the operator as it is. */
  predicate PrintsBack(op: string, v: string)
  {
    Solid(v) && (op in [">", "<"] ==> !("=" <= v))
  }

  lemma TrimWithOperator(op: string, v: string)
    requires op in OPERATORS
    ensures Trim(op + v) == op + TrimRight(v)
    ensures Solid(v) ==> TrimRight(v) == v
  {
    assert HasInk(op) by {
      assert !IsSpace(op[0]);
    }
    assert !IsSpace((op + v)[0]);
    if HasInk(v) {
      TrimRightConcat(op, v);
    } else {
      BlankTail(op, v);
    }
  }

  lemma {:induction false} BlankTail(op: string, v: string)
    requires op != "" && !IsSpace(op[|op| - 1]) && !HasInk(v)
    ensures TrimRight(op + v) == op && TrimRight(v) == ""
  {
    if v == "" {
      assert op + v == op;
    } else {
      var front := v[..|v| - 1];
      assert IsSpace(v[|v| - 1]);
      assert forall i :: 0 <= i < |front| ==> front[i] == v[i];
      assert !HasInk(front);
      BlankTail(op, front);
      assert (op + v)[..|op + v| - 1] == op + front;
    }
  }

  /** Parsing a printed operator and version gives both back, for all six
      operators, if and only if the version has no white space at its ends and
      does not turn '>' or '<' into '>=' or '<='. */
  lemma ParsePrintedIff(op: string, v: string)
    requires op in OPERATORS
    ensures ParseVersionConstraint(op + v) == (op, v) <==> PrintsBack(op, v)
  {
    TrimWithOperator(op, v);
    var s := op + TrimRight(v);
    SolidIsTrimmed(v);
    if op in [">", "<"] && "=" <= v {
      assert TrimRight(v) != "" by { TrimRightKeepsInk(v); }
      TrimRightIsPrefix(v);
      assert s[..2] == op + "=";
      assert !PrintsBack(op, v);
    } else {
      NoLongerOperator(op, v);
      assert s[|op|..] == TrimRight(v);
      assert ParseVersionConstraint(op + v) == (op, Trim(TrimRight(v)));
      TrimOfTrimRight(v);
    }
  }

  lemma TrimRightKeepsInk(v: string)
    requires v != "" && !IsSpace(v[0])
    ensures TrimRight(v) != "" && TrimRight(v)[0] == v[0]
  {
    assert v == [v[0]] + v[1..];
    if HasInk(v[1..]) {
      TrimRightConcat([v[0]], v[1..]);
    } else {
      BlankTail([v[0]], v[1..]);
    }
  }

  lemma NoLongerOperator(op: string, v: string)
    requires op in OPERATORS && !(op in [">", "<"] && "=" <= v)
    ensures ParseVersionConstraint(op + v).0 == op
  {
    TrimWithOperator(op, v);
    TrimRightIsPrefix(v);
    var s := op + TrimRight(v);
    assert |op| == 1 && |s| > 1 ==> s[1] == v[0];
    assert op <= s;
  }

  /** Trimming an already right-trimmed string gives the string back only if it was solid. */
  lemma TrimOfTrimRight(v: string)
    ensures Trim(TrimRight(v)) == v <==> Solid(v)
  {
    TrimRightIsPrefix(v);
    TrimIsSolid(TrimRight(v));
    if Solid(v) {
      SolidIsTrimmed(v);
    }
  }

  // ---------------------------------------------------------------- Laws of the operators

  ghost predicate Operand(w: string)
  {
    w != "" && Solid(w) && !("=" <= w)
  }

  lemma SatisfiesPrinted(parse: string -> Option<Version>, installed: string, op: string, w: string)
    requires op in OPERATORS && Operand(w)
    ensures InstalledVersionSatisfies(parse, installed, op + w) <==>
      (Trim(installed) != ""
       && match (parse(Semverify(Trim(installed))), parse(Semverify(w)))
          case (Some(a), Some(b)) => Holds(op, Compare(a, b))
          case _ => op == "==" && Trim(installed) == w)
  {
    TrimWithOperator(op, w);
    ParsePrintedIff(op, w);
    hide Trim, TrimRight, Compare, Semverify;
  }

  predicate Comparable(parse: string -> Option<Version>, installed: string, w: string)
  {
    Trim(installed) != "" && parse(Semverify(Trim(installed))).Some? && parse(Semverify(w)).Some?
  }

  /** What each operator asks of an installed version, when both can be compared and when not. */
  lemma OperatorMeans(parse: string -> Option<Version>, installed: string, op: string, w: string)
    requires op in OPERATORS && Operand(w)
    ensures var met := InstalledVersionSatisfies(parse, installed, op + w);
      if Comparable(parse, installed, w) then
        var a, b := parse(Semverify(Trim(installed))).value, parse(Semverify(w)).value;
        && (op == "==" ==> (met <==> a == b)) && (op == "!=" ==> (met <==> a != b))
        && (op == ">" ==> (met <==> Precedes(b, a))) && (op == ">=" ==> (met <==> Precedes(b, a) || a == b))
        && (op == "<" ==> (met <==> Precedes(a, b))) && (op == "<=" ==> (met <==> Precedes(a, b) || a == b))
      else met <==> op == "==" && Trim(installed) != "" && Trim(installed) == w
  {
    hide InstalledVersionSatisfies, Trim, Compare, Semverify, Precedes, Operand;
    SatisfiesPrinted(parse, installed, op, w);
    if Comparable(parse, installed, w) {
      var a, b := parse(Semverify(Trim(installed))).value, parse(Semverify(w)).value;
      ComparesIff(a, b);
      PrecedenceTotal(a, b);
    }
  }

  /** Nothing is met without an installed version and a wanted one. */
  lemma NothingToCompare(parse: string -> Option<Version>, installed: string, constraint: string)
    ensures Trim(installed) == "" || Trim(constraint) in [""] + OPERATORS ==>
      !InstalledVersionSatisfies(parse, installed, constraint)
  {
    var c := Trim(constraint);
    if c in OPERATORS {
      NoLongerOperator(c, "");
      assert c + "" == c;
    }
  }

  /** A version gets its leading v exactly when it has none. */
  lemma SemverifyIff(v: string, w: string)
    requires v != ""
    ensures Semverify(v) == w <==> (v[0] == 'v' && w == v) || (v[0] != 'v' && w == ['v'] + v)
    ensures Semverify("") == ""
  {
  }

  /** Of each complementary pair exactly one operator holds when both versions
      parse, and neither when one does not; only "==" falls back to comparing text. */
  lemma OperatorsComplement(parse: string -> Option<Version>, installed: string, w: string)
    requires Operand(w)
    ensures var sat := (op: string) => InstalledVersionSatisfies(parse, installed, op + w);
            && ((sat(">=") != sat("<")) <==> Comparable(parse, installed, w))
            && ((sat(">") != sat("<=")) <==> Comparable(parse, installed, w))
            && ((sat("==") != sat("!=")) <==> Comparable(parse, installed, w) || Trim(installed) == w)
            && !(sat(">=") && sat("<")) && !(sat(">") && sat("<=")) && !(sat("==") && sat("!="))
            && (Comparable(parse, installed, w) ==> (sat("==") <==> sat(">=") && sat("<=")))
  {
    hide InstalledVersionSatisfies, Trim, Compare, Semverify;
    SatisfiesPrinted(parse, installed, ">=", w);
    SatisfiesPrinted(parse, installed, "<", w);
    SatisfiesPrinted(parse, installed, ">", w);
    SatisfiesPrinted(parse, installed, "<=", w);
    SatisfiesPrinted(parse, installed, "==", w);
    SatisfiesPrinted(parse, installed, "!=", w);
  }

  /** A ">=" pin that is met stays met by every newer install. */
  lemma AtLeastStaysMet(parse: string -> Option<Version>, installed: string, newer: string, w: string)
    requires Operand(w) && InstalledVersionSatisfies(parse, installed, ">=" + w)
    requires Comparable(parse, newer, w)
    requires Compare(parse(Semverify(Trim(installed))).value, parse(Semverify(Trim(newer))).value) <= 0
    ensures InstalledVersionSatisfies(parse, newer, ">=" + w)
  {
    hide InstalledVersionSatisfies, Trim, Compare, Semverify;
    SatisfiesPrinted(parse, installed, ">=", w);
    SatisfiesPrinted(parse, newer, ">=", w);
    var a, b, c :=
      parse(Semverify(w)).value, parse(Semverify(Trim(installed))).value, parse(Semverify(Trim(newer))).value;
    PrecedenceTotal(a, b);
    PrecedenceTransitive(a, b, c);
    PrecedenceTotal(a, c);
  }

  /** A bare version means "==". */
  lemma BareMeansEqual(parse: string -> Option<Version>, installed: string, w: string)
    requires Operand(w) && forall op :: op in OPERATORS ==> !(op <= w)
    ensures InstalledVersionSatisfies(parse, installed, w) <==> InstalledVersionSatisfies(parse, installed, "==" + w)
  {
    SatisfiesPrinted(parse, installed, "==", w);
    SolidIsTrimmed(w);
    forall i | 0 <= i < |OPERATORS| ensures !(OPERATORS[i] <= w) {
      assert OPERATORS[i] in OPERATORS;
    }
    assert !(OPERATORS[0] <= w) && !(OPERATORS[1] <= w) && !(OPERATORS[2] <= w);
    assert !(OPERATORS[3] <= w) && !(OPERATORS[4] <= w) && !(OPERATORS[5] <= w);
    assert ParseVersionConstraint(w) == ("==", w);
    hide Trim, Compare, Semverify;
  }
}

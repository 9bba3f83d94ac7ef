/** Strings as the Go code uses them: splitting and joining on a separator,
    trimming white space, replacing, and printing integers in decimal. */
module Text {

  // ---------------------------------------------------------------- Split and Join

  function Split(s: string, sep: char): (parts: seq<string>)
    ensures |parts| >= 1
    ensures forall i :: 0 <= i < |parts| ==> sep !in parts[i]
  {
    if s == "" then [""]
    else
      var rest := Split(s[1..], sep);
      if s[0] == sep then [""] + rest else [[s[0]] + rest[0]] + rest[1..]
  }

  function Join(parts: seq<string>, sep: char): string
  {
    if parts == [] then ""
    else if |parts| == 1 then parts[0]
    else parts[0] + [sep] + Join(parts[1..], sep)
  }

  lemma {:induction false} JoinSplit(s: string, sep: char)
    ensures Join(Split(s, sep), sep) == s
  {
    if s != "" {
      JoinSplit(s[1..], sep);
      var rest := Split(s[1..], sep);
      if s[0] == sep {
        assert ([""] + rest)[1..] == rest;
      } else {
        var parts := [[s[0]] + rest[0]] + rest[1..];
        assert parts[1..] == rest[1..];
      }
      assert s == [s[0]] + s[1..];
    }
  }

  lemma {:induction false} SplitPlain(s: string, sep: char)
    requires sep !in s
    ensures Split(s, sep) == [s]
  {
    if s != "" {
      SplitPlain(s[1..], sep);
      assert s == [s[0]] + s[1..];
      assert Split(s, sep) == [[s[0]] + s[1..]];
    }
  }

  lemma {:induction false} SplitPlainThen(p: string, sep: char, s: string)
    requires sep !in p
    ensures Split(p + [sep] + s, sep) == [p] + Split(s, sep)
  {
    var t := p + [sep] + s;
    if p == "" {
      assert t[1..] == s;
    } else {
      SplitPlainThen(p[1..], sep, s);
      assert t[1..] == p[1..] + [sep] + s;
      assert p == [p[0]] + p[1..];
      assert Split(t, sep) == [[p[0]] + p[1..]] + Split(s, sep);
    }
  }

  lemma {:induction false} SplitJoin(parts: seq<string>, sep: char)
    requires parts != []
    requires forall i :: 0 <= i < |parts| ==> sep !in parts[i]
    ensures Split(Join(parts, sep), sep) == parts
  {
    if |parts| == 1 {
      SplitPlain(parts[0], sep);
    } else {
      SplitJoin(parts[1..], sep);
      SplitPlainThen(parts[0], sep, Join(parts[1..], sep));
    }
  }

  lemma {:induction false} JoinConcat(xs: seq<string>, ys: seq<string>, sep: char)
    requires xs != [] && ys != []
    ensures Join(xs + ys, sep) == Join(xs, sep) + [sep] + Join(ys, sep)
  {
    if |xs| == 1 {
      assert (xs + ys)[1..] == ys;
    } else {
      JoinConcat(xs[1..], ys, sep);
      assert (xs + ys)[1..] == xs[1..] + ys;
    }
  }

  /** Splitting a text put together at one separator. */
  lemma {:induction false} SplitConcat(a: string, sep: char, b: string)
    ensures Split(a + [sep] + b, sep) == Split(a, sep) + Split(b, sep)
  {
    JoinSplit(a, sep);
    JoinSplit(b, sep);
    JoinConcat(Split(a, sep), Split(b, sep), sep);
    SplitJoin(Split(a, sep) + Split(b, sep), sep);
  }

  lemma {:induction false} SplitChars(s: string, sep: char, i: nat, c: char)
    requires i < |Split(s, sep)| && c in Split(s, sep)[i]
    ensures c in s
  {
    if s != "" {
      var rest := Split(s[1..], sep);
      if s[0] == sep {
        SplitChars(s[1..], sep, i - 1, c);
      } else if i > 0 || c != s[0] {
        assert c in rest[i];
        SplitChars(s[1..], sep, i, c);
      }
    }
  }

  /** Joins nested parts: splitting every part again does not change the joined text. */
  function Flat(parts: seq<string>, sep: char): seq<string>
  {
    if parts == [] then [] else Split(parts[0], sep) + Flat(parts[1..], sep)
  }

  lemma {:induction false} JoinFlat(parts: seq<string>, sep: char)
    ensures Join(Flat(parts, sep), sep) == Join(parts, sep)
  {
    if parts != [] {
      JoinSplit(parts[0], sep);
      if |parts| == 1 {
        assert Flat(parts, sep) == Split(parts[0], sep);
      } else {
        JoinFlat(parts[1..], sep);
        assert Flat(parts[1..], sep) == Split(parts[1], sep) + Flat(parts[2..], sep);
        JoinConcat(Split(parts[0], sep), Flat(parts[1..], sep), sep);
      }
    }
  }

  lemma {:induction false} FlatConcat(xs: seq<string>, ys: seq<string>, sep: char)
    ensures Flat(xs + ys, sep) == Flat(xs, sep) + Flat(ys, sep)
  {
    if xs == [] {
      assert xs + ys == ys;
    } else {
      FlatConcat(xs[1..], ys, sep);
      assert (xs + ys)[1..] == xs[1..] + ys;
    }
  }

  lemma ConcatAssociative<T>(a: seq<T>, b: seq<T>, c: seq<T>)
    ensures a + b + c == a + (b + c)
  {
  }

  lemma CancelPrefix<T>(p: seq<T>, a: seq<T>, b: seq<T>)
    ensures p + a == p + b <==> a == b
  {
    assert (p + a)[|p|..] == a && (p + b)[|p|..] == b;
  }

  // ---------------------------------------------------------------- TrimSpace

  /** White space as Unicode's White_Space property lists it. */
  predicate IsSpace(c: char)
  {
    || '\t' <= c <= '\r' || c == ' ' || c == '\U{0085}' || c == '\U{00A0}'
    || c == '\U{1680}' || '\U{2000}' <= c <= '\U{200A}' || c == '\U{2028}' || c == '\U{2029}'
    || c == '\U{202F}' || c == '\U{205F}' || c == '\U{3000}'
  }

  function TrimLeft(s: string): string
  {
    if s != "" && IsSpace(s[0]) then TrimLeft(s[1..]) else s
  }

  function TrimRight(s: string): string
  {
    if s != "" && IsSpace(s[|s| - 1]) then TrimRight(s[..|s| - 1]) else s
  }

  function Trim(s: string): string
  {
    TrimRight(TrimLeft(s))
  }

  predicate Solid(s: string)
  {
    s == "" || (!IsSpace(s[0]) && !IsSpace(s[|s| - 1]))
  }

  lemma {:induction false} TrimLeftIsSuffix(s: string)
    ensures |TrimLeft(s)| <= |s| && TrimLeft(s) == s[|s| - |TrimLeft(s)|..]
    ensures TrimLeft(s) == "" || !IsSpace(TrimLeft(s)[0])
  {
    if s != "" && IsSpace(s[0]) {
      TrimLeftIsSuffix(s[1..]);
    }
  }

  lemma {:induction false} TrimRightIsPrefix(s: string)
    ensures |TrimRight(s)| <= |s| && TrimRight(s) == s[..|TrimRight(s)|]
    ensures TrimRight(s) == "" || !IsSpace(TrimRight(s)[|TrimRight(s)| - 1])
  {
    if s != "" && IsSpace(s[|s| - 1]) {
      TrimRightIsPrefix(s[..|s| - 1]);
    }
  }

  lemma TrimIsSolid(s: string)
    ensures Solid(Trim(s))
    ensures forall c :: c in Trim(s) ==> c in s
  {
    TrimLeftIsSuffix(s);
    TrimRightIsPrefix(TrimLeft(s));
  }

  lemma SolidIsTrimmed(s: string)
    ensures Trim(s) == s <==> Solid(s)
  {
    TrimIsSolid(s);
  }

  ghost predicate HasInk(s: string)
  {
    exists i :: 0 <= i < |s| && !IsSpace(s[i])
  }

  lemma {:induction false} TrimLeftConcat(a: string, b: string)
    requires HasInk(a)
    ensures TrimLeft(a + b) == TrimLeft(a) + b
  {
    if IsSpace(a[0]) {
      var i :| 0 <= i < |a| && !IsSpace(a[i]);
      assert a[1..][i - 1] == a[i];
      TrimLeftConcat(a[1..], b);
      assert (a + b)[1..] == a[1..] + b;
    }
  }

  lemma {:induction false} TrimRightConcat(a: string, b: string)
    requires HasInk(b)
    ensures TrimRight(a + b) == a + TrimRight(b)
  {
    if IsSpace(b[|b| - 1]) {
      var i :| 0 <= i < |b| && !IsSpace(b[i]);
      assert b[..|b| - 1][i] == b[i];
      TrimRightConcat(a, b[..|b| - 1]);
      assert (a + b)[..|a + b| - 1] == a + b[..|b| - 1];
    }
  }

  /** Between two stretches of ink, trimming leaves everything alone. */
  lemma TrimInterior(a: string, m: string, b: string)
    requires HasInk(a) && HasInk(b)
    ensures Trim(a + m + b) == TrimLeft(a) + m + TrimRight(b)
  {
    var l := TrimLeft(a);
    calc {
      Trim(a + m + b);
    == { assert a + m + b == a + (m + b); }
      TrimRight(TrimLeft(a + (m + b)));
    == { TrimLeftConcat(a, m + b); }
      TrimRight(l + (m + b));
    == { assert l + (m + b) == (l + m) + b; }
      TrimRight((l + m) + b);
    == { TrimRightConcat(l + m, b); }
      l + m + TrimRight(b);
    }
  }

  /** How many characters are not white space. */
  function Ink(s: string): nat
  {
    if s == "" then 0 else (if IsSpace(s[0]) then 0 else 1) + Ink(s[1..])
  }

  lemma {:induction false} InkConcat(a: string, b: string)
    ensures Ink(a + b) == Ink(a) + Ink(b)
  {
    if a == "" {
      assert a + b == b;
    } else {
      InkConcat(a[1..], b);
      assert (a + b)[1..] == a[1..] + b;
    }
  }

  lemma {:induction false} InkTrimLeft(s: string)
    ensures Ink(TrimLeft(s)) == Ink(s)
  {
    if s != "" && IsSpace(s[0]) {
      InkTrimLeft(s[1..]);
    }
  }

  lemma {:induction false} InkTrimRight(s: string)
    ensures Ink(TrimRight(s)) == Ink(s)
  {
    if s != "" && IsSpace(s[|s| - 1]) {
      var front := s[..|s| - 1];
      InkTrimRight(front);
      InkConcat(front, [s[|s| - 1]]);
      assert s == front + [s[|s| - 1]];
    }
  }

  lemma InkTrim(s: string)
    ensures Ink(Trim(s)) == Ink(s)
  {
    InkTrimLeft(s);
    InkTrimRight(TrimLeft(s));
  }

  // ---------------------------------------------------------------- Prefixes and replacing

  predicate HasPrefix(s: string, p: string)
  {
    p <= s
  }

  predicate HasSuffix(s: string, p: string)
  {
    |p| <= |s| && s[|s| - |p|..] == p
  }

  predicate Contains(s: string, sub: string)
  {
    sub <= s || (s != "" && Contains(s[1..], sub))
  }

  function ReplaceAll(s: string, from: string, to: string): string
    requires from != ""
  {
    if s == "" then ""
    else if from <= s then to + ReplaceAll(s[|from|..], from, to)
    else [s[0]] + ReplaceAll(s[1..], from, to)
  }

  lemma {:induction false} ReplaceAbsent(s: string, from: string, to: string)
    requires from != "" && from[0] !in s
    ensures ReplaceAll(s, from, to) == s
  {
    if s != "" {
      ReplaceAbsent(s[1..], from, to);
      assert s == [s[0]] + s[1..];
    }
  }

  function ReplaceFirst(s: string, from: string, to: string): string
  {
    if from <= s then to + s[|from|..]
    else if s == "" then ""
    else [s[0]] + ReplaceFirst(s[1..], from, to)
  }

  lemma {:induction false} ReplaceFirstAtEnd(p: string, from: string, to: string)
    requires from != "" && from[0] !in p
    ensures ReplaceFirst(p + from, from, to) == p + to
  {
    var s := p + from;
    if p == "" {
      assert s == from;
      assert s[|from|..] == "";
      assert to + s[|from|..] == to;
    } else {
      ReplaceFirstAtEnd(p[1..], from, to);
      assert s[1..] == p[1..] + from;
      assert s[0] == p[0] != from[0];
      assert !(from <= s);
    }
  }

  // ---------------------------------------------------------------- Decimal numbers

  function Digit(d: nat): (c: char)
    requires d < 10
    ensures '0' <= c <= '9'
  {
    "0123456789"[d]
  }

  function NatText(n: nat): (s: string)
    ensures s != "" && forall c :: c in s ==> '0' <= c <= '9'
  {
    if n < 10 then [Digit(n)] else NatText(n / 10) + [Digit(n % 10)]
  }

  /** The value of a digit string; the inverse of NatText. */
  function DigitsValue(s: string): int
  {
    if s == "" then 0
    else 10 * DigitsValue(s[..|s| - 1]) + (s[|s| - 1] as int - '0' as int)
  }

  lemma {:induction false} NatTextValue(n: nat)
    ensures DigitsValue(NatText(n)) == n
  {
    if n < 10 {
      assert NatText(n)[..0] == "";
      assert DigitsValue(NatText(n)) == Digit(n) as int - '0' as int;
    } else {
      NatTextValue(n / 10);
      assert NatText(n)[..|NatText(n)| - 1] == NatText(n / 10);
    }
  }

  /** Go's %d. */
  function IntText(n: int): (s: string)
    ensures s != "" && forall c :: c in s ==> c == '-' || '0' <= c <= '9'
  {
    if n < 0 then "-" + NatText(-n) else NatText(n)
  }

  lemma IntTextInjective(a: int, b: int)
    requires IntText(a) == IntText(b)
    ensures a == b
  {
    hide NatText, DigitsValue;
    IntTextHead(a);
    IntTextHead(b);
    if a < 0 {
      NatTextValue(-a);
      NatTextValue(-b);
    } else {
      NatTextValue(a);
      NatTextValue(b);
    }
  }

  lemma IntTextHead(n: int)
    ensures IntText(n)[0] == '-' <==> n < 0
    ensures n < 0 ==> IntText(n)[1..] == NatText(-n)
  {
    if n >= 0 {
      assert NatText(n)[0] in NatText(n);
    }
  }
}

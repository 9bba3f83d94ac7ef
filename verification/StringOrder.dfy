/** Go's string order (byte order, which for UTF-8 is code point order) and
    sorted lists without repetition. */
module StringOrder {

  predicate Less(a: string, b: string)
  {
    b != "" && (a == "" || a[0] < b[0] || (a[0] == b[0] && Less(a[1..], b[1..])))
  }

  /** a comes before b exactly when it is a proper prefix of b, or has the smaller
      character where the two first differ. */
  ghost predicate Before(a: string, b: string)
  {
    (a <= b && a != b) || exists k :: 0 <= k < |a| && k < |b| && a[..k] == b[..k] && a[k] < b[k]
  }

  lemma {:induction false} LessIff(a: string, b: string)
    ensures Less(a, b) <==> Before(a, b)
  {
    if a != "" && b != "" {
      LessIff(a[1..], b[1..]);
      assert a == [a[0]] + a[1..] && b == [b[0]] + b[1..];
      if k :| 0 <= k < |a| && k < |b| && a[..k] == b[..k] && a[k] < b[k] {
        if k > 0 {
          assert a[0] == a[..k][0] == b[0];
          assert a[1..][..k - 1] == a[..k][1..] && b[1..][..k - 1] == b[..k][1..];
          assert a[1..][k - 1] == a[k] && b[1..][k - 1] == b[k];
        }
      }
      if a[0] == b[0] {
        if k :| 0 <= k < |a| - 1 && k < |b| - 1 && a[1..][..k] == b[1..][..k] && a[1..][k] < b[1..][k] {
          assert a[..k + 1] == [a[0]] + a[1..][..k] && b[..k + 1] == [b[0]] + b[1..][..k];
        }
      } else if a[0] < b[0] {
        assert a[..0] == b[..0];
      }
    }
  }

  lemma {:induction false} LessTotal(a: string, b: string)
    ensures Less(a, b) || a == b || Less(b, a)
    ensures !(Less(a, b) && Less(b, a)) && (Less(a, b) ==> a != b)
  {
    if a != "" && b != "" && a[0] == b[0] {
      LessTotal(a[1..], b[1..]);
      assert a == [a[0]] + a[1..] && b == [b[0]] + b[1..];
    }
  }

  lemma {:induction false} LessTransitive(a: string, b: string, c: string)
    requires Less(a, b) && Less(b, c)
    ensures Less(a, c)
  {
    if a != "" && a[0] == b[0] == c[0] {
      LessTransitive(a[1..], b[1..], c[1..]);
    }
  }

  ghost predicate Ascending(xs: seq<string>)
  {
    forall i, j :: 0 <= i < j < |xs| ==> Less(xs[i], xs[j])
  }

  function Elements(xs: seq<string>): set<string>
  {
    set x | x in xs
  }

  lemma ElementsSnoc(xs: seq<string>, x: string)
    ensures Elements(xs + [x]) == Elements(xs) + {x}
  {
  }

  function InsertSorted(xs: seq<string>, x: string): seq<string>
  {
    if xs == [] then [x]
    else if x == xs[0] then xs
    else if Less(x, xs[0]) then [x] + xs
    else [xs[0]] + InsertSorted(xs[1..], x)
  }

  lemma {:induction false} InsertSortedMembers(xs: seq<string>, x: string)
    ensures forall y :: y in InsertSorted(xs, x) <==> y in xs || y == x
  {
    hide Less;
    if xs != [] && x != xs[0] && !Less(x, xs[0]) {
      InsertSortedMembers(xs[1..], x);
      assert xs == [xs[0]] + xs[1..];
    }
  }

  lemma ConsAscending(x: string, xs: seq<string>)
    requires Ascending(xs) && forall y :: y in xs ==> Less(x, y)
    ensures Ascending([x] + xs)
  {
    hide Less;
  }

  lemma {:induction false} InsertSortedAscending(xs: seq<string>, x: string)
    requires Ascending(xs)
    ensures Ascending(InsertSorted(xs, x))
  {
    hide Less;
    if xs == [] || x == xs[0] {
    } else if Less(x, xs[0]) {
      forall y | y in xs ensures Less(x, y) {
        LeastFirst(xs, y);
        if y != xs[0] {
          LessTransitive(x, xs[0], y);
        }
      }
      ConsAscending(x, xs);
    } else {
      LessTotal(x, xs[0]);
      InsertSortedAscending(xs[1..], x);
      InsertSortedMembers(xs[1..], x);
      forall y | y in InsertSorted(xs[1..], x) ensures Less(xs[0], y) {
        if y != x {
          var j :| 0 <= j < |xs[1..]| && xs[1..][j] == y;
          assert Less(xs[0], xs[j + 1]);
        }
      }
      ConsAscending(xs[0], InsertSorted(xs[1..], x));
    }
  }

  lemma InsertSortedKeeps(xs: seq<string>, x: string)
    requires Ascending(xs)
    ensures Ascending(InsertSorted(xs, x))
    ensures Elements(InsertSorted(xs, x)) == Elements(xs) + {x}
  {
    InsertSortedAscending(xs, x);
    InsertSortedMembers(xs, x);
  }

  /** An ascending list is determined by its elements, so sorting forgets the
      order in which a map was walked. */
  lemma {:induction false} AscendingUnique(xs: seq<string>, ys: seq<string>)
    requires Ascending(xs) && Ascending(ys) && Elements(xs) == Elements(ys)
    ensures xs == ys
  {
    EmptyElements(xs);
    EmptyElements(ys);
    if xs != [] {
      assert xs[0] in Elements(ys);
      assert ys[0] in Elements(xs);
      LeastFirst(xs, ys[0]);
      LeastFirst(ys, xs[0]);
      LessTotal(xs[0], ys[0]);
      assert Elements(xs[1..]) == Elements(xs) - {xs[0]} by { TailElements(xs); }
      assert Elements(ys[1..]) == Elements(ys) - {ys[0]} by { TailElements(ys); }
      AscendingUnique(xs[1..], ys[1..]);
    }
  }

  lemma EmptyElements(xs: seq<string>)
    ensures xs == [] <==> Elements(xs) == {}
  {
    if xs != [] {
      assert xs[0] in Elements(xs);
    }
  }

  lemma LeastFirst(xs: seq<string>, x: string)
    requires Ascending(xs) && x in xs
    ensures x == xs[0] || Less(xs[0], x)
  {
    hide Less;
  }

  lemma TailElements(xs: seq<string>)
    requires Ascending(xs) && xs != []
    ensures Elements(xs[1..]) == Elements(xs) - {xs[0]}
  {
    forall i | 0 < i < |xs| ensures xs[i] != xs[0] {
      LessTotal(xs[0], xs[i]);
    }
    assert xs == [xs[0]] + xs[1..];
  }

  /** Go: copy a set's members into a slice in whatever order, then sort.Strings. */
  method SortedMembers(s: set<string>) returns (xs: seq<string>)
    ensures Ascending(xs) && Elements(xs) == s
  {
    xs := [];
    var rest := s;
    while rest != {}
      invariant rest <= s && Ascending(xs) && Elements(xs) == s - rest
    {
      var x :| x in rest;
      InsertSortedKeeps(xs, x);
      xs := InsertSorted(xs, x);
      rest := rest - {x};
    }
  }
}

/** Lexical path cleaning as Go's path/filepath does it on Unix, by components. */
module Paths {
  import opened Text

  const SEP: char := '/'

  predicate Rooted(p: string)
  {
    p != "" && p[0] == SEP
  }

  /** One component onto the stack of components kept so far. */
  function Push(stack: seq<string>, c: string, rooted: bool): seq<string>
  {
    if c == "" || c == "." then stack
    else if c == ".." then
      if stack != [] && stack[|stack| - 1] != ".." then stack[..|stack| - 1]
      else if rooted then stack
      else stack + [".."]
    else stack + [c]
  }

  function PushAll(stack: seq<string>, cs: seq<string>, rooted: bool): seq<string>
  {
    if cs == [] then stack else Push(PushAll(stack, cs[..|cs| - 1], rooted), cs[|cs| - 1], rooted)
  }

  function Comps(p: string): seq<string>
  {
    PushAll([], Split(p, SEP), Rooted(p))
  }

  function Rendered(cs: seq<string>, rooted: bool): string
  {
    if rooted then [SEP] + Join(cs, SEP) else if cs == [] then "." else Join(cs, SEP)
  }

  function Clean(p: string): string
  {
    if p == "" then "." else Rendered(Comps(p), Rooted(p))
  }

  /** filepath.Join of two elements: empty elements are ignored. */
  function JoinPath(a: string, b: string): string
  {
    if a == "" then (if b == "" then "" else Clean(b))
    else if b == "" then Clean(a)
    else Clean(a + [SEP] + b)
  }

  // ---------------------------------------------------------------- Clean component lists

  ghost predicate Proper(c: string)
  {
    c != "" && c != "." && SEP !in c
  }

  ghost predicate Tidy(cs: seq<string>, rooted: bool)
  {
    && (forall i :: 0 <= i < |cs| ==> Proper(cs[i]))
    && (forall i :: 0 <= i < |cs| && cs[i] == ".." ==> !rooted && forall j :: 0 <= j < i ==> cs[j] == "..")
  }

  ghost predicate Downward(cs: seq<string>)
  {
    forall i :: 0 <= i < |cs| ==> Proper(cs[i]) && cs[i] != ".."
  }

  lemma {:induction false} PushAllConcat(stack: seq<string>, a: seq<string>, b: seq<string>, rooted: bool)
    ensures PushAll(stack, a + b, rooted) == PushAll(PushAll(stack, a, rooted), b, rooted)
  {
    if b == [] {
      assert a + b == a;
    } else {
      PushAllConcat(stack, a, b[..|b| - 1], rooted);
      assert (a + b)[..|a + b| - 1] == a + b[..|b| - 1];
    }
  }

  lemma {:induction false} PushAllTidy(stack: seq<string>, cs: seq<string>, rooted: bool)
    requires Tidy(stack, rooted) && forall i :: 0 <= i < |cs| ==> SEP !in cs[i]
    ensures Tidy(PushAll(stack, cs, rooted), rooted)
  {
    if cs != [] {
      PushAllTidy(stack, cs[..|cs| - 1], rooted);
    }
  }

  lemma CompsTidy(p: string)
    ensures Tidy(Comps(p), Rooted(p))
  {
    PushAllTidy([], Split(p, SEP), Rooted(p));
  }

  /** A tidy list pushes as it is. */
  lemma {:induction false} PushTidy(cs: seq<string>, rooted: bool)
    requires Tidy(cs, rooted)
    ensures PushAll([], cs, rooted) == cs
  {
    if cs != [] {
      PushTidy(cs[..|cs| - 1], rooted);
    }
  }

  lemma {:induction false} PushDownward(stack: seq<string>, cs: seq<string>, rooted: bool)
    requires Downward(cs)
    ensures PushAll(stack, cs, rooted) == stack + cs
  {
    if cs != [] {
      PushDownward(stack, cs[..|cs| - 1], rooted);
    }
  }

  lemma {:induction false} JoinStart(cs: seq<string>)
    requires cs != [] && Proper(cs[0])
    ensures Join(cs, SEP) != "" && Join(cs, SEP)[0] == cs[0][0] && Join(cs, SEP)[0] != SEP
  {
    assert cs[0][0] in cs[0];
  }

  lemma PrefixHasSep(s: string, segment: string)
    requires HasPrefix(s, segment + "/")
    ensures SEP in s
  {
    assert s[|segment|] == SEP;
  }

  /** Splitting a rendered tidy list gives the list back. */
  lemma SplitRendered(cs: seq<string>, rooted: bool)
    requires Tidy(cs, rooted) && cs != []
    ensures Split(Rendered(cs, rooted), SEP) == (if rooted then [""] else []) + cs
    ensures Rooted(Rendered(cs, rooted)) == rooted
  {
    SplitJoin(cs, SEP);
    JoinStart(cs);
    if rooted {
      SplitPlainThen("", SEP, Join(cs, SEP));
      assert Rendered(cs, true) == "" + [SEP] + Join(cs, SEP);
    }
  }

  lemma RenderedComps(cs: seq<string>, rooted: bool)
    requires Tidy(cs, rooted) && cs != []
    ensures Comps(Rendered(cs, rooted)) == cs && Clean(Rendered(cs, rooted)) == Rendered(cs, rooted)
  {
    SplitRendered(cs, rooted);
    PushTidy(cs, rooted);
    if rooted {
      PushAllConcat([], [""], cs, rooted);
      assert PushAll([], [""], rooted) == [] by { assert [""][..0] == []; }
    } else {
      assert [] + cs == cs;
    }
  }

  /** A clean path is ".", "/", or a rendered tidy list of components. */
  lemma CleanForms(p: string)
    requires Clean(p) == p && p != "." && p != "/"
    ensures Comps(p) != [] && p == Rendered(Comps(p), Rooted(p))
  {
  }

  /** Joining a downward path under any non-empty one appends its components. */
  lemma JoinDownward(dest: string, cs: seq<string>)
    requires dest != "" && cs != [] && Downward(cs)
    ensures JoinPath(dest, Join(cs, SEP)) == Rendered(Comps(dest) + cs, Rooted(dest))
  {
    var name := Join(cs, SEP);
    var p := dest + [SEP] + name;
    JoinStart(cs);
    SplitConcat(dest, SEP, name);
    SplitJoin(cs, SEP);
    PushAllConcat([], Split(dest, SEP), cs, Rooted(dest));
    PushDownward(Comps(dest), cs, Rooted(dest));
    assert Rooted(p) == Rooted(dest);
  }
}

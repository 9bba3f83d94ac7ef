/** Entry names of an archive (ludus-api/archive_extract.go): where an entry may
    be written, and the single root directory that is stripped. */
module Archive {
  import opened Text
  import opened Paths

  datatype Extracted = Skip | Unsafe | Escapes | Target(path: string)

  /** safeExtractPath, with its two rejections told apart. */
  function SafeExtractPath(destDir: string, name: string): Extracted
  {
    var cleaned := Clean(name);
    if cleaned == "." || cleaned == "" then Skip
    else if Rooted(cleaned) || HasPrefix(cleaned, "..") then Unsafe
    else
      var target := JoinPath(destDir, cleaned);
      if !HasPrefix(target + [SEP], destDir + [SEP]) then Escapes else Target(target)
  }

  /** The name passes the first check: it cleans to a path that goes down. */
  ghost predicate Acceptable(name: string)
  {
    Clean(name) != "." && Clean(name) != "" && !Rooted(Clean(name)) && !HasPrefix(Clean(name), "..")
  }

  lemma AcceptableDownward(name: string)
    requires Acceptable(name)
    ensures Downward(Comps(name)) && Comps(name) != [] && Clean(name) == Join(Comps(name), SEP)
  {
    CompsTidy(name);
    JoinKeepsFirst(Comps(name));
  }

  lemma JoinKeepsFirst(cs: seq<string>)
    requires cs != []
    ensures HasPrefix(Join(cs, SEP), cs[0])
  {
  }

  ghost predicate GoodDest(dest: string)
  {
    Clean(dest) == dest && dest != "/" && dest != "."
  }

  lemma GoodDestTarget(dest: string, name: string)
    requires GoodDest(dest) && Acceptable(name)
    ensures SafeExtractPath(dest, name) == Target(dest + [SEP] + Clean(name))
  {
    var cs, ds := Comps(name), Comps(dest);
    AcceptableDownward(name);
    CleanForms(dest);
    JoinDownward(dest, cs);
    JoinConcat(ds, cs, SEP);
    var target := dest + [SEP] + Clean(name);
    assert JoinPath(dest, Clean(name)) == target by {
      if Rooted(dest) {
        assert [SEP] + (Join(ds, SEP) + [SEP] + Join(cs, SEP)) == [SEP] + Join(ds, SEP) + [SEP] + Join(cs, SEP);
      }
    }
    assert (target + [SEP])[..|dest| + 1] == dest + [SEP];
  }

  /** A directory whose name plus "/" starts a path is a run of its components. */
  lemma PrefixSplits(dest: string, target: string)
    requires HasPrefix(target + [SEP], dest + [SEP])
    ensures |Split(dest, SEP)| <= |Split(target, SEP)|
    ensures Split(dest, SEP) == Split(target, SEP)[..|Split(dest, SEP)|]
  {
    hide Split;
    var rest := (target + [SEP])[|dest| + 1..];
    assert target + [SEP] + "" == target + [SEP] == dest + [SEP] + rest;
    SplitConcat(dest, SEP, rest);
    SplitConcat(target, SEP, "");
    assert Split("", SEP) == [""] by { SplitPlain("", SEP); }
    var all := Split(target, SEP);
    assert all + [""] == Split(dest, SEP) + Split(rest, SEP);
    var k := |Split(dest, SEP)|;
    assert Split(dest, SEP) == (all + [""])[..k] == all[..k];
  }

  lemma FrontIsGood(front: seq<string>, rooted: bool)
    requires Tidy(front, rooted) && front != []
    ensures GoodDest(Rendered(front, rooted))
  {
    hide Split;
    RenderedComps(front, rooted);
    JoinStart(front);
    if rooted {
      assert |Rendered(front, rooted)| > 1;
    } else if |front| > 1 {
      assert Join(front, SEP)[|front[0]|] == SEP;
      assert |Join(front, SEP)| > 1;
    }
  }

  lemma PrefixOfClean(dest: string, cs: seq<string>, rooted: bool)
    requires Tidy(cs, rooted) && cs != [] && (if dest == "" then !rooted else rooted == Rooted(dest))
    requires HasPrefix(Rendered(cs, rooted) + [SEP], dest + [SEP])
    ensures GoodDest(dest)
  {
    hide Split, GoodDest;
    PrefixSplits(dest, Rendered(cs, rooted));
    SplitRendered(cs, rooted);
    JoinSplit(dest, SEP);
    var k := |Split(dest, SEP)|;
    var lead := if rooted then [""] else [];
    assert Split(dest, SEP) == (lead + cs)[..k];
    assert k > |lead|;
    var front := cs[..k - |lead|];
    assert (lead + cs)[..k] == lead + front;
    FrontIsGood(front, rooted);
    if rooted {
      JoinConcat([""], front, SEP);
      assert dest == "" + [SEP] + Join(front, SEP) == Rendered(front, true);
    } else {
      assert lead + front == front;
      assert dest == Rendered(front, false);
    }
  }

  /** For a name the first check lets through, the second check fires exactly
      when the destination is not a clean directory path other than "/" and ".";
      otherwise the entry lands below the destination. */
  lemma SecondCheckIff(dest: string, name: string)
    requires Acceptable(name)
    ensures SafeExtractPath(dest, name).Escapes? <==> !GoodDest(dest)
    ensures GoodDest(dest) ==>
      SafeExtractPath(dest, name) == Target(dest + [SEP] + Join(Comps(name), SEP)) && Downward(Comps(name))
  {
    AcceptableDownward(name);
    if GoodDest(dest) {
      GoodDestTarget(dest, name);
    } else if SafeExtractPath(dest, name).Target? {
      var cs := Comps(name);
      if dest == "" {
        RenderedComps(cs, false);
        assert JoinPath("", Clean(name)) == Rendered(cs, false);
        PrefixOfClean(dest, cs, false);
      } else {
        JoinDownward(dest, cs);
        CompsTidy(dest);
        TidyThenDownward(Comps(dest), cs, Rooted(dest));
        PrefixOfClean(dest, Comps(dest) + cs, Rooted(dest));
      }
      assert false;
    }
  }

  lemma TidyThenDownward(a: seq<string>, b: seq<string>, rooted: bool)
    requires Tidy(a, rooted) && Downward(b)
    ensures Tidy(a + b, rooted)
  {
  }

  /** Every entry of every archive, extracted under a clean absolute directory
      other than "/": skipped, rejected, or written strictly below it. */
  lemma ExtractionStaysBelow(dest: string, name: string)
    requires Rooted(dest) && Clean(dest) == dest && dest != "/"
    ensures var r := SafeExtractPath(dest, name);
            || r.Skip? || r.Unsafe?
            || (r.Target? && exists cs :: cs != [] && Downward(cs) && r.path == dest + [SEP] + Join(cs, SEP))
  {
    if Acceptable(name) {
      SecondCheckIff(dest, name);
    }
  }

  // ---------------------------------------------------------------- detectSingleRoot

  function DropDot(n: string): string
  {
    if HasPrefix(n, "./") then n[2..] else n
  }

  /** A leading "./" is dropped, once. */
  lemma DropDotIs(n: string)
    ensures DropDot("./" + n) == n
    ensures (|n| < 2 || n[0] != '.' || n[1] != '/') ==> DropDot(n) == n
  {
    assert ("./" + n)[2..] == n;
  }

  function Segment(n: string): string
  {
    if n == "" || n[0] == SEP then "" else [n[0]] + Segment(n[1..])
  }

  /** Every entry that is not empty starts with the segment r, a proper name. */
  ghost predicate CommonRoot(names: seq<string>, r: string)
  {
    && r != "" && r != "."
    && (exists i :: 0 <= i < |names| && DropDot(names[i]) != "")
    && (forall i :: 0 <= i < |names| && DropDot(names[i]) != "" ==> Segment(DropDot(names[i])) == r)
  }

  method DetectSingleRoot(names: seq<string>) returns (root: string)
    ensures root != "" ==> CommonRoot(names, root)
    ensures (exists r :: CommonRoot(names, r)) ==> root != ""
  {
    root := "";
    for i := 0 to |names|
      invariant root == "" ==> forall j :: 0 <= j < i ==> DropDot(names[j]) == ""
      invariant root != "" ==> root != "." && exists j :: 0 <= j < i && DropDot(names[j]) != ""
      invariant root != "" ==> forall j :: 0 <= j < i && DropDot(names[j]) != "" ==> Segment(DropDot(names[j])) == root
    {
      var n := DropDot(names[i]);
      if n == "" {
        continue;
      }
      var first := Segment(n);
      if first == "." || first == "" {
        assert forall r :: CommonRoot(names, r) ==> Segment(DropDot(names[i])) == r;
        return "";
      }
      if root == "" {
        root := first;
        continue;
      }
      if first != root {
        return "";
      }
    }
  }

  function StripPrefixSegment(name: string, segment: string): string
  {
    var n := DropDot(name);
    if segment == "" then n
    else if n == segment then ""
    else if HasPrefix(n, segment + "/") then n[|segment| + 1..]
    else n
  }

  lemma {:induction false} SegmentSplits(n: string)
    ensures SEP !in Segment(n)
    ensures n == Segment(n) || HasPrefix(n, Segment(n) + "/")
  {
    if n != "" && n[0] != SEP {
      SegmentSplits(n[1..]);
      assert n == [n[0]] + n[1..];
      if HasPrefix(n[1..], Segment(n[1..]) + "/") {
        assert Segment(n) + "/" == [n[0]] + (Segment(n[1..]) + "/");
      }
    } else if n != "" {
      assert Segment(n) + "/" == "/";
    }
  }

  /** Under a detected root every entry is empty, the root itself, or below it;
      below it, stripping drops exactly "<root>/". */
  lemma StripUnderRoot(names: seq<string>, root: string, i: nat)
    requires CommonRoot(names, root) && i < |names|
    ensures var n, s := DropDot(names[i]), StripPrefixSegment(names[i], root);
            || (n == "" && s == "")
            || (n == root && s == "")
            || n == root + "/" + s
  {
    var n := DropDot(names[i]);
    SegmentSplits(n);
  }

  /** Stripping tells apart any two entries strictly below the root. */
  lemma StripInjective(names: seq<string>, root: string, i: nat, j: nat)
    requires CommonRoot(names, root) && i < |names| && j < |names|
    requires DropDot(names[i]) !in ["", root] && DropDot(names[j]) !in ["", root]
    requires StripPrefixSegment(names[i], root) == StripPrefixSegment(names[j], root)
    ensures DropDot(names[i]) == DropDot(names[j])
  {
    StripUnderRoot(names, root, i);
    StripUnderRoot(names, root, j);
  }

  /** An entry is dropped as the archive's own root exactly when nothing of its
      name is left below the root; so a lone top-level file is lost. */
  lemma DroppedIffRoot(names: seq<string>, root: string, i: nat)
    requires CommonRoot(names, root) && i < |names|
    ensures StripPrefixSegment(names[i], root) == "" <==> DropDot(names[i]) in ["", root, root + "/"]
  {
    StripUnderRoot(names, root, i);
    assert root + "/" + "" == root + "/";
  }

  /** The lone file: for every archive of one plain file name, extraction with
      root stripping writes nothing at all. */
  lemma LoneFileLost(dest: string, file: string)
    requires file != "" && file != "." && SEP !in file
    ensures CommonRoot([file], file)
    ensures SafeExtractPath(dest, StripPrefixSegment(file, file)).Skip?
  {
    SegmentSplits(file);
    if HasPrefix(file, Segment(file) + "/") {
      PrefixHasSep(file, Segment(file));
    }
    if HasPrefix(file, "./") {
      PrefixHasSep(file, ".");
    }
    assert DropDot([file][0]) != "";
  }

  /** filepath.Base, for the AppleDouble check. */
  function Base(p: string): string
  {
    var t := TrimSeps(p);
    if p == "" then "." else if t == "" then "/" else LastPart(Split(t, SEP))
  }

  function TrimSeps(p: string): string
  {
    if p != "" && p[|p| - 1] == SEP then TrimSeps(p[..|p| - 1]) else p
  }

  function LastPart(parts: seq<string>): string
    requires parts != []
  {
    parts[|parts| - 1]
  }

  predicate IsMacOSAppleDouble(name: string)
  {
    HasPrefix(Base(name), "._")
  }
}

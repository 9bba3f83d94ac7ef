/** blueprint.yml: what ParseBlueprintManifest accepts (ludus-api/source_schema.go)
    and the manifest and archive prefix ExportBlueprint derives from a record. */
module Manifest {
  import opened Text
  import opened Paths

  const SUPPORTED := 1

  datatype BlueprintManifest = BlueprintManifest(
    manifestVersion: int, id: string, name: string, description: string, version: string,
    tags: seq<string>, thumbnailPath: string, config: string, minLudusVersion: string)

  /** The fields of a blueprint record the manifest carries. */
  datatype Meta = Meta(id: string, name: string, description: string, version: string, tags: seq<string>,
                       minLudusVersion: string)

  predicate IsLetter(c: char)
  {
    'a' <= c <= 'z' || 'A' <= c <= 'Z'
  }

  predicate IsIDChar(c: char)
  {
    IsLetter(c) || '0' <= c <= '9' || c == '_' || c == '-'
  }

  predicate IsIDPart(s: string)
  {
    s != "" && forall i :: 0 <= i < |s| ==> IsIDChar(s[i])
  }

  /** ^[A-Za-z][A-Za-z0-9_\-]*(\/[A-Za-z0-9_\-]+){0,2}$ */
  predicate IsManifestID(id: string)
  {
    var parts := Split(id, SEP);
    |parts| <= 3 && (forall i :: 0 <= i < |parts| ==> IsIDPart(parts[i])) && IsLetter(parts[0][0])
  }

  /** The characters of an id by their codes: letters, digits, hyphen and underscore. */
  lemma IDCharIff(c: char)
    ensures IsLetter(c) <==> 65 <= c as int <= 90 || 97 <= c as int <= 122
    ensures IsIDChar(c) <==> IsLetter(c) || 48 <= c as int <= 57 || c as int == 45 || c as int == 95
  {
  }

  /** Characters of an id with slashes between, never two in a row and none at the end. */
  ghost predicate Spaced(s: string)
  {
    && (forall i :: 0 <= i < |s| ==> s[i] == '/' || IsIDChar(s[i]))
    && (s != "" ==> s[|s| - 1] != '/')
    && forall i :: 0 <= i < |s| - 1 ==> !(s[i] == '/' && s[i + 1] == '/')
  }

  function Slashes(s: string): nat
  {
    if s == "" then 0 else Slashes(s[1..]) + (if s[0] == '/' then 1 else 0)
  }

  /** Parts of an id, the first of which may still be empty. */
  ghost predicate PartsAfter(parts: seq<string>)
    requires parts != []
  {
    (forall i :: 0 <= i < |parts[0]| ==> IsIDChar(parts[0][i])) && forall k :: 1 <= k < |parts| ==> IsIDPart(parts[k])
  }

  lemma {:induction false} SpacedIff(s: string)
    ensures |Split(s, SEP)| == 1 + Slashes(s)
    ensures PartsAfter(Split(s, SEP)) <==> Spaced(s)
  {
    hide IsIDChar;
    if s != "" {
      SpacedIff(s[1..]);
      var parts, rest := Split(s, SEP), Split(s[1..], SEP);
      assert s == [s[0]] + s[1..];
      SpacedCons(s[0], s[1..]);
      hide Spaced;
      if s[0] == SEP {
        assert forall k :: 1 <= k < |parts| ==> parts[k] == rest[k - 1];
        assert PartsAfter(parts) <==> PartsAfter(rest) && rest[0] != "" by {
          assert forall k :: 0 <= k < |rest| ==> rest[k] == parts[k + 1];
        }
        FirstPart(s[1..]);
      } else {
        GluedParts(s[0], rest, parts);
      }
    }
  }

  lemma GluedParts(c: char, rest: seq<string>, parts: seq<string>)
    requires rest != [] && parts == [[c] + rest[0]] + rest[1..]
    ensures PartsAfter(parts) <==> IsIDChar(c) && PartsAfter(rest)
  {
    hide IsIDChar, IsIDPart;
    assert forall k :: 1 <= k < |parts| ==> parts[k] == rest[k];
    assert forall k :: 1 <= k < |rest| ==> rest[k] == parts[k];
    assert parts[0] == [c] + rest[0] && parts[0][0] == c;
    assert forall i :: 0 <= i < |rest[0]| ==> rest[0][i] == parts[0][i + 1];
    assert forall i :: 0 < i < |parts[0]| ==> parts[0][i] == rest[0][i - 1];
  }

  lemma SpacedCons(c: char, t: string)
    ensures c == '/' ==> (Spaced([c] + t) <==> Spaced(t) && t != "" && t[0] != '/')
    ensures c != '/' ==> (Spaced([c] + t) <==> Spaced(t) && IsIDChar(c))
  {
    hide IsIDChar;
    var s := [c] + t;
    assert forall i :: 0 <= i < |t| ==> s[i + 1] == t[i];
    assert s[0] == c;
    if t != "" {
      assert s[|s| - 1] == t[|t| - 1];
    }
    if Spaced(s) {
      assert forall i :: 0 <= i < |t| ==> t[i] == s[i + 1];
      forall i | 0 <= i < |t| - 1 ensures !(t[i] == '/' && t[i + 1] == '/') {
        var j := i + 1;
        assert !(s[j] == '/' && s[j + 1] == '/');
      }
    }
    if Spaced(t) && (if c == '/' then t != "" && t[0] != '/' else IsIDChar(c)) {
      forall i | 0 <= i < |s| - 1 ensures !(s[i] == '/' && s[i + 1] == '/') {
        if i > 0 {
          assert s[i] == t[i - 1] && s[i + 1] == t[i - 1 + 1];
        }
      }
      assert forall i :: 0 < i < |s| ==> s[i] == t[i - 1];
    }
  }

  lemma FirstPart(s: string)
    ensures Split(s, SEP)[0] == "" <==> s == "" || s[0] == SEP
  {
  }

  /** The id pattern, character by character: it starts with a letter, has at most two
      slashes, each between two other characters, and is made of id characters. */
  lemma ManifestIDIff(id: string)
    ensures IsManifestID(id) <==> id != "" && IsLetter(id[0]) && Slashes(id) <= 2 && Spaced(id)
  {
    SpacedIff(id);
    FirstPart(id);
    var parts := Split(id, SEP);
    if id != "" && id[0] != SEP {
      assert parts[0][0] == id[0];
    }
    hide IsIDChar;
    assert (forall i :: 0 <= i < |parts| ==> IsIDPart(parts[i])) <==> PartsAfter(parts) && parts[0] != "";
  }

  predicate IsRelativePath(p: string)
  {
    var cleaned := Clean(p);
    !Rooted(p) && cleaned != ".." && !HasPrefix(cleaned, "../") && !Contains(cleaned, "/../") && cleaned != "."
      && !HasPrefix(cleaned, "/")
  }

  lemma {:induction false} ContainedBetween(s: string, mid: string) returns (a: string, b: string)
    requires Contains(s, mid)
    ensures s == a + mid + b
  {
    if mid <= s {
      a, b := "", s[|mid|..];
    } else {
      a, b := ContainedBetween(s[1..], mid);
      a := [s[0]] + a;
    }
  }

  /** A path with "/../" inside has a component "..". */
  lemma DotsInside(s: string)
    ensures Contains(s, "/../") ==> ".." in Split(s, SEP)
  {
    if !Contains(s, "/../") {
      return;
    }
    var a, b := ContainedBetween(s, "/../");
    hide Split, Contains;
    SplitConcat(a, SEP, ".." + [SEP] + b);
    SplitConcat("..", SEP, b);
    SplitPlain("..", SEP);
    assert s == a + [SEP] + (".." + [SEP] + b);
    assert [".."] + Split(b, SEP) == Split(".." + [SEP] + b, SEP);
    assert ([".."] + Split(b, SEP))[0] == "..";
  }

  /** A path stays inside the bundle exactly when it is not absolute and, cleaned, goes
      down at least one step and never up. */
  lemma RelativePathIff(p: string)
    ensures IsRelativePath(p) <==> !Rooted(p) && Comps(p) != [] && Downward(Comps(p))
  {
    CompsTidy(p);
    NothingInEmpty();
    var cs := Comps(p);
    if !Rooted(p) && cs != [] {
      SplitRendered(cs, false);
      assert Clean(p) == Join(cs, SEP) == Rendered(cs, false);
      JoinStart(cs);
      if cs[0] == ".." {
        UpwardStart(cs);
      } else {
        assert Downward(cs);
        DownwardStart(cs);
        assert ".." !in cs;
        DotsInside(Clean(p));
      }
    }
  }

  lemma NothingInEmpty()
    ensures Comps("") == []
  {
    assert Split("", SEP) == [""] && [""][..0] == [];
  }

  lemma UpwardStart(cs: seq<string>)
    requires cs != [] && cs[0] == ".."
    ensures Join(cs, SEP) == ".." || HasPrefix(Join(cs, SEP), "../")
  {
    if |cs| > 1 {
      assert Join(cs, SEP) == "../" + Join(cs[1..], SEP);
    }
  }

  lemma StartOf(s: string)
    ensures HasPrefix(s, "../") ==> Split(s, SEP)[0] == ".."
  {
    if HasPrefix(s, "../") {
      assert s == ".." + [SEP] + s[3..];
      SplitPlainThen("..", SEP, s[3..]);
    }
  }

  lemma DownwardStart(cs: seq<string>)
    requires cs != [] && Downward(cs)
    ensures Join(cs, SEP) != ".." && Join(cs, SEP) != "." && !HasPrefix(Join(cs, SEP), "../")
  {
    var s := Join(cs, SEP);
    SplitJoin(cs, SEP);
    if s == ".." || s == "." {
      SplitPlain(s, SEP);
    }
    StartOf(s);
  }

  datatype Parsed = Rejected | Accepted(m: BlueprintManifest)

  function ParseBlueprintManifest(raw: BlueprintManifest, isSemver: string -> bool): Parsed
  {
    var m := if raw.manifestVersion == 0 then raw.(manifestVersion := 1) else raw;
    if m.manifestVersion > SUPPORTED then Rejected
    else if m.id == "" || !IsManifestID(m.id) then Rejected
    else if m.name == "" then Rejected
    else if m.version == "" || !isSemver(if HasPrefix(m.version, "v") then m.version else "v" + m.version) then Rejected
    else if m.config == "" || !IsRelativePath(m.config) then Rejected
    else if m.thumbnailPath != "" && !IsRelativePath(m.thumbnailPath) then Rejected
    else Accepted(m)
  }

  /** A manifest is taken exactly when every field passes; the version of the format is
      1 when it is not given, and nothing else about the manifest changes. */
  lemma AcceptedIff(raw: BlueprintManifest, isSemver: string -> bool, m: BlueprintManifest)
    ensures ParseBlueprintManifest(raw, isSemver) == Accepted(m) <==>
      && raw.manifestVersion <= 1
      && m == (if raw.manifestVersion == 0 then raw.(manifestVersion := 1) else raw)
      && IsManifestID(raw.id) && raw.name != "" && raw.version != ""
      && isSemver(if raw.version[0] == 'v' then raw.version else "v" + raw.version)
      && IsRelativePath(raw.config) && (raw.thumbnailPath == "" || IsRelativePath(raw.thumbnailPath))
  {
    EmptyIsNoID();
    RelativePathIff("");
    NothingInEmpty();
  }

  lemma EmptyIsNoID()
    ensures !IsManifestID("")
  {
    assert Split("", SEP) == [""];
  }

  function ManifestOf(meta: Meta): BlueprintManifest
  {
    BlueprintManifest(SUPPORTED, meta.id, meta.name, meta.description, meta.version, meta.tags, "", "range-config.yml",
                      meta.minLudusVersion)
  }

  function MetaOf(m: BlueprintManifest): Meta
  {
    Meta(m.id, m.name, m.description, m.version, m.tags, m.minLudusVersion)
  }

  /** The metadata of a record passes the manifest checks. */
  predicate MetaOk(meta: Meta, isSemver: string -> bool)
  {
    && IsManifestID(meta.id) && meta.name != ""
    && meta.version != "" && isSemver(if HasPrefix(meta.version, "v") then meta.version else "v" + meta.version)
  }

  lemma OneComponent(name: string)
    requires Proper(name)
    ensures Comps(name) == [name] && Clean(name) == name && !Rooted(name)
  {
    assert Tidy([name], false);
    RenderedComps([name], false);
    assert Rendered([name], false) == name;
    assert name[0] in name;
  }

  lemma ConfigIsRelative()
    ensures IsRelativePath("range-config.yml")
  {
    OneComponent("range-config.yml");
    var p := "range-config.yml";
    assert SEP !in p;
    NoSepNoDots(p);
  }

  lemma {:induction false} NoSepNoDots(s: string)
    requires SEP !in s
    ensures !Contains(s, "/../") && !HasPrefix(s, "../") && !HasPrefix(s, "/")
  {
    if HasPrefix(s, "../") {
      PrefixHasSep(s, "..");
    }
    if HasPrefix(s, "/") {
      PrefixHasSep(s, "");
    }
    if s != "" {
      NoSepNoDots(s[1..]);
    }
  }

  /** An exported manifest is accepted exactly when the record's metadata passes. */
  lemma ExportedManifestIff(meta: Meta, isSemver: string -> bool)
    ensures ParseBlueprintManifest(ManifestOf(meta), isSemver)
         == if MetaOk(meta, isSemver) then Accepted(ManifestOf(meta)) else Rejected
  {
    ConfigIsRelative();
    EmptyIsNoID();
    hide IsManifestID, IsRelativePath, HasPrefix;
  }

  function SanitiseExportFilename(s: string): string
  {
    ReplaceAll(ReplaceAll(s, "/", "_"), "..", "_")
  }

  lemma {:induction false} ReplaceSepChars(s: string)
    ensures forall i :: 0 <= i < |ReplaceAll(s, "/", "_")| ==>
      ReplaceAll(s, "/", "_")[i] != SEP && (ReplaceAll(s, "/", "_")[i] in s || ReplaceAll(s, "/", "_")[i] == '_')
    ensures s != "" && s[0] != SEP ==> ReplaceAll(s, "/", "_") != "" && ReplaceAll(s, "/", "_")[0] == s[0]
  {
    if s != "" {
      ReplaceSepChars(s[1..]);
    }
  }

  lemma {:induction false} SplitCovers(s: string, sep: char, c: char)
    requires c in s && c != sep
    ensures exists i :: 0 <= i < |Split(s, sep)| && c in Split(s, sep)[i]
  {
    var parts, rest := Split(s, sep), Split(s[1..], sep);
    if s[0] == c {
      assert c in parts[0];
    } else {
      SplitCovers(s[1..], sep, c);
      var i :| 0 <= i < |rest| && c in rest[i];
      if s[0] == sep {
        assert parts[i + 1] == rest[i];
      } else if i > 0 {
        assert parts[i] == rest[i];
      } else {
        assert c in parts[0];
      }
    }
  }

  /** The wrapper directory of an export is one ordinary path component. */
  lemma PrefixIsComponent(id: string)
    requires IsManifestID(id)
    ensures var p := SanitiseExportFilename(id);
            Proper(p) && IsLetter(p[0]) && forall i :: 0 <= i < |p| ==> IsIDChar(p[i])
  {
    var flat := ReplaceAll(id, "/", "_");
    var parts := Split(id, SEP);
    assert id != "" && id[0] == parts[0][0];
    ReplaceSepChars(id);
    forall i | 0 <= i < |flat| ensures IsIDChar(flat[i]) {
      if flat[i] in id {
        SplitCovers(id, SEP, flat[i]);
        var k :| 0 <= k < |parts| && flat[i] in parts[k];
        assert IsIDPart(parts[k]);
      }
    }
    assert '.' !in flat;
    ReplaceAbsent(flat, "..", "_");
  }
}

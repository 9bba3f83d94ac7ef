/** The managed-block file editor of ludus-api/file_operations.go: one method
    with the source's loops, the function it computes, and the laws of that
    function on every file. */
module BlockEditor {
  import opened Text

  const NL: char := '\n'

  datatype Markers = Markers(begin: string, end: string)

  function MarkersOf(marker: string): Markers
  {
    Markers(ReplaceFirst(marker, "{mark}", "BEGIN"), ReplaceFirst(marker, "{mark}", "END"))
  }

  /** What every law asks of a marker pair: two different lines that trimming does
      not change. */
  ghost predicate Usable(m: Markers)
  {
    m.begin != m.end && Solid(m.begin) && Solid(m.end) && NL !in m.begin && NL !in m.end
  }

  /** A usable pair that is not blank either, as the callers' markers are. */
  ghost predicate Proper(m: Markers)
  {
    Usable(m) && m.begin != "" && m.end != ""
  }

  // ---------------------------------------------------------------- What one edit computes

  /** The lines after the first end marker, or nothing when there is none. */
  function SkipBlock(lines: seq<string>, end: string): (rest: seq<string>)
    ensures |rest| < |lines| || lines == rest == []
  {
    if lines == [] then []
    else if Trim(lines[0]) == end then lines[1..]
    else SkipBlock(lines[1..], end)
  }

  /** Every block from a begin marker to the next end marker (or to the end of
      the file) becomes `repl`; other lines stay. */
  function Scan(lines: seq<string>, m: Markers, repl: seq<string>): seq<string>
    decreases |lines|
  {
    if lines == [] then []
    else if Trim(lines[0]) == m.begin then repl + Scan(SkipBlock(lines, m.end), m, repl)
    else [lines[0]] + Scan(lines[1..], m, repl)
  }

  predicate Found(lines: seq<string>, m: Markers)
  {
    exists i :: 0 <= i < |lines| && Trim(lines[i]) == m.begin
  }

  function DropBlankEnd(lines: seq<string>): seq<string>
  {
    if lines != [] && lines[|lines| - 1] == "" then lines[..|lines| - 1] else lines
  }

  predicate EndsNL(s: string)
  {
    s != "" && s[|s| - 1] == NL
  }

  function Terminate(original: string, text: string): string
  {
    if EndsNL(original) && text != "" && !EndsNL(text) then text + [NL] else text
  }

  function EditLines(lines: seq<string>, m: Markers, repl: seq<string>, present: bool): seq<string>
  {
    if Found(lines, m) then Scan(lines, m, if present then repl else [])
    else if present then DropBlankEnd(lines) + repl
    else lines
  }

  function Edit(original: string, m: Markers, block: string, present: bool): string
  {
    Terminate(original, Join(EditLines(Split(original, NL), m, [m.begin, block, m.end], present), NL))
  }

  // ---------------------------------------------------------------- The source's loops

  ghost function From(lines: seq<string>, i: nat): seq<string>
  {
    if i <= |lines| then lines[i..] else []
  }

  lemma Extend(before: seq<string>, part: seq<string>, tail: seq<string>, after: seq<string>, whole: seq<string>)
    requires before + (part + tail) == whole
    requires after == before + part
    ensures after + tail == whole
  {
  }

  lemma ScanNothing(lines: seq<string>, m: Markers, repl: seq<string>)
    ensures Scan([], m, repl) == [] && From(lines, |lines|) == [] && From(lines, 0) == lines
  {
  }

  lemma SkipStep(lines: seq<string>, i: nat, end: string)
    requires i < |lines| && Trim(lines[i]) != end
    ensures SkipBlock(lines[i..], end) == SkipBlock(lines[i + 1..], end)
  {
    assert lines[i..][1..] == lines[i + 1..];
  }

  lemma ScanBegin(lines: seq<string>, i: nat, j: nat, m: Markers, repl: seq<string>)
    requires i < |lines| && Trim(lines[i]) == m.begin
    requires i <= j <= |lines| && (j < |lines| ==> Trim(lines[j]) == m.end)
    requires SkipBlock(lines[i..], m.end) == SkipBlock(lines[j..], m.end)
    ensures Scan(From(lines, i), m, repl) == repl + Scan(From(lines, j + 1), m, repl)
  {
    assert SkipBlock(lines[j..], m.end) == From(lines, j + 1);
  }

  lemma ScanOther(lines: seq<string>, i: nat, m: Markers, repl: seq<string>)
    requires i < |lines| && Trim(lines[i]) != m.begin
    ensures Scan(From(lines, i), m, repl) == [lines[i]] + Scan(From(lines, i + 1), m, repl)
  {
    assert lines[i..][1..] == lines[i + 1..];
  }

  /** The loop over the lines (ludus-api/file_operations.go:224-249). */
  method ReplaceBlocks(lines: seq<string>, m: Markers, block: string, present: bool)
    returns (newLines: seq<string>, blockFound: bool)
    ensures newLines == Scan(lines, m, if present then [m.begin, block, m.end] else [])
    ensures blockFound == Found(lines, m)
    ensures !blockFound ==> newLines == lines
  {
    ghost var repl := if present then [m.begin, block, m.end] else [];
    hide Trim, SkipBlock, Scan;
    ScanNothing(lines, m, repl);
    newLines := [];
    blockFound := false;
    var i := 0;
    while i < |lines|
      invariant 0 <= i <= |lines| + 1
      invariant newLines + Scan(From(lines, i), m, repl) == Scan(lines, m, repl)
      invariant blockFound ==> Found(lines, m)
      invariant !blockFound ==> i <= |lines| && newLines == lines[..i]
      invariant !blockFound ==> forall k :: 0 <= k < i ==> Trim(lines[k]) != m.begin
      decreases |lines| - i
    {
      var line := lines[i];
      ghost var before := newLines;
      if Trim(line) == m.begin {
        blockFound := true;
        newLines := newLines + (if present then [m.begin, block, m.end] else []);
        ghost var from := i;
        while i < |lines| && Trim(lines[i]) != m.end
          invariant from <= i <= |lines|
          invariant SkipBlock(lines[i..], m.end) == SkipBlock(lines[from..], m.end)
          decreases |lines| - i
        {
          SkipStep(lines, i, m.end);
          i := i + 1;
        }
        ScanBegin(lines, from, i, m, repl);
        Extend(before, repl, Scan(From(lines, i + 1), m, repl), newLines, Scan(lines, m, repl));
      } else {
        newLines := newLines + [line];
        assert !blockFound ==> newLines == lines[..i + 1];
        ScanOther(lines, i, m, repl);
        Extend(before, [line], Scan(From(lines, i + 1), m, repl), newLines, Scan(lines, m, repl));
      }
      i := i + 1;
    }
    if !blockFound {
      assert lines[..i] == lines;
    }
  }

  method ApplyBlockInFile(originalContent: string, marker: string, block: string, present: bool)
    returns (finalContent: string, changed: bool)
    ensures finalContent == Edit(originalContent, MarkersOf(marker), block, present)
    ensures changed <==> Trim(originalContent) != Trim(finalContent)
  {
    hide Trim, Split, Join, Scan, Found, MarkersOf;
    var m := MarkersOf(marker);
    var lines := Split(originalContent, NL);
    var newLines, blockFound := ReplaceBlocks(lines, m, block, present);
    if !blockFound && present {
      if |newLines[|newLines| - 1]| == 0 {
        newLines := newLines[..|newLines| - 1];
      }
      newLines := newLines + [m.begin];
      newLines := newLines + [block];
      newLines := newLines + [m.end];
    }
    assert newLines == EditLines(lines, m, [m.begin, block, m.end], present);
    finalContent := Join(newLines, NL);
    if |originalContent| > 0 && |finalContent| > 0 &&
       originalContent[|originalContent| - 1] == NL && finalContent[|finalContent| - 1] != NL {
      finalContent := finalContent + [NL];
    }
    changed := Trim(originalContent) != Trim(finalContent);
  }
}

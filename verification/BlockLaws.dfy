/** Laws of one managed-block edit on every file: applying it twice is applying
    it once, and removing a block just inserted gives the file back. */
module BlockLaws {
  import opened Text
  import opened BlockEditor

  // ---------------------------------------------------------------- The shape of a file

  /** A text is some lines plus, perhaps, a final newline. */
  function Render(lines: seq<string>, terminated: bool): string
  {
    Join(lines, NL) + (if terminated then [NL] else "")
  }

  ghost predicate Plain(lines: seq<string>)
  {
    forall i :: 0 <= i < |lines| ==> NL !in lines[i]
  }

  ghost predicate Shaped(lines: seq<string>, terminated: bool)
  {
    && Plain(lines)
    && (terminated ==> lines != [])
    && (!terminated && lines != [] ==> lines[|lines| - 1] != "")
  }

  function Tail(terminated: bool): seq<string>
  {
    if terminated then [""] else []
  }

  function ShapeLines(s: string): seq<string>
  {
    if s == "" then [] else if EndsNL(s) then Split(s[..|s| - 1], NL) else Split(s, NL)
  }

  lemma {:induction false} JoinLast(lines: seq<string>)
    requires lines != [] && lines[|lines| - 1] != ""
    ensures Join(lines, NL) != ""
    ensures Join(lines, NL)[|Join(lines, NL)| - 1] == lines[|lines| - 1][|lines[|lines| - 1]| - 1]
  {
    if |lines| > 1 {
      JoinLast(lines[1..]);
    }
  }

  lemma {:induction false} SplitLast(s: string)
    requires s != "" && !EndsNL(s)
    ensures Split(s, NL)[|Split(s, NL)| - 1] != ""
  {
    if |s| > 1 {
      SplitLast(s[1..]);
    }
  }

  lemma ShapeOf(s: string)
    ensures Shaped(ShapeLines(s), EndsNL(s))
    ensures Render(ShapeLines(s), EndsNL(s)) == s
  {
    if s != "" {
      if EndsNL(s) {
        JoinSplit(s[..|s| - 1], NL);
        assert s == s[..|s| - 1] + [NL];
      } else {
        JoinSplit(s, NL);
        SplitLast(s);
      }
    }
  }

  lemma RenderEnds(lines: seq<string>, terminated: bool)
    requires Shaped(lines, terminated)
    ensures EndsNL(Render(lines, terminated)) == terminated
    ensures Render(lines, terminated) == "" <==> lines == []
  {
    if !terminated && lines != [] {
      JoinLast(lines);
      var last := lines[|lines| - 1];
      assert last[|last| - 1] in last;
    }
  }

  lemma SplitRender(lines: seq<string>, terminated: bool)
    requires Shaped(lines, terminated) && lines != []
    ensures Split(Render(lines, terminated), NL) == lines + Tail(terminated)
  {
    if terminated {
      SplitConcat(Join(lines, NL), NL, "");
      assert Render(lines, true) == Join(lines, NL) + [NL] + "";
      assert Split("", NL) == [""];
    } else {
      assert Render(lines, false) == Join(lines, NL);
    }
    SplitJoin(lines, NL);
  }

  lemma JoinTail(lines: seq<string>, terminated: bool)
    requires lines != []
    ensures Join(lines + Tail(terminated), NL) == Render(lines, terminated)
  {
    if terminated {
      JoinConcat(lines, [""], NL);
    } else {
      assert lines + Tail(terminated) == lines;
    }
  }

  // ---------------------------------------------------------------- Working on flat lines

  /** A block as it reads back from the file: marker, its lines, marker. */
  function BlockLines(m: Markers, block: string): seq<string>
  {
    [m.begin] + Split(block, NL) + [m.end]
  }

  lemma BlockLinesFlat(m: Markers, block: string)
    requires Usable(m)
    ensures Flat([m.begin, block, m.end], NL) == BlockLines(m, block)
    ensures Plain(BlockLines(m, block))
  {
    SplitPlain(m.begin, NL);
    SplitPlain(m.end, NL);
    var parts := [m.begin, block, m.end];
    assert parts[1..][1..] == [m.end];
    assert Flat([m.end], NL) == [m.end] + Flat([], NL);
    assert Flat(parts[1..], NL) == Split(block, NL) + Flat(parts[1..][1..], NL);
  }

  lemma {:induction false} FlatPlain(lines: seq<string>)
    requires Plain(lines)
    ensures Flat(lines, NL) == lines
  {
    if lines != [] {
      FlatPlain(lines[1..]);
      SplitPlain(lines[0], NL);
    }
  }

  lemma {:induction false} SkipPlain(lines: seq<string>, end: string)
    requires Plain(lines)
    ensures Plain(SkipBlock(lines, end))
  {
    if lines != [] {
      SkipPlain(lines[1..], end);
    }
  }

  lemma {:induction false} FlatScan(lines: seq<string>, m: Markers, repl: seq<string>)
    requires Plain(lines)
    ensures Flat(Scan(lines, m, repl), NL) == Scan(lines, m, Flat(repl, NL))
    decreases |lines|
  {
    if lines == [] {
    } else if Trim(lines[0]) == m.begin {
      SkipPlain(lines, m.end);
      FlatScan(SkipBlock(lines, m.end), m, repl);
      FlatConcat(repl, Scan(SkipBlock(lines, m.end), m, repl), NL);
    } else {
      FlatScan(lines[1..], m, repl);
      SplitPlain(lines[0], NL);
      assert ([lines[0]] + Scan(lines[1..], m, repl))[1..] == Scan(lines[1..], m, repl);
    }
  }

  /** The edit computed line by line, with the block already split into its lines. */
  lemma EditFlat(original: string, m: Markers, block: string, present: bool)
    requires Usable(m)
    ensures Edit(original, m, block, present)
         == Terminate(original, Join(EditLines(Split(original, NL), m, BlockLines(m, block), present), NL))
  {
    var lines := Split(original, NL);
    var parts := [m.begin, block, m.end];
    BlockLinesFlat(m, block);
    if Found(lines, m) {
      FlatScan(lines, m, if present then parts else []);
    } else if present {
      FlatConcat(DropBlankEnd(lines), parts, NL);
      FlatPlain(DropBlankEnd(lines));
    } else {
      FlatPlain(lines);
    }
    JoinFlat(EditLines(lines, m, parts, present), NL);
  }

  // ---------------------------------------------------------------- Scanning

  ghost predicate NoBegin(lines: seq<string>, m: Markers)
  {
    forall i :: 0 <= i < |lines| ==> Trim(lines[i]) != m.begin
  }

  /** No line of the block reads as its own end marker. */
  ghost predicate Closed(block: string, m: Markers)
  {
    forall i :: 0 <= i < |Split(block, NL)| ==> Trim(Split(block, NL)[i]) != m.end
  }

  lemma {:induction false} ScanNoBegin(lines: seq<string>, rest: seq<string>, m: Markers, repl: seq<string>)
    requires NoBegin(lines, m)
    ensures Scan(lines + rest, m, repl) == lines + Scan(rest, m, repl)
  {
    if lines == [] {
      assert lines + rest == rest;
    } else {
      ScanNoBegin(lines[1..], rest, m, repl);
      assert (lines + rest)[1..] == lines[1..] + rest;
    }
  }

  lemma {:induction false} SkipTo(lines: seq<string>, end: string, rest: seq<string>)
    requires Solid(end)
    requires forall i :: 0 <= i < |lines| ==> Trim(lines[i]) != end
    ensures SkipBlock(lines + [end] + rest, end) == rest
  {
    var all := lines + [end] + rest;
    SolidIsTrimmed(end);
    if lines == [] {
      assert all[1..] == rest;
    } else {
      SkipTo(lines[1..], end, rest);
      assert all[1..] == lines[1..] + [end] + rest;
    }
  }

  lemma ScanBlock(m: Markers, block: string, rest: seq<string>, repl: seq<string>)
    requires Usable(m) && Closed(block, m)
    ensures Scan(BlockLines(m, block) + rest, m, repl) == repl + Scan(rest, m, repl)
  {
    var inner := [m.begin] + Split(block, NL);
    SolidIsTrimmed(m.begin);
    assert forall i :: 0 < i < |inner| ==> inner[i] == Split(block, NL)[i - 1];
    SkipTo(inner, m.end, rest);
    assert BlockLines(m, block) + rest == inner + [m.end] + rest;
  }

  /** What a scan writes, the next scan with the same block leaves alone. */
  lemma {:induction false} ScanTwice(lines: seq<string>, m: Markers, block: string, rest: seq<string>)
    requires Usable(m) && Closed(block, m) && NoBegin(rest, m)
    ensures var repl := BlockLines(m, block);
            Scan(Scan(lines, m, repl) + rest, m, repl) == Scan(lines, m, repl) + rest
    decreases |lines|
  {
    var repl := BlockLines(m, block);
    if lines == [] {
      ScanNoBegin(rest, [], m, repl);
      assert rest + [] == rest;
      assert Scan(lines, m, repl) + rest == rest;
    } else if Trim(lines[0]) == m.begin {
      var later := Scan(SkipBlock(lines, m.end), m, repl);
      ScanTwice(SkipBlock(lines, m.end), m, block, rest);
      ScanBlock(m, block, later + rest, repl);
      assert repl + later + rest == repl + (later + rest);
    } else {
      ScanTwice(lines[1..], m, block, rest);
      var later := Scan(lines[1..], m, repl);
      assert [lines[0]] + later + rest == [lines[0]] + (later + rest);
      assert ([lines[0]] + (later + rest))[1..] == later + rest;
    }
  }

  lemma {:induction false} ScanRemoves(lines: seq<string>, m: Markers)
    ensures NoBegin(Scan(lines, m, []), m)
    decreases |lines|
  {
    if lines == [] {
    } else if Trim(lines[0]) == m.begin {
      ScanRemoves(SkipBlock(lines, m.end), m);
    } else {
      ScanRemoves(lines[1..], m);
    }
  }

  lemma {:induction false} ScanKeepsPlain(lines: seq<string>, m: Markers, repl: seq<string>)
    requires Plain(lines) && Plain(repl)
    ensures Plain(Scan(lines, m, repl))
    ensures Found(lines, m) ==> |repl| <= |Scan(lines, m, repl)|
    decreases |lines|
  {
    if lines == [] {
    } else if Trim(lines[0]) == m.begin {
      SkipPlain(lines, m.end);
      ScanKeepsPlain(SkipBlock(lines, m.end), m, repl);
    } else {
      ScanKeepsPlain(lines[1..], m, repl);
      assert Found(lines, m) ==> Found(lines[1..], m) by {
        if Found(lines, m) {
          var i :| 0 <= i < |lines| && Trim(lines[i]) == m.begin;
          assert lines[1..][i - 1] == lines[i];
        }
      }
    }
  }

  lemma {:induction false} ScanFinds(lines: seq<string>, m: Markers, block: string)
    requires Usable(m) && Found(lines, m)
    ensures Found(Scan(lines, m, BlockLines(m, block)), m)
    decreases |lines|
  {
    var out := Scan(lines, m, BlockLines(m, block));
    SolidIsTrimmed(m.begin);
    hide Trim;
    if Trim(lines[0]) == m.begin {
      assert out[0] == m.begin;
    } else {
      var i :| 0 <= i < |lines| && Trim(lines[i]) == m.begin;
      assert lines[1..][i - 1] == lines[i];
      ScanFinds(lines[1..], m, block);
      var j :| 0 <= j < |out| - 1 && Trim(Scan(lines[1..], m, BlockLines(m, block))[j]) == m.begin;
      assert out[j + 1] == Scan(lines[1..], m, BlockLines(m, block))[j];
    }
  }

  lemma EditLinesPlain(lines: seq<string>, m: Markers, repl: seq<string>, present: bool)
    requires Plain(lines) && Plain(repl)
    ensures Plain(EditLines(lines, m, repl, present))
  {
    ScanKeepsPlain(lines, m, if present then repl else []);
  }

  // ---------------------------------------------------------------- Doing it twice

  /** A line list the edit leaves alone gives a text the edit leaves alone. */
  lemma EditFixed(original: string, out: seq<string>, m: Markers, block: string, present: bool)
    requires Usable(m) && out != [] && Plain(out)
    requires forall rest | rest == [] || rest == [""] ::
               EditLines(out + rest, m, BlockLines(m, block), present) == out + rest
    ensures var text := Terminate(original, Join(out, NL)); Edit(text, m, block, present) == text
  {
    var text := Terminate(original, Join(out, NL));
    SplitJoin(out, NL);
    var rest := if text == Join(out, NL) then [] else [""];
    assert Split(text, NL) == out + rest by {
      if rest == [] {
        assert out + rest == out;
      } else {
        SplitConcat(Join(out, NL), NL, "");
        assert text == Join(out, NL) + [NL] + "";
        assert Split("", NL) == [""];
      }
    }
    EditFlat(text, m, block, present);
    JoinSplit(text, NL);
  }

  lemma BlockThenRest(front: seq<string>, m: Markers, block: string, rest: seq<string>, repl: seq<string>)
    requires Usable(m) && Closed(block, m) && NoBegin(front, m) && NoBegin(rest, m)
    ensures Scan(front + BlockLines(m, block) + rest, m, repl) == front + repl + rest
    ensures Found(front + BlockLines(m, block) + rest, m)
  {
    var b := BlockLines(m, block);
    SolidIsTrimmed(m.begin);
    assert (front + b + rest)[|front|] == m.begin;
    assert Scan(rest, m, repl) == rest by {
      ScanNoBegin(rest, [], m, repl);
      assert rest + [] == rest;
    }
    calc {
      Scan(front + b + rest, m, repl);
    == { assert front + b + rest == front + (b + rest); }
      Scan(front + (b + rest), m, repl);
    == { ScanNoBegin(front, b + rest, m, repl); }
      front + Scan(b + rest, m, repl);
    == { ScanBlock(m, block, rest, repl); }
      front + (repl + rest);
    == { assert front + repl + rest == front + (repl + rest); }
      front + repl + rest;
    }
  }

  lemma InsertFixed(lines: seq<string>, m: Markers, block: string, rest: seq<string>)
    requires Usable(m) && m.begin != "" && Closed(block, m)
    requires rest == [] || rest == [""]
    ensures var out := EditLines(lines, m, BlockLines(m, block), true);
            EditLines(out + rest, m, BlockLines(m, block), true) == out + rest
  {
    var out := EditLines(lines, m, BlockLines(m, block), true);
    if Found(lines, m) {
      ScanFinds(lines, m, block);
      var i :| 0 <= i < |out| && Trim(out[i]) == m.begin;
      assert (out + rest)[i] == out[i];
      ScanTwice(lines, m, block, rest);
    } else {
      BlockThenRest(DropBlankEnd(lines), m, block, rest, BlockLines(m, block));
    }
  }

  lemma InsertTwice(original: string, m: Markers, block: string)
    requires Usable(m) && m.begin != "" && Closed(block, m)
    ensures Edit(Edit(original, m, block, true), m, block, true) == Edit(original, m, block, true)
  {
    var lines := Split(original, NL);
    var repl := BlockLines(m, block);
    var out := EditLines(lines, m, repl, true);
    EditFlat(original, m, block, true);
    BlockLinesFlat(m, block);
    EditLinesPlain(lines, m, repl, true);
    ScanKeepsPlain(lines, m, repl);
    forall rest | rest == [] || rest == [""]
      ensures EditLines(out + rest, m, repl, true) == out + rest
    {
      InsertFixed(lines, m, block, rest);
    }
    EditFixed(original, out, m, block, true);
  }

  lemma RemoveTwice(original: string, m: Markers, block: string)
    requires Usable(m) && m.begin != ""
    ensures Edit(Edit(original, m, block, false), m, block, false) == Edit(original, m, block, false)
  {
    var lines := Split(original, NL);
    var out := EditLines(lines, m, BlockLines(m, block), false);
    EditFlat(original, m, block, false);
    BlockLinesFlat(m, block);
    EditLinesPlain(lines, m, BlockLines(m, block), false);
    ScanRemoves(lines, m);
    assert NoBegin(out, m);
    assert Trim("") == "";
    hide Trim, Scan, Split;
    if out == [] {
      assert Edit("", m, block, false) == "";
    } else {
      forall rest | rest == [] || rest == [""]
        ensures EditLines(out + rest, m, BlockLines(m, block), false) == out + rest
      {
        assert NoBegin(out + rest, m);
      }
      EditFixed(original, out, m, block, false);
    }
  }

  /** Applying the same edit twice is applying it once, on every file: with
      several copies of the block, or a block whose end marker is missing. */
  lemma EditIdempotent(original: string, m: Markers, block: string, present: bool)
    requires Usable(m) && m.begin != "" && (present ==> Closed(block, m))
    ensures Edit(Edit(original, m, block, present), m, block, present) == Edit(original, m, block, present)
  {
    if present {
      InsertTwice(original, m, block);
    } else {
      RemoveTwice(original, m, block);
    }
  }

  // ---------------------------------------------------------------- Taking a block back out

  /** Inserting into a file without the begin marker appends the block and keeps the shape. */
  lemma InsertShaped(lines: seq<string>, terminated: bool, m: Markers, block: string)
    requires Usable(m) && m.end != "" && Shaped(lines, terminated) && NoBegin(lines, m)
    requires m.begin == "" ==> lines != [] && !terminated
    ensures Shaped(lines + BlockLines(m, block), terminated)
    ensures Edit(Render(lines, terminated), m, block, true) == Render(lines + BlockLines(m, block), terminated)
  {
    var text := Render(lines, terminated);
    var repl := BlockLines(m, block);
    EditFlat(text, m, block, true);
    BlockLinesFlat(m, block);
    LinesBack(lines, terminated, m);
    BlockKeepsShape(lines, terminated, m, block);
    hide Trim, Split, Join, Scan, Found, BlockLines, DropBlankEnd, Shaped;
    RenderEnds(lines, terminated);
    RenderEnds(lines + repl, false);
  }

  lemma BlockKeepsShape(lines: seq<string>, terminated: bool, m: Markers, block: string)
    requires Usable(m) && m.end != "" && Shaped(lines, terminated)
    ensures Shaped(lines + BlockLines(m, block), terminated) && Shaped(lines + BlockLines(m, block), false)
    ensures lines + BlockLines(m, block) != []
  {
    BlockLinesFlat(m, block);
  }

  /** The lines of a shaped text without the begin marker, as the append branch sees them. */
  lemma LinesBack(lines: seq<string>, terminated: bool, m: Markers)
    requires Shaped(lines, terminated) && NoBegin(lines, m)
    requires m.begin == "" ==> lines != [] && !terminated
    ensures var all := Split(Render(lines, terminated), NL); DropBlankEnd(all) == lines && !Found(all, m)
  {
    assert Split("", NL) == [""] && Trim("") == "";
    hide Trim, Split, Join;
    if lines == [] {
      assert Render(lines, terminated) == "" by {
        RenderEmpty();
      }
    } else {
      SplitRender(lines, terminated);
    }
  }

  lemma RenderEmpty()
    ensures Render([], false) == ""
  {
  }

  /** Any other edit that keeps the shape of the lines keeps the shape of the text. */
  lemma EditShaped(lines: seq<string>, out: seq<string>, terminated: bool, m: Markers, block: string, present: bool)
    requires Usable(m) && Shaped(lines, terminated) && lines != [] && Shaped(out, terminated)
    requires var repl := if present then BlockLines(m, block) else [];
             Scan(lines + Tail(terminated), m, repl) == out + Tail(terminated)
    requires Found(lines, m)
    ensures Edit(Render(lines, terminated), m, block, present) == Render(out, terminated)
  {
    var text := Render(lines, terminated);
    EditFlat(text, m, block, present);
    SplitRender(lines, terminated);
    RenderEnds(lines, terminated);
    RenderEnds(out, terminated);
    var i :| 0 <= i < |lines| && Trim(lines[i]) == m.begin;
    assert (lines + Tail(terminated))[i] == lines[i];
    if out == [] {
      assert out + Tail(terminated) == [];
    } else {
      JoinTail(out, terminated);
    }
  }

  /** The last piece of an empty text, and of one with a final newline, is blank. */
  lemma EndsBlank(original: string)
    ensures var parts := Split(original, NL); original == "" || EndsNL(original) ==> parts[|parts| - 1] == ""
  {
    if EndsNL(original) {
      var front := original[..|original| - 1];
      assert original == front + [NL] + "";
      SplitConcat(front, NL, "");
    }
  }

  /** Removing a block just inserted restores the file byte for byte. */
  lemma RemoveUndoesInsert(original: string, m: Markers, block: string, ignored: string)
    requires Usable(m) && m.end != "" && Closed(block, m) && NoBegin(Split(original, NL), m)
    ensures Edit(Edit(original, m, block, true), m, ignored, false) == original
  {
    var lines, terminated := ShapeLines(original), EndsNL(original);
    var repl := BlockLines(m, block);
    ShapeOf(original);
    if original != "" {
      SplitRender(lines, terminated);
      assert forall i :: 0 <= i < |lines| ==> Split(original, NL)[i] == lines[i];
    }
    EndsBlank(original);
    assert Trim("") == "" && Trim(Split(original, NL)[|Split(original, NL)| - 1]) != m.begin;
    InsertShaped(lines, terminated, m, block);
    BlockThenRest(lines, m, block, Tail(terminated), []);
    BlockThenRest(lines, m, block, [], []);
    assert lines + repl + [] == lines + repl;
    assert lines + [] + Tail(terminated) == lines + Tail(terminated);
    EditShaped(lines + repl, lines, terminated, m, ignored, false);
  }
}

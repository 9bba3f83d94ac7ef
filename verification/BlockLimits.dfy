/** Where the laws of the block editor end: which blocks can be written twice,
    and what goes wrong with a blank marker. */
module BlockLimits {
  import opened Text
  import opened BlockEditor
  import opened BlockLaws

  lemma {:induction false} SkipLeaves(lines: seq<string>, end: string, i: nat)
    requires i + 1 < |lines| && Trim(lines[i]) == end
    ensures SkipBlock(lines, end) != []
  {
    hide Trim;
    if i > 0 && Trim(lines[0]) != end {
      SkipLeaves(lines[1..], end, i - 1);
    }
  }

  /** The text of a block written into an empty file. */
  lemma FirstWrite(m: Markers, block: string)
    requires Proper(m)
    ensures Edit("", m, block, true) == Join(BlockLines(m, block), NL)
    ensures Split(Join(BlockLines(m, block), NL), NL) == BlockLines(m, block)
  {
    EditFlat("", m, block, true);
    BlockLinesFlat(m, block);
    SplitJoin(BlockLines(m, block), NL);
    assert Split("", NL) == [""] && Trim("") == "";
    assert !Found([""], m);
    assert [] + BlockLines(m, block) == BlockLines(m, block);
  }

  lemma OpenBlockGrows(m: Markers, block: string)
    requires Proper(m) && !Closed(block, m)
    ensures |Edit(Edit("", m, block, true), m, block, true)| > |Edit("", m, block, true)|
  {
    var lines, first := BlockLines(m, block), Edit("", m, block, true);
    FirstWrite(m, block);
    EditFlat(first, m, block, true);
    SolidIsTrimmed(m.begin);
    assert lines[0] == m.begin;
    var i :| 0 <= i < |Split(block, NL)| && Trim(Split(block, NL)[i]) == m.end;
    assert lines[i + 1] == Split(block, NL)[i];
    SkipLeaves(lines, m.end, i + 1);
    hide Trim, Split, SkipBlock;
    var more := Scan(SkipBlock(lines, m.end), m, lines);
    assert Scan(lines, m, lines) == lines + more && more != [];
    JoinConcat(lines, more, NL);
  }

  /** A block can be written again into every file without changing it if and only
      if none of its lines trims to the end marker. */
  lemma IdempotentIff(m: Markers, block: string)
    requires Proper(m)
    ensures (forall original :: Edit(Edit(original, m, block, true), m, block, true) == Edit(original, m, block, true))
      <==> Closed(block, m)
  {
    hide Edit, Closed;
    if Closed(block, m) {
      forall original ensures Edit(Edit(original, m, block, true), m, block, true) == Edit(original, m, block, true) {
        EditIdempotent(original, m, block, true);
      }
    } else {
      OpenBlockGrows(m, block);
    }
  }

  // ---------------------------------------------------------------- Blank markers

  /** A second scan of what a scan wrote changes only what follows. */
  lemma {:induction false} ScanAgain(lines: seq<string>, m: Markers, block: string, rest: seq<string>)
    requires Usable(m) && Closed(block, m)
    ensures var repl := BlockLines(m, block);
            Scan(Scan(lines, m, repl) + rest, m, repl) == Scan(lines, m, repl) + Scan(rest, m, repl)
    decreases |lines|
  {
    hide Trim, Closed;
    var repl := BlockLines(m, block);
    if lines == [] {
      assert Scan(lines, m, repl) + rest == rest;
    } else if Trim(lines[0]) == m.begin {
      var later := Scan(SkipBlock(lines, m.end), m, repl);
      ScanAgain(SkipBlock(lines, m.end), m, block, rest);
      ScanBlock(m, block, later + rest, repl);
      assert repl + later + rest == repl + (later + rest);
      assert repl + later + Scan(rest, m, repl) == repl + (later + Scan(rest, m, repl));
    } else {
      ScanAgain(lines[1..], m, block, rest);
      var later := Scan(lines[1..], m, repl);
      assert [lines[0]] + later + rest == [lines[0]] + (later + rest);
      assert ([lines[0]] + (later + rest))[1..] == later + rest;
      assert [lines[0]] + later + Scan(rest, m, repl) == [lines[0]] + (later + Scan(rest, m, repl));
    }
  }

  lemma {:induction false} SkipKeepsLast(lines: seq<string>, end: string)
    ensures var rest := SkipBlock(lines, end); rest != [] ==> lines != [] && rest[|rest| - 1] == lines[|lines| - 1]
  {
    hide Trim;
    if lines != [] && Trim(lines[0]) != end {
      SkipKeepsLast(lines[1..], end);
    }
  }

  /** A scan of lines that end with a blank begin marker ends with the end marker. */
  lemma {:induction false} EndsWithBlock(lines: seq<string>, m: Markers, block: string)
    requires m.begin == "" && lines != [] && lines[|lines| - 1] == ""
    ensures var out := Scan(lines, m, BlockLines(m, block)); out != [] && out[|out| - 1] == m.end
    decreases |lines|
  {
    assert Trim("") == "";
    hide Trim;
    if Trim(lines[0]) == m.begin {
      var rest := SkipBlock(lines, m.end);
      SkipKeepsLast(lines, m.end);
      if rest != [] {
        EndsWithBlock(rest, m, block);
      } else {
        assert BlockLines(m, block) + [] == BlockLines(m, block);
      }
    } else {
      EndsWithBlock(lines[1..], m, block);
    }
  }

  /** The first insertion under a blank begin marker into a file with a final newline. */
  lemma BlankFirst(original: string, m: Markers, block: string)
    requires Usable(m) && m.begin == "" && Closed(block, m) && EndsNL(original)
    ensures var out := Scan(Split(original, NL), m, BlockLines(m, block));
            Edit(original, m, block, true) == Join(out, NL) + [NL] && Split(Join(out, NL) + [NL], NL) == out + [""]
  {
    var lines := Split(original, NL);
    var out := Scan(lines, m, BlockLines(m, block));
    EndsBlank(original);
    EndsWithBlock(lines, m, block);
    assert Trim(lines[|lines| - 1]) == m.begin;
    EditFlat(original, m, block, true);
    BlockLinesFlat(m, block);
    ScanKeepsPlain(lines, m, BlockLines(m, block));
    JoinLast(out);
    SplitJoin(out, NL);
    SplitConcat(Join(out, NL), NL, "");
    assert Join(out, NL) + [NL] == Join(out, NL) + [NL] + "";
    assert Split("", NL) == [""];
  }

  /** Under a blank begin marker the blank line after a final newline reads as the
      start of an open block, and the second insertion adds a second copy. */
  lemma BlankBeginGrows(original: string, m: Markers, block: string)
    requires Usable(m) && m.begin == "" && Closed(block, m) && EndsNL(original)
    ensures |Edit(Edit(original, m, block, true), m, block, true)| > |Edit(original, m, block, true)|
  {
    var b, first := BlockLines(m, block), Edit(original, m, block, true);
    var out := Scan(Split(original, NL), m, b);
    BlankFirst(original, m, block);
    SecondScan(original, m, block);
    hide Split, Scan, Edit;
    BlankFirst(first, m, block);
    EndsNonEmpty(original, m, block);
    JoinConcat(out, b, NL);
  }

  lemma EndsNonEmpty(original: string, m: Markers, block: string)
    requires m.begin == "" && EndsNL(original)
    ensures Scan(Split(original, NL), m, BlockLines(m, block)) != []
  {
    EndsBlank(original);
    EndsWithBlock(Split(original, NL), m, block);
  }

  lemma SecondScan(original: string, m: Markers, block: string)
    requires Usable(m) && m.begin == "" && Closed(block, m) && EndsNL(original)
    ensures var b := BlockLines(m, block);
            var out := Scan(Split(original, NL), m, b);
            Scan(Split(Edit(original, m, block, true), NL), m, b) == out + b
  {
    var b := BlockLines(m, block);
    BlankFirst(original, m, block);
    ScanAgain(Split(original, NL), m, block, [""]);
    assert Trim("") == "" && SkipBlock([""], m.end) == [];
    assert Scan([""], m, b) == b + [];
  }

  /** Among trimmed, different, newline-free markers, a closed block can be written
      again into every file if and only if the begin marker is not blank. */
  lemma IdempotentMarkersIff(m: Markers, block: string)
    requires Usable(m) && Closed(block, m)
    ensures (forall original :: Edit(Edit(original, m, block, true), m, block, true) == Edit(original, m, block, true))
      <==> m.begin != ""
  {
    hide Edit, Closed;
    if m.begin != "" {
      forall original ensures Edit(Edit(original, m, block, true), m, block, true) == Edit(original, m, block, true) {
        EditIdempotent(original, m, block, true);
      }
    } else {
      assert EndsNL("\n");
      BlankBeginGrows("\n", m, block);
    }
  }

  /** With a blank end marker, removing a block just inserted into a file that ends
      without a newline leaves a newline behind. */
  lemma BlankEndAddsNewline(original: string, m: Markers, block: string)
    requires Usable(m) && m.end == "" && Closed(block, m)
    requires original != "" && !EndsNL(original) && NoBegin(Split(original, NL), m)
    ensures Edit(Edit(original, m, block, true), m, block, false) == original + [NL]
  {
    var lines, b := Split(original, NL), BlockLines(m, block);
    LastNotBlank(original);
    EditFlat(original, m, block, true);
    BlockLinesFlat(m, block);
    var text := Join(lines + b, NL);
    BlankEndText(lines, m, block);
    assert Edit(original, m, block, true) == text;
    EditFlat(text, m, block, false);
    BlockThenRest(lines, m, block, [], []);
    assert lines + b + [] == lines + b && lines + [] + [] == lines;
    JoinSplit(original, NL);
  }

  lemma LastNotBlank(original: string)
    requires original != "" && !EndsNL(original)
    ensures DropBlankEnd(Split(original, NL)) == Split(original, NL)
  {
    JoinSplit(original, NL);
    BlankLastJoins(Split(original, NL));
  }

  lemma BlankLastJoins(lines: seq<string>)
    requires lines != []
    ensures lines[|lines| - 1] == "" ==> Join(lines, NL) == "" || EndsNL(Join(lines, NL))
  {
    var front := lines[..|lines| - 1];
    if front != [] {
      assert lines == front + [lines[|lines| - 1]];
      JoinConcat(front, [lines[|lines| - 1]], NL);
    }
  }

  lemma BlankEndText(lines: seq<string>, m: Markers, block: string)
    requires Usable(m) && m.end == "" && lines != [] && Plain(lines)
    ensures var all := lines + BlockLines(m, block);
            EndsNL(Join(all, NL)) && Split(Join(all, NL), NL) == all
  {
    var all := lines + BlockLines(m, block);
    BlockLinesFlat(m, block);
    SplitJoin(all, NL);
    var front := all[..|all| - 1];
    assert all == front + [""];
    JoinConcat(front, [""], NL);
  }

  /** Among trimmed, different, newline-free markers, removing a closed block just
      inserted gives every file without the begin marker back if and only if the
      end marker is not blank. */
  lemma RemoveUndoesInsertIff(m: Markers, block: string)
    requires Usable(m) && Closed(block, m)
    ensures (forall original | NoBegin(Split(original, NL), m) ::
               Edit(Edit(original, m, block, true), m, block, false) == original)
      <==> m.end != ""
  {
    if m.end != "" {
      hide Edit, Closed, NoBegin, Split;
      forall original | NoBegin(Split(original, NL), m)
        ensures Edit(Edit(original, m, block, true), m, block, false) == original
      {
        RemoveUndoesInsert(original, m, block, block);
      }
    } else {
      var original := m.begin + "x";
      SolidIsTrimmed(original);
      SplitPlain(original, NL);
      hide Edit, Closed, Trim;
      assert NoBegin(Split(original, NL), m);
      BlankEndAddsNewline(original, m, block);
      assert |original + [NL]| > |original|;
    }
  }
}

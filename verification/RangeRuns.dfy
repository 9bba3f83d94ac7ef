/** Whole runs of edits: the `changed` flag is exact, and after any sequence of
    inserts, replacements and removals the file is the map the sequence describes. */
module RangeRuns {
  import opened Text
  import opened BlockEditor
  import opened BlockLaws
  import opened RangeFiles

  // ---------------------------------------------------------------- The changed flag

  function InkLines(lines: seq<string>): nat
  {
    if lines == [] then 0 else Ink(lines[0]) + InkLines(lines[1..])
  }

  lemma {:induction false} InkLinesConcat(xs: seq<string>, ys: seq<string>)
    ensures InkLines(xs + ys) == InkLines(xs) + InkLines(ys)
  {
    if xs == [] {
      assert xs + ys == ys;
    } else {
      InkLinesConcat(xs[1..], ys);
      assert (xs + ys)[1..] == xs[1..] + ys;
    }
  }

  lemma {:induction false} InkJoin(lines: seq<string>)
    ensures Ink(Join(lines, NL)) == InkLines(lines)
  {
    if |lines| == 1 {
      assert InkLines(lines[1..]) == 0;
    } else if lines != [] {
      InkJoin(lines[1..]);
      InkConcat(lines[0], [NL]);
      InkConcat(lines[0] + [NL], Join(lines[1..], NL));
      assert Ink([NL]) == 0;
    }
  }

  lemma InkFile(p: string, base: string, es: seq<Entry>)
    ensures Ink(FileText(p, base, es)) == InkLines(ShapeLines(base)) + InkLines(EntryLines(p, es))
  {
    var lines := ShapeLines(base) + EntryLines(p, es);
    InkJoin(lines);
    InkLinesConcat(ShapeLines(base), EntryLines(p, es));
    InkConcat(Join(lines, NL), if EndsNL(base) then [NL] else "");
    assert Ink([NL]) == 0;
  }

  lemma InkBlock(p: string, key: int, block: string)
    requires GoodPrefix(p)
    ensures InkLines(BlockLines(Marks(p, key), block)) > 0
  {
    var m := Marks(p, key);
    assert m.begin[0] == p[0];
    assert Ink(m.begin) > 0;
    InkLinesConcat([m.begin], Split(block, NL) + [m.end]);
    assert [m.begin] + (Split(block, NL) + [m.end]) == BlockLines(m, block);
  }

  lemma {:induction false} InkDrop(p: string, es: seq<Entry>, key: int)
    requires GoodPrefix(p)
    ensures InkLines(EntryLines(p, Drop(es, key))) <= InkLines(EntryLines(p, es))
    ensures HasKey(es, key) ==> InkLines(EntryLines(p, Drop(es, key))) < InkLines(EntryLines(p, es))
  {
    if es != [] {
      hide BlockLines, Marks;
      InkDrop(p, es[1..], key);
      var mine := BlockLines(Marks(p, es[0].key), es[0].block);
      InkLinesConcat(mine, EntryLines(p, es[1..]));
      InkLinesConcat(mine, EntryLines(p, Drop(es[1..], key)));
      InkBlock(p, es[0].key, es[0].block);
      if es[0].key == key {
        assert Drop(es, key) == Drop(es[1..], key);
      } else {
        assert Drop(es, key) == [es[0]] + Drop(es[1..], key);
        assert HasKey(es, key) ==> HasKey(es[1..], key) by {
          assert forall i :: 0 < i < |es| ==> es[1..][i - 1] == es[i];
        }
      }
    }
  }

  lemma ReplaceAround(front: seq<Entry>, e: Entry, back: seq<Entry>, block: string)
    requires Distinct(front + [e] + back)
    ensures Replace(front + [e] + back, e.key, block) == front + [Entry(e.key, block)] + back
  {
    var es := front + [e] + back;
    ReplaceKeys(es, e.key, block);
    assert es[|front|] == e;
    forall i | 0 <= i < |es| && i != |front| ensures es[i].key != e.key {
      if i < |front| {
        assert es[i].key != es[|front|].key;
      } else {
        assert es[|front|].key != es[i].key;
      }
    }
  }

  /** The text around one block does not depend on the block. */
  lemma FileAround(p: string, base: string, front: seq<Entry>, key: int, back: seq<Entry>, block: string)
    ensures var m := Marks(p, key);
            FileText(p, base, front + [Entry(key, block)] + back)
              == (Join(ShapeLines(base) + EntryLines(p, front) + [m.begin], NL) + [NL]) + block
                 + ([NL] + Render([m.end] + EntryLines(p, back), EndsNL(base)))
  {
    hide Marks, ShapeLines, EndsNL, EntryLines, Join, Split, FileText;
    var m, t := Marks(p, key), EndsNL(base);
    var es := front + [Entry(key, block)] + back;
    var upper := ShapeLines(base) + EntryLines(p, front) + [m.begin];
    var lower := [m.end] + EntryLines(p, back);
    var inner := Split(block, NL);
    EntryLinesConcat(p, front + [Entry(key, block)], back);
    EntryLinesConcat(p, front, [Entry(key, block)]);
    OneEntry(p, Entry(key, block));
    assert ShapeLines(base) + EntryLines(p, es) == upper + (inner + lower);
    JoinConcat(upper, inner + lower, NL);
    JoinConcat(inner, lower, NL);
    JoinSplit(block, NL);
    FileTextIs(p, base, es);
    hide BlockLines;
    TextAround(Join(upper, NL), block, Join(lower, NL), if t then [NL] else "");
  }

  lemma TextAround(upper: string, block: string, lower: string, last: string)
    ensures upper + [NL] + (block + [NL] + lower) + last == (upper + [NL]) + block + ([NL] + (lower + last))
  {
  }

  lemma InkInside(a: string, s: string, b: string)
    requires HasInk(s)
    ensures HasInk(a + s + b)
  {
    var i :| 0 <= i < |s| && !IsSpace(s[i]);
    assert (a + s + b)[|a| + i] == s[i];
  }

  /** Between two inked stretches, a different middle gives a different trimmed text. */
  lemma TrimTellsApart(a: string, x: string, y: string, b: string)
    requires HasInk(a) && HasInk(b) && Trim(a + x + b) == Trim(a + y + b)
    ensures x == y
  {
    hide Trim;
    TrimInterior(a, x, b);
    TrimInterior(a, y, b);
    var l, r := TrimLeft(a), TrimRight(b);
    assert |x| == |y|;
    assert x == (l + x + r)[|l|..|l| + |x|];
    assert y == (l + y + r)[|l|..|l| + |y|];
  }

  lemma MarkInk(p: string, key: int)
    requires GoodPrefix(p)
    ensures HasInk(Marks(p, key).begin) && HasInk(Marks(p, key).end)
  {
    assert Marks(p, key).begin[0] == p[0] && Marks(p, key).end[0] == p[0];
  }

  lemma ReplaceFlag(p: string, base: string, front: seq<Entry>, e: Entry, back: seq<Entry>, block: string)
    requires GoodPrefix(p) && block != e.block
    ensures Trim(FileText(p, base, front + [e] + back)) != Trim(FileText(p, base, front + [Entry(e.key, block)] + back))
  {
    hide Trim, FileText, ShapeLines, EntryLines, EndsNL, Marks;
    var m := Marks(p, e.key);
    var upper := ShapeLines(base) + EntryLines(p, front);
    var lower := EntryLines(p, back);
    var a := Join(upper + [m.begin], NL) + [NL];
    var b := [NL] + Render([m.end] + lower, EndsNL(base));
    MarkInk(p, e.key);
    FileAround(p, base, front, e.key, back, e.block);
    FileAround(p, base, front, e.key, back, block);
    assert HasInk(a) by {
      JoinEndInk(upper, m.begin);
      InkInside("", Join(upper + [m.begin], NL), [NL]);
      assert "" + Join(upper + [m.begin], NL) == Join(upper + [m.begin], NL);
    }
    assert HasInk(b) by {
      JoinStartInk(m.end, lower, EndsNL(base));
      InkInside([NL], Render([m.end] + lower, EndsNL(base)), "");
    }
    if Trim(a + e.block + b) == Trim(a + block + b) {
      TrimTellsApart(a, e.block, block, b);
    }
  }

  lemma JoinEndInk(lines: seq<string>, last: string)
    requires HasInk(last)
    ensures HasInk(Join(lines + [last], NL))
  {
    if lines == [] {
      assert lines + [last] == [last];
    } else {
      JoinConcat(lines, [last], NL);
      InkInside(Join(lines, NL) + [NL], last, "");
    }
  }

  lemma JoinStartInk(first: string, lines: seq<string>, terminated: bool)
    requires HasInk(first)
    ensures HasInk(Render([first] + lines, terminated))
  {
    var end := if terminated then [NL] else "";
    if lines == [] {
      assert [first] + lines == [first];
      InkInside("", first, end);
      assert "" + first + end == first + end;
    } else {
      JoinConcat([first], lines, NL);
      var tail := [NL] + Join(lines, NL) + end;
      InkInside("", first, tail);
      assert "" + first + tail == Render([first] + lines, terminated);
    }
  }

  /** `changed` is reported exactly when the map, and so the text, changed. */
  lemma PutFlag(p: string, base: string, es: seq<Entry>, key: int, block: string)
    requires GoodPrefix(p) && Distinct(es)
    ensures Trim(FileText(p, base, es)) != Trim(FileText(p, base, Put(es, key, block))) <==> Put(es, key, block) != es
  {
    hide Trim, FileText, EntryLines;
    if HasKey(es, key) {
      var i :| 0 <= i < |es| && es[i].key == key;
      var front, e, back := es[..i], es[i], es[i + 1..];
      assert es == front + [e] + back;
      ReplaceAround(front, e, back, block);
      if block != e.block {
        ReplaceFlag(p, base, front, e, back, block);
        assert Put(es, key, block)[i] == Entry(key, block);
      } else {
        assert Put(es, key, block) == es;
      }
    } else {
      InkFile(p, base, es);
      InkFile(p, base, Put(es, key, block));
      EntryLinesConcat(p, es, [Entry(key, block)]);
      OneEntry(p, Entry(key, block));
      InkLinesConcat(EntryLines(p, es), BlockLines(Marks(p, key), block));
      InkBlock(p, key, block);
      InkTrim(FileText(p, base, es));
      InkTrim(FileText(p, base, Put(es, key, block)));
    }
  }

  lemma DropFlag(p: string, base: string, es: seq<Entry>, key: int)
    requires GoodPrefix(p)
    ensures Trim(FileText(p, base, es)) != Trim(FileText(p, base, Drop(es, key))) <==> Drop(es, key) != es
  {
    hide Trim, FileText, EntryLines;
    if HasKey(es, key) {
      InkFile(p, base, es);
      InkFile(p, base, Drop(es, key));
      InkDrop(p, es, key);
      InkTrim(FileText(p, base, es));
      InkTrim(FileText(p, base, Drop(es, key)));
    } else {
      DropAbsent(es, key);
    }
  }

  // ---------------------------------------------------------------- Runs

  datatype Op = Insert(key: int, block: string) | Remove(key: int, ignored: string)

  /** One call on the file: the result is written only when it is reported as changed. */
  function Step(p: string, text: string, op: Op): string
  {
    var edited := Edit(text, MarkersOf(MarkerText(p, op.key)), if op.Insert? then op.block else op.ignored, op.Insert?);
    if Trim(text) != Trim(edited) then edited else text
  }

  function Run(p: string, text: string, ops: seq<Op>): string
  {
    if ops == [] then text else Step(p, Run(p, text, ops[..|ops| - 1]), ops[|ops| - 1])
  }

  function StepMap(es: seq<Entry>, op: Op): seq<Entry>
  {
    match op
    case Insert(key, block) => Put(es, key, block)
    case Remove(key, _) => Drop(es, key)
  }

  function RunMap(ops: seq<Op>): seq<Entry>
  {
    if ops == [] then [] else StepMap(RunMap(ops[..|ops| - 1]), ops[|ops| - 1])
  }

  ghost predicate OpOk(p: string, op: Op)
  {
    op.Insert? ==> BlockOk(p, op.key, op.block)
  }

  lemma StepRefines(p: string, base: string, es: seq<Entry>, op: Op)
    requires GoodPrefix(p) && Unmanaged(p, base) && Ok(p, es) && OpOk(p, op)
    ensures Ok(p, StepMap(es, op))
    ensures Step(p, FileText(p, base, es), op) == FileText(p, base, StepMap(es, op))
    ensures Step(p, FileText(p, base, es), op) != FileText(p, base, es) <==> StepMap(es, op) != es
  {
    hide Trim, FileText, Edit, Marks, MarkerText, MarkersOf, Put, Drop;
    MarkerTextMarks(p, op.key);
    match op {
      case Insert(key, block) =>
        PutOk(p, es, key, block);
        PutRefines(p, base, es, key, block);
        PutFlag(p, base, es, key, block);
      case Remove(key, ignored) =>
        DropOk(p, es, key);
        DropRefines(p, base, es, key, ignored);
        DropFlag(p, base, es, key);
    }
  }

  /** After any run from a file with no managed marker, the file is its starting
      text followed by one block per live range, in the order they were inserted. */
  lemma {:induction false} RunRefines(p: string, base: string, ops: seq<Op>)
    requires GoodPrefix(p) && Unmanaged(p, base)
    requires forall i :: 0 <= i < |ops| ==> OpOk(p, ops[i])
    ensures Ok(p, RunMap(ops))
    ensures Run(p, base, ops) == FileText(p, base, RunMap(ops))
  {
    if ops == [] {
      ShapeOf(base);
      assert ShapeLines(base) + [] == ShapeLines(base);
    } else {
      RunRefines(p, base, ops[..|ops| - 1]);
      StepRefines(p, base, RunMap(ops[..|ops| - 1]), ops[|ops| - 1]);
    }
  }
}

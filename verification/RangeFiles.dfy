/** A file edited through managed blocks is an ordered map from range number to
    block, written after the text the file started with. Stated for any family
    of markers "<prefix><number> BEGIN" / "<prefix><number> END". */
module RangeFiles {
  import opened Text
  import opened BlockEditor
  import opened BlockLaws

  // ---------------------------------------------------------------- The marker family

  ghost predicate GoodPrefix(p: string)
  {
    p != "" && !IsSpace(p[0]) && NL !in p && '{' !in p
  }

  function MarkerText(p: string, key: int): string
  {
    p + IntText(key) + " {mark}"
  }

  function Marks(p: string, key: int): Markers
  {
    Markers(p + IntText(key) + " BEGIN", p + IntText(key) + " END")
  }

  lemma MarkerTextMarks(p: string, key: int)
    requires GoodPrefix(p)
    ensures MarkersOf(MarkerText(p, key)) == Marks(p, key)
  {
    var front := p + IntText(key) + " ";
    assert MarkerText(p, key) == front + "{mark}";
    ReplaceFirstAtEnd(front, "{mark}", "BEGIN");
    ReplaceFirstAtEnd(front, "{mark}", "END");
    assert front + "BEGIN" == p + IntText(key) + " BEGIN";
    assert front + "END" == p + IntText(key) + " END";
  }

  lemma MarksProper(p: string, key: int)
    requires GoodPrefix(p)
    ensures Proper(Marks(p, key))
  {
    var m := Marks(p, key);
    assert m.begin[|m.begin| - 1] == 'N' && m.end[|m.end| - 1] == 'D';
    assert m.begin[0] == p[0] && m.end[0] == p[0];
    assert NL !in IntText(key) && NL !in " BEGIN" && NL !in " END";
  }

  /** Different numbers have different begin markers, and no begin marker is an end marker. */
  lemma MarksDistinct(p: string, i: int, j: int)
    ensures Marks(p, i).begin == Marks(p, j).begin ==> i == j
    ensures Marks(p, i).begin != Marks(p, j).end
  {
    var a, b := Marks(p, i), Marks(p, j);
    assert a.begin[|a.begin| - 1] == 'N' && b.end[|b.end| - 1] == 'D';
    if a.begin == b.begin {
      assert a.begin[|p|..|a.begin| - 6] == IntText(i);
      assert b.begin[|p|..|b.begin| - 6] == IntText(j);
      IntTextInjective(i, j);
    }
  }

  // ---------------------------------------------------------------- The ordered map

  datatype Entry = Entry(key: int, block: string)

  predicate HasKey(es: seq<Entry>, key: int)
  {
    exists i :: 0 <= i < |es| && es[i].key == key
  }

  function Replace(es: seq<Entry>, key: int, block: string): seq<Entry>
  {
    if es == [] then []
    else [if es[0].key == key then Entry(key, block) else es[0]] + Replace(es[1..], key, block)
  }

  function Put(es: seq<Entry>, key: int, block: string): seq<Entry>
  {
    if HasKey(es, key) then Replace(es, key, block) else es + [Entry(key, block)]
  }

  function Drop(es: seq<Entry>, key: int): seq<Entry>
  {
    if es == [] then []
    else (if es[0].key == key then [] else [es[0]]) + Drop(es[1..], key)
  }

  ghost predicate Distinct(es: seq<Entry>)
  {
    forall i, j :: 0 <= i < j < |es| ==> es[i].key != es[j].key
  }

  /** A block the editor can find again: it holds no begin marker of any range
      and not its own end marker. */
  ghost predicate BlockOk(p: string, key: int, block: string)
  {
    Closed(block, Marks(p, key)) && forall i: int :: NoBegin(Split(block, NL), Marks(p, i))
  }

  ghost predicate Ok(p: string, es: seq<Entry>)
  {
    Distinct(es) && forall i :: 0 <= i < |es| ==> BlockOk(p, es[i].key, es[i].block)
  }

  lemma {:induction false} ReplaceKeys(es: seq<Entry>, key: int, block: string)
    ensures |Replace(es, key, block)| == |es|
    ensures forall i :: 0 <= i < |es| ==>
      Replace(es, key, block)[i] == if es[i].key == key then Entry(key, block) else es[i]
  {
    if es != [] {
      ReplaceKeys(es[1..], key, block);
    }
  }

  lemma {:induction false} DropKeys(es: seq<Entry>, key: int)
    requires Distinct(es)
    ensures Distinct(Drop(es, key)) && !HasKey(Drop(es, key), key)
    ensures forall e :: e in Drop(es, key) <==> e in es && e.key != key
  {
    if es != [] {
      DropKeys(es[1..], key);
      var rest := Drop(es[1..], key);
      assert forall i :: 0 <= i < |rest| ==> rest[i] in es[1..];
      assert forall e :: e in es <==> e == es[0] || e in es[1..];
    }
  }

  lemma PutOk(p: string, es: seq<Entry>, key: int, block: string)
    requires Ok(p, es) && BlockOk(p, key, block)
    ensures Ok(p, Put(es, key, block))
  {
    ReplaceKeys(es, key, block);
  }

  lemma DropOk(p: string, es: seq<Entry>, key: int)
    requires Ok(p, es)
    ensures Ok(p, Drop(es, key))
  {
    DropKeys(es, key);
    var out := Drop(es, key);
    forall i | 0 <= i < |out| ensures BlockOk(p, out[i].key, out[i].block) {
      assert out[i] in es;
    }
  }

  // ---------------------------------------------------------------- The file it stands for

  function EntryLines(p: string, es: seq<Entry>): seq<string>
  {
    if es == [] then [] else BlockLines(Marks(p, es[0].key), es[0].block) + EntryLines(p, es[1..])
  }

  /** The starting text followed by one block for every live range. */
  function FileText(p: string, base: string, es: seq<Entry>): string
  {
    Render(ShapeLines(base) + EntryLines(p, es), EndsNL(base))
  }

  ghost predicate Unmanaged(p: string, base: string)
  {
    forall key: int :: NoBegin(Split(base, NL), Marks(p, key))
  }

  lemma {:induction false} EntryLinesConcat(p: string, xs: seq<Entry>, ys: seq<Entry>)
    ensures EntryLines(p, xs + ys) == EntryLines(p, xs) + EntryLines(p, ys)
  {
    hide BlockLines, Marks;
    if xs == [] {
      assert xs + ys == ys;
    } else {
      EntryLinesConcat(p, xs[1..], ys);
      assert (xs + ys)[1..] == xs[1..] + ys;
      ConcatAssociative(BlockLines(Marks(p, xs[0].key), xs[0].block), EntryLines(p, xs[1..]), EntryLines(p, ys));
    }
  }

  lemma {:induction false} EntryLinesShape(p: string, es: seq<Entry>)
    requires GoodPrefix(p)
    ensures Plain(EntryLines(p, es))
    ensures es != [] ==> EntryLines(p, es) != [] && EntryLines(p, es)[|EntryLines(p, es)| - 1] != ""
  {
    if es != [] {
      EntryLinesShape(p, es[1..]);
      MarksProper(p, es[0].key);
      BlockLinesFlat(Marks(p, es[0].key), es[0].block);
    }
  }

  lemma FileShape(p: string, base: string, es: seq<Entry>)
    requires GoodPrefix(p)
    ensures Shaped(ShapeLines(base) + EntryLines(p, es), EndsNL(base))
  {
    ShapeOf(base);
    EntryLinesShape(p, es);
  }

  lemma BaseUnmanaged(p: string, base: string, key: int)
    requires Unmanaged(p, base)
    ensures NoBegin(ShapeLines(base), Marks(p, key))
  {
    var lines := ShapeLines(base);
    ShapeOf(base);
    assert NoBegin(Split(base, NL), Marks(p, key));
    if base != "" {
      SplitRender(lines, EndsNL(base));
      assert forall i :: 0 <= i < |lines| ==> Split(base, NL)[i] == lines[i];
    }
  }

  lemma OtherBlock(p: string, e: Entry, key: int)
    requires GoodPrefix(p) && BlockOk(p, e.key, e.block) && e.key != key
    ensures NoBegin(BlockLines(Marks(p, e.key), e.block), Marks(p, key))
  {
    MarksProper(p, e.key);
    SolidIsTrimmed(Marks(p, e.key).begin);
    SolidIsTrimmed(Marks(p, e.key).end);
    MarksDistinct(p, key, e.key);
    assert NoBegin(Split(e.block, NL), Marks(p, key));
  }

  /** What an edit for one range does to the lines of all live ranges. */
  function Subst(p: string, es: seq<Entry>, key: int, repl: seq<string>): seq<string>
  {
    if es == [] then []
    else
      (if es[0].key == key then repl else BlockLines(Marks(p, es[0].key), es[0].block))
      + Subst(p, es[1..], key, repl)
  }

  lemma ScanNothing(m: Markers, repl: seq<string>)
    ensures Scan([], m, repl) == []
  {
  }

  lemma {:induction false} ScanEntries(p: string, es: seq<Entry>, key: int, repl: seq<string>, rest: seq<string>)
    requires GoodPrefix(p)
    requires forall i :: 0 <= i < |es| ==> BlockOk(p, es[i].key, es[i].block)
    requires NoBegin(rest, Marks(p, key))
    ensures Scan(EntryLines(p, es) + rest, Marks(p, key), repl) == Subst(p, es, key, repl) + rest
  {
    hide BlockLines, Marks, Scan, Trim;
    var m := Marks(p, key);
    if es == [] {
      ScanNoBegin(rest, [], m, repl);
      ScanNothing(m, repl);
      assert EntryLines(p, es) + rest == rest + [] == Subst(p, es, key, repl) + rest;
    } else {
      ScanEntries(p, es[1..], key, repl, rest);
      var mine := BlockLines(Marks(p, es[0].key), es[0].block);
      var mapped := if es[0].key == key then repl else mine;
      var later := EntryLines(p, es[1..]) + rest;
      assert Scan(mine + later, m, repl) == mapped + Scan(later, m, repl) by {
        if es[0].key == key {
          MarksProper(p, key);
          ScanBlock(m, es[0].block, later, repl);
        } else {
          OtherBlock(p, es[0], key);
          ScanNoBegin(mine, later, m, repl);
        }
      }
      calc {
        Scan(EntryLines(p, es) + rest, m, repl);
      == { assert EntryLines(p, es) + rest == mine + later; }
        Scan(mine + later, m, repl);
        mapped + (Subst(p, es[1..], key, repl) + rest);
        (mapped + Subst(p, es[1..], key, repl)) + rest;
      }
    }
  }

  lemma {:induction false} SubstReplace(p: string, es: seq<Entry>, key: int, block: string)
    ensures Subst(p, es, key, BlockLines(Marks(p, key), block)) == EntryLines(p, Replace(es, key, block))
  {
    if es != [] {
      SubstReplace(p, es[1..], key, block);
      assert Replace(es, key, block)[1..] == Replace(es[1..], key, block);
    }
  }

  lemma {:induction false} SubstDrop(p: string, es: seq<Entry>, key: int)
    ensures Subst(p, es, key, []) == EntryLines(p, Drop(es, key))
  {
    if es != [] {
      SubstDrop(p, es[1..], key);
      EntryLinesConcat(p, if es[0].key == key then [] else [es[0]], Drop(es[1..], key));
    }
  }

  lemma {:induction false} FindEntry(p: string, es: seq<Entry>, key: int)
    requires GoodPrefix(p)
    requires forall i :: 0 <= i < |es| ==> BlockOk(p, es[i].key, es[i].block)
    ensures HasKey(es, key) <==> Found(EntryLines(p, es), Marks(p, key))
  {
    var m := Marks(p, key);
    if es != [] {
      FindEntry(p, es[1..], key);
      var mine, later := BlockLines(Marks(p, es[0].key), es[0].block), EntryLines(p, es[1..]);
      var all := EntryLines(p, es);
      assert forall i :: 0 <= i < |later| ==> all[|mine| + i] == later[i];
      if es[0].key == key {
        MarksProper(p, key);
        SolidIsTrimmed(m.begin);
        assert all[0] == m.begin;
      } else {
        OtherBlock(p, es[0], key);
        assert forall i :: 0 <= i < |mine| ==> all[i] == mine[i];
        assert HasKey(es, key) <==> HasKey(es[1..], key) by {
          assert forall i :: 0 <= i < |es| - 1 ==> es[1..][i] == es[i + 1];
        }
        assert Found(later, m) ==> Found(all, m);
        if Found(all, m) {
          var i :| 0 <= i < |all| && Trim(all[i]) == m.begin;
          assert i >= |mine|;
          assert later[i - |mine|] == all[i];
        }
      }
    }
  }

  // ---------------------------------------------------------------- One edit is one map update

  /** Everything before, between and after the blocks stays as it was. */
  lemma EditExisting(p: string, base: string, es: seq<Entry>, key: int, block: string, present: bool)
    requires GoodPrefix(p) && Unmanaged(p, base) && Ok(p, es) && HasKey(es, key)
    ensures Edit(FileText(p, base, es), Marks(p, key), block, present)
         == FileText(p, base, if present then Replace(es, key, block) else Drop(es, key))
  {
    hide Marks, Scan, Trim, FileText, Replace, Drop, EntryLines, BlockLines, Subst, ShapeLines, EndsNL, Edit, Render;
    var m, lines, t := Marks(p, key), ShapeLines(base), EndsNL(base);
    var es' := if present then Replace(es, key, block) else Drop(es, key);
    var repl := if present then BlockLines(m, block) else [];
    SubstReplace(p, es, key, block);
    SubstDrop(p, es, key);
    ScanFile(p, base, es, key, repl);
    assert Found(lines + EntryLines(p, es), m) by {
      FindEntry(p, es, key);
      FoundAfter(lines, EntryLines(p, es), m);
    }
    MarksProper(p, key);
    FileShape(p, base, es);
    FileShape(p, base, es');
    var j :| 0 <= j < |lines + EntryLines(p, es)| && Trim((lines + EntryLines(p, es))[j]) == m.begin;
    EditShaped(lines + EntryLines(p, es), lines + EntryLines(p, es'), t, m, block, present);
    FileTextIs(p, base, es);
    FileTextIs(p, base, es');
  }

  lemma ScanFile(p: string, base: string, es: seq<Entry>, key: int, repl: seq<string>)
    requires GoodPrefix(p) && Unmanaged(p, base) && Ok(p, es)
    ensures var tail := Tail(EndsNL(base));
            Scan(ShapeLines(base) + EntryLines(p, es) + tail, Marks(p, key), repl)
              == ShapeLines(base) + Subst(p, es, key, repl) + tail
  {
    hide Marks, Scan, Trim, EntryLines, BlockLines, Subst, ShapeLines;
    var m, lines, tail := Marks(p, key), ShapeLines(base), Tail(EndsNL(base));
    MarksProper(p, key);
    BaseUnmanaged(p, base, key);
    BlankIsNoMarker(m);
    calc {
      Scan(lines + EntryLines(p, es) + tail, m, repl);
    == { assert lines + EntryLines(p, es) + tail == lines + (EntryLines(p, es) + tail); }
      Scan(lines + (EntryLines(p, es) + tail), m, repl);
    == { ScanNoBegin(lines, EntryLines(p, es) + tail, m, repl); }
      lines + Scan(EntryLines(p, es) + tail, m, repl);
    == { ScanEntries(p, es, key, repl, tail); }
      lines + (Subst(p, es, key, repl) + tail);
      lines + Subst(p, es, key, repl) + tail;
    }
  }

  lemma FileTextIs(p: string, base: string, es: seq<Entry>)
    ensures FileText(p, base, es) == Render(ShapeLines(base) + EntryLines(p, es), EndsNL(base))
  {
  }

  lemma BlankIsNoMarker(m: Markers)
    requires Proper(m)
    ensures NoBegin([], m) && NoBegin([""], m)
  {
  }

  lemma FoundAfter(lines: seq<string>, more: seq<string>, m: Markers)
    ensures Found(more, m) ==> Found(lines + more, m)
    ensures NoBegin(lines, m) && !Found(more, m) ==> NoBegin(lines + more, m)
  {
    if i :| 0 <= i < |more| && Trim(more[i]) == m.begin {
      assert (lines + more)[|lines| + i] == more[i];
    }
  }

  lemma OneEntry(p: string, e: Entry)
    ensures EntryLines(p, [e]) == BlockLines(Marks(p, e.key), e.block)
  {
    hide Marks, BlockLines;
    assert EntryLines(p, []) == [];
  }

  lemma PutRefines(p: string, base: string, es: seq<Entry>, key: int, block: string)
    requires GoodPrefix(p) && Unmanaged(p, base) && Ok(p, es) && BlockOk(p, key, block)
    ensures Edit(FileText(p, base, es), Marks(p, key), block, true) == FileText(p, base, Put(es, key, block))
  {
    if HasKey(es, key) {
      EditExisting(p, base, es, key, block, true);
    } else {
      AppendRefines(p, base, es, key, block);
    }
  }

  lemma AppendRefines(p: string, base: string, es: seq<Entry>, key: int, block: string)
    requires GoodPrefix(p) && Unmanaged(p, base) && Ok(p, es) && !HasKey(es, key)
    ensures Edit(FileText(p, base, es), Marks(p, key), block, true) == FileText(p, base, es + [Entry(key, block)])
  {
    hide Marks, Scan, Trim, BlockLines, ShapeLines, EndsNL, Edit, Render, EntryLines, HasKey, FileText;
    var m, lines, mine := Marks(p, key), ShapeLines(base), EntryLines(p, es);
    MarksProper(p, key);
    assert NoBegin(lines + mine, m) by {
      BaseUnmanaged(p, base, key);
      FindEntry(p, es, key);
      FoundAfter(lines, mine, m);
    }
    FileShape(p, base, es);
    InsertShaped(lines + mine, EndsNL(base), m, block);
    EntryLinesConcat(p, es, [Entry(key, block)]);
    OneEntry(p, Entry(key, block));
    assert lines + mine + BlockLines(m, block) == lines + (mine + BlockLines(m, block));
    FileTextIs(p, base, es);
    FileTextIs(p, base, es + [Entry(key, block)]);
  }

  lemma DropRefines(p: string, base: string, es: seq<Entry>, key: int, ignored: string)
    requires GoodPrefix(p) && Unmanaged(p, base) && Ok(p, es)
    ensures Edit(FileText(p, base, es), Marks(p, key), ignored, false) == FileText(p, base, Drop(es, key))
  {
    if HasKey(es, key) {
      EditExisting(p, base, es, key, ignored, false);
    } else {
      var m := Marks(p, key);
      var text := FileText(p, base, es);
      MarksProper(p, key);
      BaseUnmanaged(p, base, key);
      FileShape(p, base, es);
      FindEntry(p, es, key);
      FoundAfter(ShapeLines(base), EntryLines(p, es), m);
      DropAbsent(es, key);
      EditFlat(text, m, ignored, false);
      RenderEnds(ShapeLines(base) + EntryLines(p, es), EndsNL(base));
      if text != "" {
        SplitRender(ShapeLines(base) + EntryLines(p, es), EndsNL(base));
      } else {
        assert Split(text, NL) == [""];
      }
      BlankIsNoMarker(m);
      assert NoBegin(Split(text, NL), m);
      JoinSplit(text, NL);
    }
  }

  lemma {:induction false} DropAbsent(es: seq<Entry>, key: int)
    requires !HasKey(es, key)
    ensures Drop(es, key) == es
  {
    if es != [] {
      assert forall i :: 0 <= i < |es| - 1 ==> es[1..][i] == es[i + 1];
      DropAbsent(es[1..], key);
    }
  }

  /** An edit for one range leaves every other range's block, and their order, alone. */
  lemma OthersUntouched(es: seq<Entry>, key: int, block: string)
    ensures Drop(Put(es, key, block), key) == Drop(es, key)
    ensures Drop(Drop(es, key), key) == Drop(es, key)
  {
    DropReplaced(es, key, block);
    DropAppended(es, key, block);
    DropDropped(es, key);
  }

  lemma {:induction false} DropReplaced(es: seq<Entry>, key: int, block: string)
    ensures Drop(Replace(es, key, block), key) == Drop(es, key)
  {
    if es != [] {
      DropReplaced(es[1..], key, block);
    }
  }

  lemma {:induction false} DropAppended(es: seq<Entry>, key: int, block: string)
    ensures Drop(es + [Entry(key, block)], key) == Drop(es, key)
  {
    if es == [] {
      assert es + [Entry(key, block)] == [Entry(key, block)];
    } else {
      DropAppended(es[1..], key, block);
      assert (es + [Entry(key, block)])[1..] == es[1..] + [Entry(key, block)];
    }
  }

  lemma {:induction false} DropDropped(es: seq<Entry>, key: int)
    ensures Drop(Drop(es, key), key) == Drop(es, key)
  {
    if es != [] {
      DropDropped(es[1..], key);
      if es[0].key != key {
        assert Drop(es, key)[0] == es[0];
        assert ([es[0]] + Drop(es[1..], key))[1..] == Drop(es[1..], key);
      } else {
        assert Drop(es, key) == Drop(es[1..], key);
      }
    }
  }
}

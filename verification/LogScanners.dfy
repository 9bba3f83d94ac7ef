/** The two single-pass scanners of an Ansible log: getFatalErrorsFromLog
    (ludus-api/ansible.go) and getFatalErrorsFromString (ludus-api/notifications.go). */
module LogScanners {
  import opened Text

  const NEWLINE := '\n'

  predicate Fatal(line: string)
  {
    "fatal:" <= line || "failed:" <= line || "ERROR! " <= line
  }

  predicate Ignoring(line: string)
  {
    HasSuffix(line, "...ignoring")
  }

  function DropCR(line: string): string
  {
    if line != "" && line[|line| - 1] == '\r' then line[..|line| - 1] else line
  }

  function DropCRs(lines: seq<string>): (r: seq<string>)
    ensures |r| == |lines|
  {
    if lines == [] then [] else [DropCR(lines[0])] + DropCRs(lines[1..])
  }

  /** The lines a bufio.Scanner yields: an empty piece at the end is no line. */
  function Lines(input: string): seq<string>
  {
    var parts := Split(input, NEWLINE);
    DropCRs(if parts[|parts| - 1] == "" then parts[..|parts| - 1] else parts)
  }

  /** A text of lines, each ended by a newline or by a carriage return and a newline. */
  function Written(lines: seq<string>, crs: seq<bool>): string
    requires |lines| == |crs|
  {
    if lines == [] then ""
    else lines[0] + (if crs[0] then "\r" else "") + [NEWLINE] + Written(lines[1..], crs[1..])
  }

  predicate OneLine(line: string)
  {
    NEWLINE !in line && (line == "" || line[|line| - 1] != '\r')
  }

  lemma {:induction false} PiecesOf(lines: seq<string>, crs: seq<bool>, tail: string)
    requires |lines| == |crs| && NEWLINE !in tail && forall i :: 0 <= i < |lines| ==> OneLine(lines[i])
    ensures var parts := Split(Written(lines, crs) + tail, NEWLINE);
            |parts| == |lines| + 1 && parts[|lines|] == tail && DropCRs(parts[..|lines|]) == lines
  {
    if lines == [] {
      SplitPlain(tail, NEWLINE);
      assert Written(lines, crs) + tail == tail;
    } else {
      PiecesOf(lines[1..], crs[1..], tail);
      var piece, rest := lines[0] + (if crs[0] then "\r" else ""), Written(lines[1..], crs[1..]) + tail;
      assert Written(lines, crs) + tail == piece + [NEWLINE] + rest;
      hide Written, Split;
      SplitPlainThen(piece, NEWLINE, rest);
      var parts := Split(rest, NEWLINE);
      assert ([piece] + parts)[..|lines|] == [piece] + parts[..|lines| - 1];
      assert DropCR(piece) == lines[0] by {
        if crs[0] {
          assert piece[..|piece| - 1] == lines[0];
        }
      }
      assert ([piece] + parts[..|lines| - 1])[1..] == parts[..|lines| - 1];
    }
  }

  /** The scanner yields the lines of a text, whichever way each is ended, and what
      stands after the last newline if that is not empty. */
  lemma LinesOf(lines: seq<string>, crs: seq<bool>, tail: string)
    requires |lines| == |crs| && OneLine(tail) && forall i :: 0 <= i < |lines| ==> OneLine(lines[i])
    ensures Lines(Written(lines, crs) + tail) == lines + (if tail == "" then [] else [tail])
  {
    PiecesOf(lines, crs, tail);
    hide Written, Split, OneLine;
    var parts := Split(Written(lines, crs) + tail, NEWLINE);
    if tail != "" {
      assert parts == parts[..|lines|] + [tail];
      DropConcat(parts[..|lines|], [tail]);
      DropNothing(tail);
    }
  }

  lemma DropNothing(tail: string)
    requires OneLine(tail)
    ensures DropCRs([tail]) == [tail]
  {
  }

  lemma {:induction false} DropConcat(a: seq<string>, b: seq<string>)
    ensures DropCRs(a + b) == DropCRs(a) + DropCRs(b)
  {
    hide DropCR;
    assert DropCRs([]) == [];
    if a == [] {
      assert a + b == b;
    } else {
      DropConcat(a[1..], b);
      assert (a + b)[1..] == a[1..] + b && (a + b)[0] == a[0];
      assert DropCRs(a + b) == [DropCR(a[0])] + (DropCRs(a[1..]) + DropCRs(b));
    }
  }

  function Report(line: string): seq<string>
  {
    if Fatal(line) then [line] else []
  }

  // ---------------------------------------------------------------- getFatalErrorsFromLog

  /** What is still to be reported when `previous` is remembered and `lines` are to come. */
  function Plain(previous: string, lines: seq<string>): seq<string>
    decreases |lines|
  {
    if lines == [] then Report(previous)
    else if Ignoring(lines[0]) && Fatal(previous) then Plain("", lines[1..])
    else Report(previous) + Plain(lines[0], lines[1..])
  }

  method GetFatalErrorsFromLog(input: string) returns (fatalErrors: seq<string>)
    ensures fatalErrors == Plain("", Lines(input))
  {
    hide Fatal, Ignoring, Lines;
    var lines := Lines(input);
    fatalErrors := [];
    var previousLine := "";
    for i := 0 to |lines|
      invariant fatalErrors + Plain(previousLine, lines[i..]) == Plain("", lines)
    {
      var currentLine := lines[i];
      assert lines[i..][1..] == lines[i + 1..] && lines[i..][0] == currentLine;
      if Ignoring(currentLine) && Fatal(previousLine) {
        previousLine := "";
        continue;
      }
      if Fatal(previousLine) {
        fatalErrors := fatalErrors + [previousLine];
      }
      previousLine := currentLine;
    }
    if Fatal(previousLine) {
      fatalErrors := fatalErrors + [previousLine];
    }
  }

  /** Line i was taken as the "...ignoring" line of the one before it. */
  predicate Consumed(lines: seq<string>, i: nat)
    requires i < |lines|
  {
    i > 0 && Ignoring(lines[i]) && Fatal(lines[i - 1]) && !Consumed(lines, i - 1)
  }

  predicate Followed(lines: seq<string>, i: int)
  {
    0 <= i && i + 1 < |lines| && Ignoring(lines[i + 1])
  }

  /** The fatal lines that no "...ignoring" line follows. */
  function Unignored(lines: seq<string>): set<int>
  {
    set i | 0 <= i < |lines| && Fatal(lines[i]) && !Followed(lines, i)
  }

  function Reported(lines: seq<string>): set<int>
  {
    set i | 0 <= i < |lines| && Fatal(lines[i]) && !Followed(lines, i) && !Consumed(lines, i)
  }

  /** The chosen lines from position k on, in order. */
  function Pick(lines: seq<string>, chosen: set<int>, k: nat): seq<string>
    requires k <= |lines|
    decreases |lines| - k
  {
    if k == |lines| then [] else (if k in chosen then [lines[k]] else []) + Pick(lines, chosen, k + 1)
  }

  lemma {:induction false} PlainPicksFrom(lines: seq<string>, k: nat)
    requires 0 < k <= |lines|
    ensures Plain(if Consumed(lines, k - 1) then "" else lines[k - 1], lines[k..])
      == Pick(lines, Reported(lines), k - 1)
    decreases |lines| - k
  {
    hide Ignoring, Fatal;
    NotFatalEmpty();
    assert Pick(lines, Reported(lines), |lines|) == [];
    if k < |lines| {
      PlainPicksFrom(lines, k + 1);
      assert lines[k..][1..] == lines[k + 1..] && lines[k..][0] == lines[k];
    }
  }

  /** Which lines count: the word must start the line for a failure, and end it for a pardon. */
  lemma SampleLog()
    ensures Plain("",
                  ["fatal: a", "failed: b", "c ...ignoring", "ERROR! d", " fatal: e", "ERROR: f", "failed: g",
                   "...ignoring "])
         == ["fatal: a", "ERROR! d", "failed: g"]
  {
    SampleFailures();
    SamplePardons();
    var log :=
      ["fatal: a", "failed: b", "c ...ignoring", "ERROR! d", " fatal: e", "ERROR: f", "failed: g", "...ignoring "];
    hide Fatal, Ignoring;
    NextPlain("", log);
    NextPlain(log[0], log[1..]);
    NextPlain(log[1], log[2..]);
    NextPlain("", log[3..]);
    NextPlain(log[3], log[4..]);
    NextPlain(log[4], log[5..]);
    NextPlain(log[5], log[6..]);
    NextPlain(log[6], log[7..]);
    assert Plain(log[7], log[8..]) == [];
  }

  lemma NextPlain(previous: string, lines: seq<string>)
    requires lines != []
    ensures Plain(previous, lines) == if Ignoring(lines[0]) && Fatal(previous) then Plain("", lines[1..])
      else Report(previous) + Plain(lines[0], lines[1..])
  {
  }

  lemma SampleFailures()
    ensures Fatal("fatal:") && Fatal("failed:") && Fatal("ERROR! ")
    ensures Fatal("fatal: a") && Fatal("failed: b") && Fatal("ERROR! d") && Fatal("failed: g")
    ensures !Fatal("") && !Fatal("c ...ignoring") && !Fatal(" fatal: e") && !Fatal("ERROR: f") && !Fatal("...ignoring ")
  {
    OtherStart("c ...ignoring");
    OtherStart(" fatal: e");
    OtherStart("...ignoring ");
    assert "ERROR: f"[5] == ':' && "ERROR! "[5] == '!' && "fatal:"[0] == 'f' && "failed:"[0] == 'f';
  }

  lemma OtherStart(line: string)
    requires line != "" && line[0] != 'f' && line[0] != 'E'
    ensures !Fatal(line)
  {
    assert "fatal:"[0] == 'f' && "failed:"[0] == 'f' && "ERROR! "[0] == 'E';
  }

  lemma TooShort(line: string)
    requires |line| < 11
    ensures !Ignoring(line)
  {
    assert |"...ignoring"| == 11;
  }

  lemma SamplePardons()
    ensures Ignoring("c ...ignoring") && !Ignoring("fatal: a") && !Ignoring("failed: b") && !Ignoring("ERROR! d")
    ensures !Ignoring(" fatal: e") && !Ignoring("ERROR: f") && !Ignoring("failed: g") && !Ignoring("...ignoring ")
  {
    TooShort(" fatal: e");
    TooShort("ERROR: f");
    TooShort("failed: g");
    var late := "...ignoring ";
    assert late[1..][0] == '.' && late[1..][10] == ' ' && "...ignoring"[10] == 'g';
  }

  lemma NotFatalEmpty()
    ensures !Fatal("") && !Ignoring("")
  {
  }

  lemma PlainPicks(lines: seq<string>)
    ensures Plain("", lines) == Pick(lines, Reported(lines), 0)
  {
    hide Ignoring, Fatal;
    NotFatalEmpty();
    if lines != [] {
      PlainPicksFrom(lines, 1);
    }
  }

  lemma {:induction false} PickSmaller(lines: seq<string>, a: set<int>, b: set<int>, k: nat)
    requires k <= |lines| && a <= b
    ensures |Pick(lines, a, k)| <= |Pick(lines, b, k)|
    ensures Pick(lines, a, k) == Pick(lines, b, k) <==> forall i :: k <= i < |lines| && i in b ==> i in a
    decreases |lines| - k
  {
    if k < |lines| {
      PickSmaller(lines, a, b, k + 1);
      if k in a {
        CancelPrefix([lines[k]], Pick(lines, a, k + 1), Pick(lines, b, k + 1));
      } else if k in b {
        assert |Pick(lines, a, k)| < |Pick(lines, b, k)|;
      } else {
        assert [] + Pick(lines, a, k + 1) == Pick(lines, a, k + 1);
      }
    }
  }

  ghost predicate NoneBoth(lines: seq<string>)
  {
    forall line :: line in lines ==> !(Fatal(line) && Ignoring(line))
  }

  /** The scanner returns exactly the fatal lines that no ignoring line follows,
      in order, if and only if no such line was itself taken as an ignoring line. */
  lemma LogScannerExactIff(lines: seq<string>)
    ensures Plain("", lines) == Pick(lines, Unignored(lines), 0)
      <==> forall i :: 0 <= i < |lines| && Fatal(lines[i]) && Consumed(lines, i) ==> Followed(lines, i)
  {
    hide Ignoring, Fatal;
    PlainPicks(lines);
    PickSmaller(lines, Reported(lines), Unignored(lines), 0);
    assert forall i :: 0 <= i < |lines| ==>
      ((i in Unignored(lines) && i !in Reported(lines)) <==>
        (Fatal(lines[i]) && !Followed(lines, i) && Consumed(lines, i)));
  }

  lemma LogScannerExact(lines: seq<string>)
    requires NoneBoth(lines)
    ensures Plain("", lines) == Pick(lines, Unignored(lines), 0)
  {
    hide Ignoring, Fatal;
    LogScannerExactIff(lines);
  }

  // ---------------------------------------------------------------- getFatalErrorsFromString

  const PROMOTION_FAILED :=
    "Unhandled exception while executing module: Verification of prerequisites for Domain Controller promotion failed. "
    + "Role change is in progress or this computer needs to be restarted"
  const PROMOTION_TASK := "TASK [Promote this server to Additional DC 2]"

  predicate Known(line: string, threeLinesAgo: string)
  {
    Contains(line, PROMOTION_FAILED) && Contains(threeLinesAgo, PROMOTION_TASK)
  }

  function FormatError(line: string): string
  {
    ReplaceAll(ReplaceAll(line, "\\r\\n", "\n"), "\\n", "\n")
  }

  /** Pieces of a line with an escaped newline between each two, with or without an escaped return. */
  function Escaped(pieces: seq<string>, crs: seq<bool>): string
    requires |pieces| == |crs| + 1
  {
    if crs == [] then pieces[0]
    else pieces[0] + (if crs[0] then "\\r\\n" else "\\n") + Escaped(pieces[1..], crs[1..])
  }

  /** Formatting turns the escaped newlines into real ones and leaves the rest alone. */
  lemma {:induction false} FormatsTo(pieces: seq<string>, crs: seq<bool>)
    requires |pieces| == |crs| + 1 && forall i :: 0 <= i < |pieces| ==> '\\' !in pieces[i]
    ensures FormatError(Escaped(pieces, crs)) == Join(pieces, NEWLINE)
  {
    ReturnsReplaced(pieces, crs);
    NewlinesReplaced(pieces, crs);
  }

  /** What is left after the first replacement. */
  function HalfDone(pieces: seq<string>, crs: seq<bool>): string
    requires |pieces| == |crs| + 1
  {
    if crs == [] then pieces[0]
    else pieces[0] + (if crs[0] then "\n" else "\\n") + HalfDone(pieces[1..], crs[1..])
  }

  const RETURN := "\\r\\n"
  const ESCAPE := "\\n"

  lemma OverReturn(piece: string, rest: string)
    requires '\\' !in piece
    ensures ReplaceAll(piece + RETURN + rest, RETURN, "\n") == piece + "\n" + ReplaceAll(rest, RETURN, "\n")
  {
    ReplacePast(piece, RETURN + rest, RETURN, "\n");
    assert piece + RETURN + rest == piece + (RETURN + rest);
    assert (RETURN + rest)[4..] == rest;
  }

  lemma OverEscape(piece: string, rest: string)
    requires '\\' !in piece
    ensures ReplaceAll(piece + ESCAPE + rest, RETURN, "\n") == piece + ESCAPE + ReplaceAll(rest, RETURN, "\n")
  {
    ReplacePast(piece, ESCAPE + rest, RETURN, "\n");
    assert piece + ESCAPE + rest == piece + (ESCAPE + rest);
    NoReturn(rest);
  }

  lemma NoReturn(rest: string)
    ensures ReplaceAll(ESCAPE + rest, RETURN, "\n") == ESCAPE + ReplaceAll(rest, RETURN, "\n")
  {
    var s := ESCAPE + rest;
    assert s[1] == 'n' && RETURN[1] == 'r';
    assert s[1..] == "n" + rest;
    ReplacePast("n", rest, RETURN, "\n");
    assert [s[0]] + ("n" + ReplaceAll(rest, RETURN, "\n")) == ESCAPE + ReplaceAll(rest, RETURN, "\n");
  }

  lemma EscapeReplaced(piece: string, rest: string)
    requires '\\' !in piece
    ensures ReplaceAll(piece + ESCAPE + rest, ESCAPE, "\n") == piece + "\n" + ReplaceAll(rest, ESCAPE, "\n")
  {
    ReplacePast(piece, ESCAPE + rest, ESCAPE, "\n");
    assert piece + ESCAPE + rest == piece + (ESCAPE + rest);
    assert (ESCAPE + rest)[2..] == rest;
  }

  lemma {:induction false} ReturnsReplaced(pieces: seq<string>, crs: seq<bool>)
    requires |pieces| == |crs| + 1 && forall i :: 0 <= i < |pieces| ==> '\\' !in pieces[i]
    ensures ReplaceAll(Escaped(pieces, crs), RETURN, "\n") == HalfDone(pieces, crs)
  {
    hide ReplaceAll;
    if crs == [] {
      ReplaceAbsent(pieces[0], RETURN, "\n");
    } else {
      ReturnsReplaced(pieces[1..], crs[1..]);
      OverReturn(pieces[0], Escaped(pieces[1..], crs[1..]));
      OverEscape(pieces[0], Escaped(pieces[1..], crs[1..]));
    }
  }

  lemma {:induction false} NewlinesReplaced(pieces: seq<string>, crs: seq<bool>)
    requires |pieces| == |crs| + 1 && forall i :: 0 <= i < |pieces| ==> '\\' !in pieces[i]
    ensures ReplaceAll(HalfDone(pieces, crs), ESCAPE, "\n") == Join(pieces, NEWLINE)
  {
    hide ReplaceAll;
    if crs == [] {
      ReplaceAbsent(pieces[0], ESCAPE, "\n");
    } else {
      NewlinesReplaced(pieces[1..], crs[1..]);
      var rest := HalfDone(pieces[1..], crs[1..]);
      EscapeReplaced(pieces[0], rest);
      ReplacePast(pieces[0] + "\n", rest, ESCAPE, "\n");
    }
  }

  /** A part without the first character of the pattern is passed over. */
  lemma {:induction false} ReplacePast(a: string, b: string, from: string, to: string)
    requires from != "" && from[0] !in a
    ensures ReplaceAll(a + b, from, to) == a + ReplaceAll(b, from, to)
  {
    if a == "" {
      assert a + b == b;
    } else {
      ReplacePast(a[1..], b, from, to);
      assert (a + b)[1..] == a[1..] + b && (a + b)[0] == a[0];
      assert !(from <= a + b);
    }
  }

  function FormatAll(lines: seq<string>): (r: seq<string>)
    ensures |r| == |lines|
  {
    if lines == [] then [] else [FormatError(lines[0])] + FormatAll(lines[1..])
  }

  lemma {:induction false} FormatConcat(xs: seq<string>, ys: seq<string>)
    ensures FormatAll(xs + ys) == FormatAll(xs) + FormatAll(ys)
  {
    hide FormatError;
    assert FormatAll([]) == [];
    if xs == [] {
      assert xs + ys == ys;
    } else {
      FormatConcat(xs[1..], ys);
      assert (xs + ys)[1..] == xs[1..] + ys && (xs + ys)[0] == xs[0];
      assert FormatAll(xs + ys) == [FormatError(xs[0])] + (FormatAll(xs[1..]) + FormatAll(ys));
    }
  }

  /** The remembered lines of the second scanner. A known failure leaves all of
      them as they are, so the line stays `previous`. */
  function Notify(three: string, two: string, previous: string, lines: seq<string>): seq<string>
    decreases |lines|
  {
    if lines == [] then FormatAll(Report(previous))
    else if Ignoring(lines[0]) && Fatal(previous) then Notify(three, two, "", lines[1..])
    else if Fatal(previous) && Known(previous, three) then Notify(three, two, previous, lines[1..])
    else FormatAll(Report(previous)) + Notify(two, previous, lines[0], lines[1..])
  }

  method GetFatalErrorsFromString(input: string) returns (fatalErrors: seq<string>)
    ensures fatalErrors == Notify("", "", "", Lines(input))
  {
    hide Fatal, Ignoring, Lines, Known, FormatError;
    var lines := Lines(input);
    fatalErrors := [];
    var threeLinesAgo, twoLinesAgo, previousLine := "", "", "";
    for i := 0 to |lines|
      invariant fatalErrors + Notify(threeLinesAgo, twoLinesAgo, previousLine, lines[i..]) == Notify("", "", "", lines)
    {
      var currentLine := lines[i];
      assert lines[i..][1..] == lines[i + 1..] && lines[i..][0] == currentLine;
      ReportFormatted(previousLine);
      if Ignoring(currentLine) && Fatal(previousLine) {
        previousLine := "";
        continue;
      }
      if Fatal(previousLine) {
        if Known(previousLine, threeLinesAgo) {
          continue;
        }
        fatalErrors := fatalErrors + [FormatError(previousLine)];
      }
      threeLinesAgo, twoLinesAgo, previousLine := twoLinesAgo, previousLine, currentLine;
    }
    ReportFormatted(previousLine);
    if Fatal(previousLine) {
      fatalErrors := fatalErrors + [FormatError(previousLine)];
    }
  }

  lemma ReportFormatted(line: string)
    ensures FormatAll(Report(line)) == if Fatal(line) then [FormatError(line)] else []
  {
    assert [FormatError(line)] + [] == [FormatError(line)];
  }

  predicate Quiet(lines: seq<string>)
  {
    forall line :: line in lines ==> !Fatal(line) && !Ignoring(line)
  }

  /** When the known failure first shows up with another line after it, nothing
      fatal and no ignoring line is left to come. */
  predicate Harmless(three: string, two: string, previous: string, lines: seq<string>)
    decreases |lines|
  {
    lines == []
    || (if Ignoring(lines[0]) && Fatal(previous) then Harmless(three, two, "", lines[1..])
        else if Fatal(previous) && Known(previous, three) then Quiet(lines)
        else Harmless(two, previous, lines[0], lines[1..]))
  }

  lemma {:induction false} QuietPlain(previous: string, lines: seq<string>)
    requires Quiet(lines)
    ensures Plain(previous, lines) == Report(previous)
    decreases |lines|
  {
    hide Fatal, Ignoring;
    if lines != [] {
      QuietPlain(lines[0], lines[1..]);
    }
  }

  /** Stuck on a known failure, with no ignoring line to come: everything after it
      is lost, and the known failure itself is reported at the end. */
  lemma {:induction false} StuckLosesTheRest(three: string, two: string, previous: string, lines: seq<string>)
    requires Fatal(previous) && Known(previous, three)
    requires forall line :: line in lines ==> !Ignoring(line)
    ensures Notify(three, two, previous, lines) == [FormatError(previous)]
  {
    hide Fatal, Ignoring, Known, FormatError;
    if lines == [] {
      ReportFormatted(previous);
    } else {
      StuckLosesTheRest(three, two, previous, lines[1..]);
    }
  }

  lemma {:induction false} ContainsTail(p: string, sub: string)
    ensures Contains(p + sub, sub)
  {
    if p == "" {
      assert p + sub == sub;
    } else {
      ContainsTail(p[1..], sub);
      assert (p + sub)[1..] == p[1..] + sub;
    }
  }

  /** The failure that is meant to be passed over, on any host: the second scanner reports
      it after all, and loses the failure behind it, which the first one reports. */
  lemma KnownFailureHidesNext(host: string)
    ensures var failed := "fatal: " + host + PROMOTION_FAILED;
      && Notify(PROMOTION_TASK, "", failed, ["ok: a", "fatal: b"]) == [FormatError(failed)]
      && Plain(failed, ["ok: a", "fatal: b"]) == [failed, "fatal: b"]
  {
    hide PROMOTION_FAILED, PROMOTION_TASK, Known, Fatal, Ignoring, Notify, Plain;
    var failed := "fatal: " + host + PROMOTION_FAILED;
    KnownAfter("fatal: " + host);
    StillFatal(host + PROMOTION_FAILED);
    assert failed == "fatal: " + (host + PROMOTION_FAILED);
    HidesNext(PROMOTION_TASK, failed);
  }

  lemma HidesNext(task: string, failed: string)
    requires Fatal(failed) && Known(failed, task)
    ensures Notify(task, "", failed, ["ok: a", "fatal: b"]) == [FormatError(failed)]
    ensures Plain(failed, ["ok: a", "fatal: b"]) == [failed, "fatal: b"]
  {
    hide Known, Fatal, Ignoring, FormatError;
    TooShort("ok: a");
    TooShort("fatal: b");
    StuckLosesTheRest(task, "", failed, ["ok: a", "fatal: b"]);
    NextPlain(failed, ["ok: a", "fatal: b"]);
    NextPlain("ok: a", ["fatal: b"]);
    OtherStart("ok: a");
    StillFatal("b");
    assert "fatal: " + "b" == "fatal: b";
    assert Plain("fatal: b", []) == ["fatal: b"];
    assert ["ok: a", "fatal: b"][1..] == ["fatal: b"] && ["fatal: b"][1..] == [];
  }

  lemma KnownAfter(start: string)
    ensures Known(start + PROMOTION_FAILED, PROMOTION_TASK)
  {
    hide PROMOTION_FAILED, PROMOTION_TASK;
    ContainsTail(start, PROMOTION_FAILED);
    ContainsTail("", PROMOTION_TASK);
    assert "" + PROMOTION_TASK == PROMOTION_TASK;
  }

  lemma StillFatal(rest: string)
    ensures Fatal("fatal: " + rest)
  {
    assert "fatal:" <= "fatal: " + rest;
  }

  /** A later memory never loses reports. */
  lemma PlainMonotone(previous: string, lines: seq<string>)
    requires NoneBoth(lines)
    ensures |Plain("", lines)| <= |Plain(previous, lines)| <= 1 + |Plain("", lines)|
    ensures lines != [] ==> |Plain("", lines[1..])| <= |Plain("", lines)|
    ensures lines != [] && Fatal(previous) && !Ignoring(lines[0]) ==> |Plain(previous, lines)| == 1 + |Plain("", lines)|
    decreases |lines|
  {
    hide Fatal, Ignoring;
    NotFatalEmpty();
    if lines != [] {
      PlainMonotone(lines[0], lines[1..]);
    }
  }

  /** The second scanner never reports more than the first. */
  lemma {:induction false} NotifyShorter(three: string, two: string, previous: string, lines: seq<string>)
    requires NoneBoth(lines)
    ensures |Notify(three, two, previous, lines)| <= |Plain(previous, lines)|
    decreases |lines|
  {
    hide Fatal, Ignoring, Known, FormatError;
    if lines != [] {
      NotifyShorter(three, two, "", lines[1..]);
      NotifyShorter(three, two, previous, lines[1..]);
      NotifyShorter(two, previous, lines[0], lines[1..]);
      PlainMonotone(previous, lines);
      PlainMonotone(previous, lines[1..]);
    }
  }

  /** Stuck, with an ignoring line to come: strictly fewer reports. */
  lemma {:induction false} StuckThenIgnored(three: string, two: string, previous: string, lines: seq<string>)
    requires NoneBoth(lines) && Fatal(previous) && Known(previous, three)
    requires exists line :: line in lines && Ignoring(line)
    ensures |Notify(three, two, previous, lines)| < 1 + |Plain("", lines)|
    decreases |lines|
  {
    hide Fatal, Ignoring, Known, FormatError;
    PlainMonotone("", lines);
    if Ignoring(lines[0]) {
      NotifyShorter(three, two, "", lines[1..]);
    } else {
      assert exists line :: line in lines[1..] && Ignoring(line) by {
        var line :| line in lines && Ignoring(line);
        assert lines == [lines[0]] + lines[1..];
      }
      StuckThenIgnored(three, two, previous, lines[1..]);
    }
  }

  lemma FirstReported(previous: string, lines: seq<string>)
    requires Fatal(previous) && forall line :: line in lines ==> !Ignoring(line)
    ensures |Plain(previous, lines)| >= 1
  {
    hide Fatal, Ignoring;
  }

  /** A fatal line with no ignoring line anywhere is reported by the first scanner. */
  lemma {:induction false} SomethingReported(previous: string, lines: seq<string>)
    requires forall line :: line in lines ==> !Ignoring(line)
    requires exists line :: line in lines && Fatal(line)
    ensures |Plain(previous, lines)| >= 1 && (Fatal(previous) ==> |Plain(previous, lines)| >= 2)
    decreases |lines|
  {
    hide Fatal, Ignoring;
    if Fatal(lines[0]) {
      FirstReported(lines[0], lines[1..]);
    } else {
      assert exists line :: line in lines[1..] && Fatal(line) by {
        var line :| line in lines && Fatal(line);
        assert lines == [lines[0]] + lines[1..];
      }
      SomethingReported(lines[0], lines[1..]);
    }
  }

  /** Where the second scanner first gets stuck it agrees with the first one if
      and only if nothing fatal and no ignoring line is left. */
  lemma StuckAgreesIff(three: string, two: string, previous: string, lines: seq<string>)
    requires NoneBoth(lines) && lines != [] && !Ignoring(lines[0])
    requires Fatal(previous) && Known(previous, three)
    ensures Notify(three, two, previous, lines) == FormatAll(Plain(previous, lines)) <==> Quiet(lines)
  {
    hide Fatal, Ignoring, Known, FormatError;
    if exists line :: line in lines && Ignoring(line) {
      StuckThenIgnored(three, two, previous, lines);
      PlainMonotone(previous, lines);
    } else {
      StuckLosesTheRest(three, two, previous, lines);
      if exists line :: line in lines && Fatal(line) {
        SomethingReported(previous, lines);
      } else {
        QuietPlain(previous, lines);
        ReportFormatted(previous);
      }
    }
  }

  /** With no line both fatal and ignoring, the notification scanner returns the
      list of the first scanner, each line formatted, exactly when the known
      promotion failure does no harm. */
  lemma {:induction false} NotificationAgreesIff(three: string, two: string, previous: string, lines: seq<string>)
    requires NoneBoth(lines)
    ensures Notify(three, two, previous, lines) == FormatAll(Plain(previous, lines)) <==>
      Harmless(three, two, previous, lines)
    decreases |lines|
  {
    hide Fatal, Ignoring, Known, FormatError;
    if lines != [] {
      if Ignoring(lines[0]) && Fatal(previous) {
        NotificationAgreesIff(three, two, "", lines[1..]);
      } else if Fatal(previous) && Known(previous, three) {
        StuckAgreesIff(three, two, previous, lines);
      } else {
        NotificationAgreesIff(two, previous, lines[0], lines[1..]);
        FormatConcat(Report(previous), Plain(lines[0], lines[1..]));
        CancelPrefix(FormatAll(Report(previous)), Notify(two, previous, lines[0], lines[1..]),
                     FormatAll(Plain(lines[0], lines[1..])));
      }
    }
  }

  /** No fatal line with the promotion message comes after the promotion task. */
  predicate NoPromotionFailure(lines: seq<string>)
  {
    forall i, j :: 0 <= i < j < |lines| && Contains(lines[i], PROMOTION_TASK) && Fatal(lines[j])
                   ==> !Contains(lines[j], PROMOTION_FAILED)
  }

  predicate Remembered(lines: seq<string>, k: nat, line: string)
    requires k <= |lines|
  {
    line == "" || line in lines[..k]
  }

  /** Without the promotion pattern the two scanners agree, whatever else the log holds. */
  lemma {:induction false} NotificationAgreesFrom(lines: seq<string>, k: nat, three: string, two: string,
                                                  previous: string)
    requires k <= |lines| && NoPromotionFailure(lines)
    requires !Contains("", PROMOTION_TASK)
    requires previous == "" || (k > 0 && previous == lines[k - 1])
    requires k == 0 ==> two == "" && three == ""
    requires k > 0 ==> Remembered(lines, k - 1, two) && Remembered(lines, k - 1, three)
    ensures Notify(three, two, previous, lines[k..]) == FormatAll(Plain(previous, lines[k..]))
    decreases |lines| - k
  {
    hide Fatal, Ignoring, FormatError, Contains;
    NotFatalEmpty();
    assert Fatal(previous) ==> !Known(previous, three);
    if k < |lines| {
      var rest := lines[k..];
      assert rest[1..] == lines[k + 1..] && rest[0] == lines[k];
      assert k > 0 ==> lines[..k] == lines[..k - 1] + [lines[k - 1]];
      if Ignoring(lines[k]) && Fatal(previous) {
        NotificationAgreesFrom(lines, k + 1, three, two, "");
      } else {
        NotificationAgreesFrom(lines, k + 1, two, previous, lines[k]);
        FormatConcat(Report(previous), Plain(lines[k], lines[k + 1..]));
      }
    }
  }

  lemma NotificationAgrees(lines: seq<string>)
    requires NoPromotionFailure(lines)
    ensures Notify("", "", "", lines) == FormatAll(Plain("", lines))
  {
    assert lines[0..] == lines;
    NotificationAgreesFrom(lines, 0, "", "", "");
  }

  // ---------------------------------------------------------------- formatError

  lemma {:induction false} ReplacedAbsent(s: string)
    ensures !Contains(ReplaceAll(s, "\\n", "\n"), "\\n")
    ensures s != "" ==> ReplaceAll(s, "\\n", "\n") != "" && ReplaceAll(s, "\\n", "\n")[0] in {s[0], '\n'}
    ensures s == "" ==> ReplaceAll(s, "\\n", "\n") == ""
  {
    var out := ReplaceAll(s, "\\n", "\n");
    if s == "" {
    } else if "\\n" <= s {
      ReplacedAbsent(s[2..]);
      assert out == "\n" + ReplaceAll(s[2..], "\\n", "\n");
      assert out[1..] == ReplaceAll(s[2..], "\\n", "\n");
      assert out[0] != '\\';
    } else {
      ReplacedAbsent(s[1..]);
      assert out[1..] == ReplaceAll(s[1..], "\\n", "\n");
    }
  }

  /** A formatted line has no escaped newline left. */
  lemma FormattedHasNoEscape(line: string)
    ensures !Contains(FormatError(line), "\\n")
  {
    ReplacedAbsent(ReplaceAll(line, "\\r\\n", "\n"));
  }
}

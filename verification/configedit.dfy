/** The block of problems `config edit` writes at the top of a file it reopens, its removal from what
    the editor saves, and the loop over saves. */
module ConfigEdit {
  import opened Text

  // Cut at their clauses: the verifier tells the characters of short literals only.
  const REFUSED_LEAD := "that edit would add a problem to the file, " + "so nothing was written:"
  const EDIT_TAIL := "Save again once fixed. " + "Saving it unchanged, or empty, cancels. " + "These lines are removed."
  const OPENING := "# " + REFUSED_LEAD
  const CLOSING := "# " + EDIT_TAIL
  const PROBLEM_INDENT := "#   "

  // ---- writing the head ----

  function Indented(lines: seq<string>): seq<string> {
    if lines == [] then [] else [PROBLEM_INDENT + lines[0]] + Indented(lines[1..])
  }

  function ProblemLines(problems: seq<string>): seq<string> {
    if problems == [] then [] else Indented(Split(problems[0], '\n')) + ProblemLines(problems[1..])
  }

  function HeadLines(problems: seq<string>): seq<string> {
    [OPENING] + ProblemLines(problems) + [CLOSING]
  }

  /** Lines as they stand in a file, each ended. */
  function Unlines(lines: seq<string>): string {
    if lines == [] then "" else lines[0] + "\n" + Unlines(lines[1..])
  }

  function Head(problems: seq<string>): string {
    if problems == [] then "" else Unlines(HeadLines(problems))
  }

  /** `problemHead`. */
  method ProblemHead(problems: seq<string>) returns (b: string)
    ensures b == Head(problems)
  {
    hide *;
    if problems == [] {
      NoHead();
      return "";
    }
    ghost var text := Unlines(ProblemLines(problems));
    b := OPENING + "\n";
    ghost var start := b;
    for i := 0 to |problems|
      invariant b + Unlines(ProblemLines(problems[i..])) == start + text
    {
      FirstProblem(problems, i);
      var after := WriteProblem(b, problems[i]);
      Reassociate(b, Unlines(Indented(Split(problems[i], '\n'))), Unlines(ProblemLines(problems[i + 1..])));
      b := after;
    }
    NoProblems(problems);
    b := b + CLOSING + "\n";
    HeadText(problems);
  }

  /** One problem's lines, each under the indent. */
  method WriteProblem(b: string, problem: string) returns (r: string)
    ensures r == b + Unlines(Indented(Split(problem, '\n')))
  {
    hide Split;
    r := b;
    var lines := Split(problem, '\n');
    for j := 0 to |lines|
      invariant r + Unlines(Indented(lines[j..])) == b + Unlines(Indented(lines))
    {
      IndentedFirst(lines, j);
      LineThenRest(r, PROBLEM_INDENT + lines[j], Unlines(Indented(lines[j + 1..])));
      r := r + PROBLEM_INDENT + lines[j] + "\n";
    }
    assert r == b + Unlines(Indented(lines)) by { assert lines[|lines|..] == []; }
  }

  lemma {:induction false} NoHead()
    ensures Head([]) == ""
  {
  }

  lemma {:induction false} NoProblems(problems: seq<string>)
    ensures Unlines(ProblemLines(problems[|problems|..])) == ""
  {
    assert problems[|problems|..] == [];
  }

  lemma {:induction false} FirstProblem(problems: seq<string>, i: nat)
    requires i < |problems|
    ensures Unlines(ProblemLines(problems[i..])) ==
            Unlines(Indented(Split(problems[i], '\n'))) + Unlines(ProblemLines(problems[i + 1..]))
  {
    hide Split;
    assert problems[i..][1..] == problems[i + 1..];
    UnlinesConcat(Indented(Split(problems[i], '\n')), ProblemLines(problems[i + 1..]));
  }

  lemma {:induction false} HeadText(problems: seq<string>)
    requires problems != []
    ensures Head(problems) == OPENING + "\n" + Unlines(ProblemLines(problems)) + (CLOSING + "\n")
  {
    hide ProblemLines;
    UnlinesConcat([OPENING], ProblemLines(problems));
    UnlinesConcat([OPENING] + ProblemLines(problems), [CLOSING]);
    OneLineFile(OPENING);
    OneLineFile(CLOSING);
  }

  lemma {:induction false} OneLineFile(line: string)
    ensures Unlines([line]) == line + "\n"
  {
  }

  lemma {:induction false} Reassociate(a: string, b: string, c: string)
    ensures a + (b + c) == a + b + c
  {
  }

  lemma {:induction false} LineThenRest(before: string, line: string, rest: string)
    ensures before + (line + "\n" + rest) == before + line + "\n" + rest
  {
  }

  lemma {:induction false} IndentedFirst(lines: seq<string>, j: nat)
    requires j < |lines|
    ensures Unlines(Indented(lines[j..])) == PROBLEM_INDENT + lines[j] + "\n" + Unlines(Indented(lines[j + 1..]))
  {
    assert lines[j..][1..] == lines[j + 1..];
    var rest := Indented(lines[j + 1..]);
    assert Indented(lines[j..]) == [PROBLEM_INDENT + lines[j]] + rest;
    assert ([PROBLEM_INDENT + lines[j]] + rest)[1..] == rest;
  }

  lemma {:induction false} FirstOfUnlines(lines: seq<string>, text: string)
    requires lines != []
    ensures Unlines(lines) + text == lines[0] + "\n" + (Unlines(lines[1..]) + text)
  {
  }

  lemma {:induction false} UnlinesConcat(a: seq<string>, b: seq<string>)
    ensures Unlines(a + b) == Unlines(a) + Unlines(b)
  {
    if a == [] {
      assert a + b == b;
    } else {
      assert (a + b)[1..] == a[1..] + b;
      UnlinesConcat(a[1..], b);
    }
  }

  // ---- removing it ----

  /** `bytes.Cut` at a newline: the first line, and what follows it. */
  function FirstLine(s: string): string {
    if s == "" || s[0] == '\n' then "" else [s[0]] + FirstLine(s[1..])
  }

  function AfterLine(s: string): (r: string)
    ensures s != "" ==> |r| < |s|
  {
    if s == "" then "" else if s[0] == '\n' then s[1..] else AfterLine(s[1..])
  }

  /** A line the block may hold: one the head wrote, or one indented as a problem is. */
  predicate BlockLine(line: string, ours: set<string>) {
    var text := TrimSuffix(line, "\r");
    text in ours || PROBLEM_INDENT <= text
  }

  predicate ClosesBlock(line: string) { TrimSuffix(line, "\r") == CLOSING }

  function Strip(rest: string, ours: set<string>): string
    decreases |rest|
  {
    if rest == "" || !BlockLine(FirstLine(rest), ours) then rest
    else if ClosesBlock(FirstLine(rest)) then AfterLine(rest)
    else Strip(AfterLine(rest), ours)
  }

  function Ours(head: string): set<string> {
    set line | line in Split(TrimSuffix(head, "\n"), '\n')
  }

  function Without(saved: string, head: string): string {
    if head == "" then saved else Strip(saved, Ours(head))
  }

  /** `withoutHead`. */
  method WithoutHead(saved: string, head: string) returns (rest: string)
    ensures rest == Without(saved, head)
  {
    if head == "" {
      return saved;
    }
    var ours := Ours(head);
    rest := saved;
    while rest != ""
      invariant Strip(rest, ours) == Strip(saved, ours)
      decreases |rest|
    {
      var line, after := FirstLine(rest), AfterLine(rest);
      if !BlockLine(line, ours) {
        break;
      }
      rest := after;
      if ClosesBlock(line) {
        return;
      }
    }
  }

  lemma {:induction false} LineOfUnlines(line: string, text: string)
    requires '\n' !in line
    ensures FirstLine(line + "\n" + text) == line && AfterLine(line + "\n" + text) == text
  {
    var s := line + "\n" + text;
    if line == "" {
      assert s[0] == '\n' && s[1..] == text;
    } else {
      assert s[0] == line[0] && s[1..] == line[1..] + "\n" + text;
      assert line == [line[0]] + line[1..];
      LineOfUnlines(line[1..], text);
    }
  }

  /** Lines of a block an editor left, the closing one not yet among them. */
  ghost predicate OpenBlock(lines: seq<string>, ours: set<string>) {
    forall i :: 0 <= i < |lines| ==> '\n' !in lines[i] && BlockLine(lines[i], ours) && !ClosesBlock(lines[i])
  }

  lemma {:induction false} StripPassesBlock(lines: seq<string>, ours: set<string>, text: string)
    requires OpenBlock(lines, ours)
    ensures Strip(Unlines(lines) + text, ours) == Strip(text, ours)
  {
    if lines == [] {
      assert Unlines(lines) + text == text;
    } else {
      hide BlockLine, ClosesBlock;
      var rest := Unlines(lines[1..]) + text;
      assert Unlines(lines) + text == lines[0] + "\n" + rest by { FirstOfUnlines(lines, text); }
      LineOfUnlines(lines[0], rest);
      StripPassesBlock(lines[1..], ours, text);
    }
  }

  /** However an editor changed the block, so long as its lines are still the head's or indented and its
      closing line is there, what is stripped is the block and nothing else, whatever the text is. */
  lemma {:induction false} EditedBlockStrips(lines: seq<string>, closing: string, ours: set<string>, text: string)
    requires OpenBlock(lines, ours) && ClosesBlock(closing) && '\n' !in closing && CLOSING in ours
    ensures Strip(Unlines(lines + [closing]) + text, ours) == text
  {
    StripCloses(closing, ours, text);
    hide *;
    UnlinesConcat(lines, [closing]);
    OneLineFile(closing);
    Reassociate(Unlines(lines), closing + "\n", text);
    StripPassesBlock(lines, ours, closing + "\n" + text);
  }

  lemma {:induction false} StripCloses(closing: string, ours: set<string>, text: string)
    requires ClosesBlock(closing) && '\n' !in closing && CLOSING in ours
    ensures Strip(closing + "\n" + text, ours) == text
  {
    LineOfUnlines(closing, text);
    hide CLOSING;
  }

  /** Without its closing line a block is told from the text by the text's own first line: the text
      survives exactly when it is empty or starts with a line that is neither the head's nor indented. */
  lemma {:induction false} UnclosedBlock(lines: seq<string>, ours: set<string>, text: string)
    requires OpenBlock(lines, ours)
    ensures Strip(Unlines(lines) + text, ours) == text <==> text == "" || !BlockLine(FirstLine(text), ours)
  {
    StripPassesBlock(lines, ours, text);
    StripShrinks(text, ours);
  }

  lemma {:induction false} StripShrinks(text: string, ours: set<string>)
    ensures |Strip(text, ours)| <= |text|
    ensures text != "" && BlockLine(FirstLine(text), ours) ==> |Strip(text, ours)| < |text|
    decreases |text|
  {
    if text != "" { StripShrinks(AfterLine(text), ours); }
  }

  // ---- the head is such a block ----

  lemma {:induction false} IndentedIsOpen(lines: seq<string>, ours: set<string>)
    requires forall p :: p in lines ==> '\n' !in p
    ensures OpenBlock(Indented(lines), ours)
  {
    if lines != [] {
      var line := PROBLEM_INDENT + lines[0];
      assert lines[0] in lines;
      IndentedLine(line);
      IndentedIsOpen(lines[1..], ours);
    }
  }

  lemma {:induction false} IndentedLine(line: string)
    requires PROBLEM_INDENT <= line
    ensures PROBLEM_INDENT <= TrimSuffix(line, "\r") && !ClosesBlock(line)
  {
    assert line[3] == ' ' && line[2] == ' ' && CLOSING[2] == 'S';
    assert HasSuffix(line, "\r") ==> line[|line| - 1] == '\r';
  }

  lemma {:induction false} ProblemLinesAreOpen(problems: seq<string>, ours: set<string>)
    ensures OpenBlock(ProblemLines(problems), ours)
  {
    if problems != [] {
      SplitPartsHaveNoSeparator(problems[0], '\n');
      IndentedIsOpen(Split(problems[0], '\n'), ours);
      ProblemLinesAreOpen(problems[1..], ours);
    }
  }

  lemma {:induction false} OneLine()
    ensures '\n' !in OPENING && '\n' !in CLOSING
  {
    LeadIsOneLine();
    TailIsOneLine();
    hide REFUSED_LEAD, EDIT_TAIL;
  }

  lemma {:induction false} LeadIsOneLine()
    ensures '\n' !in REFUSED_LEAD
  {
    assert '\n' !in "that edit would add a problem to the file, ";
  }

  lemma {:induction false} TailIsOneLine()
    ensures '\n' !in EDIT_TAIL
  {
    assert '\n' !in "Saving it unchanged, or empty, cancels. ";
    assert '\n' !in "Save again once fixed. " + "Saving it unchanged, or empty, cancels. ";
  }

  lemma {:induction false} LastCharacters()
    ensures OPENING != [] && OPENING[|OPENING| - 1] == ':' && CLOSING != [] && CLOSING[|CLOSING| - 1] == '.'
  {
  }

  lemma {:induction false} NoReturn(line: string)
    requires line != "" && line[|line| - 1] != '\r'
    ensures TrimSuffix(line, "\r") == line
  {
  }

  lemma {:induction false} FixedLines()
    ensures '\n' !in OPENING && '\n' !in CLOSING
    ensures TrimSuffix(OPENING, "\r") == OPENING && TrimSuffix(CLOSING, "\r") == CLOSING && OPENING != CLOSING
  {
    hide *;
    OneLine();
    LastCharacters();
    NoReturn(OPENING);
    NoReturn(CLOSING);
  }

  /** An editor that deleted the closing line takes an indented first line of the text with the block. */
  lemma {:induction false} FirstLineGoesWithTheBlock()
    ensures var text := PROBLEM_INDENT + "a note" + "\n" + "x";
            Strip(Unlines([OPENING]) + text, {OPENING}) == "x"
  {
    hide *;
    var line, ours := PROBLEM_INDENT + "a note", {OPENING};
    NoteLine();
    TwoLinesAreOpen(line);
    UnlinesConcat([OPENING], [line]);
    OneLineFile(line);
    assert [OPENING] + [line] == [OPENING, line];
    Reassociate(Unlines([OPENING]), line + "\n", "x");
    StripPassesBlock([OPENING, line], ours, "x");
    NotABlockLine(ours);
  }

  lemma {:induction false} TwoLinesAreOpen(line: string)
    requires PROBLEM_INDENT <= line && '\n' !in line
    ensures OpenBlock([OPENING, line], {OPENING})
  {
    FixedLines();
    IndentedLine(line);
  }

  lemma {:induction false} NotABlockLine(ours: set<string>)
    requires ours == {OPENING}
    ensures Strip("x", ours) == "x"
  {
    LastCharacters();
    LineOfOne('x');
    NoReturn("x");
    hide FirstLine, TrimSuffix, OPENING;
    assert OPENING != "x" && !(PROBLEM_INDENT <= "x");
  }

  lemma {:induction false} LineOfOne(c: char)
    requires c != '\n'
    ensures FirstLine([c]) == [c]
  {
    assert [c][1..] == "";
  }

  lemma {:induction false} NoteLine()
    ensures PROBLEM_INDENT <= PROBLEM_INDENT + "a note" && '\n' !in PROBLEM_INDENT + "a note"
  {
  }

  lemma {:induction false} UnlinesIsJoin(lines: seq<string>)
    requires lines != []
    ensures Unlines(lines) == Join(lines, '\n') + "\n"
  {
    if |lines| > 1 {
      UnlinesIsJoin(lines[1..]);
    } else {
      assert lines[1..] == [];
    }
  }

  /** The head's own lines are the ones it is recognized by. */
  lemma {:induction false} OursOfHead(problems: seq<string>)
    requires problems != []
    ensures Ours(Head(problems)) == set line | line in HeadLines(problems)
  {
    var lines := HeadLines(problems);
    FixedLines();
    ProblemLinesAreOpen(problems, {});
    forall p | p in lines ensures '\n' !in p {
      if p in ProblemLines(problems) {
        var i :| 0 <= i < |ProblemLines(problems)| && ProblemLines(problems)[i] == p;
      }
    }
    UnlinesIsJoin(lines);
    var head := Head(problems);
    assert TrimSuffix(head, "\n") == Join(lines, '\n');
    SplitJoin(lines, '\n');
  }

  /** Stripping the head from head plus text gives the text back, for any problems and any text. */
  lemma {:induction false} WithoutUndoesHead(problems: seq<string>, text: string)
    ensures Without(Head(problems) + text, Head(problems)) == text
  {
    if problems == [] {
      assert "" + text == text;
    } else {
      OursOfHead(problems);
      var ours := Ours(Head(problems));
      FixedLines();
      assert OPENING in HeadLines(problems) && CLOSING in HeadLines(problems);
      ProblemLinesAreOpen(problems, ours);
      EditedBlockStrips([OPENING] + ProblemLines(problems), CLOSING, ours, text);
    }
  }

  /** It still does when an editor kept the closing line and, of the others, deleted some, rewrote
      problem lines keeping their indent, or ended lines with a carriage return. */
  lemma {:induction false} WithoutUndoesEditedHead(problems: seq<string>, kept: seq<string>, closing: string,
          text: string)
    requires problems != [] && ClosesBlock(closing) && '\n' !in closing
    requires forall line :: line in kept ==> '\n' !in line && !ClosesBlock(line)
    requires forall line :: line in kept ==> TrimSuffix(line, "\r") in HeadLines(problems) || PROBLEM_INDENT <= line
    ensures Without(Unlines(kept + [closing]) + text, Head(problems)) == text
  {
    OursOfHead(problems);
    var ours := Ours(Head(problems));
    assert CLOSING in HeadLines(problems);
    forall i | 0 <= i < |kept| ensures BlockLine(kept[i], ours) {
      assert kept[i] in kept;
      if PROBLEM_INDENT <= kept[i] { IndentedLine(kept[i]); }
    }
    EditedBlockStrips(kept, closing, ours, text);
    HeadIsWritten(problems);
  }

  lemma {:induction false} HeadIsWritten(problems: seq<string>)
    requires problems != []
    ensures Head(problems) != ""
  {
    assert HeadLines(problems)[0] == OPENING;
  }

  // ---- the loop over saves ----

  datatype Written = Accepted | Problems(added: seq<string>) | WriteFailed

  datatype Session =
    | Canceled
    | Wrote(text: string)
    | Failed(text: string)
    | StillOpen(text: string, problems: seq<string>)

  predicate Blank(s: string) { TrimSpace(s) == "" }

  /** What each save of an edit session leads to, `saves[0]` being the first. */
  function Edit(original: string, text: string, problems: seq<string>, saves: seq<string>,
          write: string -> Written): Session
    decreases |saves|
  {
    if saves == [] then StillOpen(text, problems)
    else
      var edited := Without(saves[0], Head(problems));
      if Blank(edited) || edited == text || edited == original then Canceled
      else match write(edited)
        case Accepted => Wrote(edited)
        case WriteFailed => Failed(edited)
        case Problems(added) => Edit(original, edited, added, saves[1..], write)
  }

  /** `runConfigEdit`, over the saves an editor made while it ran. */
  method RunConfigEdit(original: string, saves: seq<string>, write: string -> Written) returns (end: Session)
    ensures end == Edit(original, original, [], saves, write)
  {
    hide Blank, Without;
    var text, problems := original, [];
    for i := 0 to |saves|
      invariant Edit(original, original, [], saves, write) == Edit(original, text, problems, saves[i..], write)
    {
      assert saves[i..][1..] == saves[i + 1..];
      var head := ProblemHead(problems);
      var edited := WithoutHead(saves[i], head);
      if Blank(edited) || edited == text || edited == original {
        return Canceled;
      }
      var w := write(edited);
      match w {
        case Accepted => return Wrote(edited);
        case WriteFailed => return Failed(edited);
        case Problems(added) => text, problems := edited, added;
      }
    }
    return StillOpen(text, problems);
  }

  /** Saving a reopened file unchanged, its head and all, cancels. */
  lemma {:induction false} UnchangedSaveCancels(original: string, text: string, problems: seq<string>,
          later: seq<string>, write: string -> Written)
    ensures Edit(original, text, problems, [Head(problems) + text] + later, write).Canceled?
  {
    WithoutUndoesHead(problems, text);
  }

  /** What one save of a text under the head leads to: it cancels exactly where the text is blank, the one reopened
      or the one the file held; otherwise it ends as the check says, or goes on from that text and its problems. */
  lemma {:induction false} SaveDecides(original: string, text: string, problems: seq<string>, saved: string,
          later: seq<string>, write: string -> Written)
    ensures Edit(original, text, problems, [Head(problems) + saved] + later, write) ==
      if (forall c :: c in saved ==> c == ' ' || '\t' <= c <= '\r') || saved == text || saved == original then Canceled
      else match write(saved)
        case Accepted => Wrote(saved)
        case WriteFailed => Failed(saved)
        case Problems(added) => Edit(original, saved, added, later, write)
  {
    WithoutUndoesHead(problems, saved);
    BlankIs(saved);
    hide Without, Head, TrimSpace;
    var saves := [Head(problems) + saved] + later;
    assert saves[0] == Head(problems) + saved && saves[1..] == later;
  }

  /** Only a text the check accepted is ever written, and it is neither blank nor what the file held. */
  lemma {:induction false} OnlyAcceptedIsWritten(original: string, text: string, problems: seq<string>,
          saves: seq<string>, write: string -> Written)
    ensures var end := Edit(original, text, problems, saves, write);
            end.Wrote? ==> write(end.text).Accepted? && !Blank(end.text) && end.text != original
    decreases |saves|
  {
    hide Blank, Without;
    if saves != [] {
      var edited := Without(saves[0], Head(problems));
      var w := write(edited);
      if w.Problems? { OnlyAcceptedIsWritten(original, edited, w.added, saves[1..], write); }
    }
  }
}

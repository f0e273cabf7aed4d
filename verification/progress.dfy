/** The progress display: a frame of rows redrawn in place on a terminal, with log output written
    through it. A terminal is its rows and a cursor, and what is written to it is a sequence of the
    operations the bytes stand for. */
module Progress {
  import opened Text

  // ---- a terminal ----

  datatype Op =
    | Cells(s: string)
    | Return
    | NewLine
    | EraseRow
    | EraseToEnd
    | Up(n: nat)

  datatype Screen = Screen(rows: seq<string>, row: nat, col: nat)

  predicate OnScreen(s: Screen) { s.row < |s.rows| }

  function Padded(row: string, n: nat): (r: string)
    ensures |r| >= n && row <= r
  {
    if |row| < n then row + seq(n - |row|, _ => ' ') else row
  }

  /** What one operation does. Output moves down a row, and back to its start, at a newline; the screen
      grows when the cursor leaves its last row; a move up stops at the first row, and a move of 0 is one
      of 1. */
  function Do(op: Op, s: Screen): (r: Screen)
    requires OnScreen(s)
    ensures OnScreen(r)
  {
    var row := s.rows[s.row];
    match op
    case Cells(t) =>
      var padded := Padded(row, s.col);
      var rest := if s.col + |t| < |padded| then padded[s.col + |t|..] else "";
      s.(rows := s.rows[s.row := padded[..s.col] + t + rest], col := s.col + |t|)
    case Return => s.(col := 0)
    case NewLine =>
      Screen(if s.row + 1 == |s.rows| then s.rows + [""] else s.rows, s.row + 1, 0)
    case EraseRow => s.(rows := s.rows[s.row := ""])
    case EraseToEnd => s.(rows := s.rows[s.row := if s.col < |row| then row[..s.col] else row])
    case Up(n) =>
      var up := if n == 0 then 1 else n;
      s.(row := if up <= s.row then s.row - up else 0)
  }

  function Play(ops: seq<Op>, s: Screen): (r: Screen)
    requires OnScreen(s)
    ensures OnScreen(r)
  {
    if ops == [] then s else Play(ops[1..], Do(ops[0], s))
  }

  lemma {:induction false} PlayConcat(a: seq<Op>, b: seq<Op>, s: Screen)
    requires OnScreen(s)
    ensures Play(a + b, s) == Play(b, Play(a, s))
  {
    if a == [] {
      assert a + b == b;
    } else {
      assert (a + b)[1..] == a[1..] + b;
      PlayConcat(a[1..], b, Do(a[0], s));
    }
  }

  lemma {:induction false} PlayNothing(s: Screen)
    requires OnScreen(s)
    ensures Play([], s) == s
  {
  }

  lemma {:induction false} PlayOne(a: Op, s: Screen)
    requires OnScreen(s)
    ensures Play([a], s) == Do(a, s)
  {
    hide Do;
    assert [a][1..] == [];
  }

  lemma {:induction false} PlayTwo(a: Op, b: Op, s: Screen)
    requires OnScreen(s)
    ensures Play([a, b], s) == Do(b, Do(a, s))
  {
    hide Do;
    assert [a, b][1..] == [b];
    PlayOne(b, Do(a, s));
  }

  lemma {:induction false} PlayThree(a: Op, b: Op, c: Op, s: Screen)
    requires OnScreen(s)
    ensures Play([a, b, c], s) == Do(c, Do(b, Do(a, s)))
  {
    hide Do;
    assert [a, b, c][1..] == [b, c];
    PlayTwo(b, c, Do(a, s));
  }

  // ---- what is written ----

  function RowOps(row: string): seq<Op> { [Return, Cells(row), EraseToEnd] }

  /** The rows of a frame, each over whatever its row held. */
  function Body(rows: seq<string>): seq<Op> {
    if rows == [] then []
    else
      var n := |rows| - 1;
      (if n == 0 then [] else Body(rows[..n]) + [NewLine]) + RowOps(rows[n])
  }

  function Blanking(n: nat): seq<Op> {
    if n == 0 then [] else Blanking(n - 1) + [NewLine, Return, EraseToEnd]
  }

  function DrawOps(drawn: nat, rows: seq<string>): seq<Op> {
    (if drawn > 1 then [Up(drawn - 1)] else []) + Body(rows) +
    (if drawn > |rows| then Blanking(drawn - |rows|) + [Up(drawn - |rows|)] else [])
  }

  function Climbing(n: nat): seq<Op> {
    if n == 0 then [] else [Return, EraseRow, Up(1)] + Climbing(n - 1)
  }

  function EraseOps(drawn: nat): seq<Op> {
    if drawn == 0 then [] else Climbing(drawn - 1) + [Return, EraseRow]
  }

  function LogOps(parts: seq<string>): seq<Op> {
    if parts == [] then []
    else if |parts| == 1 then [Cells(parts[0])]
    else [Cells(parts[0]), NewLine] + LogOps(parts[1..])
  }

  // ---- what is shown ----

  /** What a reader sees: finished rows, then either the frame, or the row being written. */
  datatype View = View(above: seq<string>, frame: seq<string>, tail: string)

  ghost predicate Shows(s: Screen, v: View) {
    var n := |v.above| + |v.frame|;
    && OnScreen(s) && n <= |s.rows|
    && (forall i :: 0 <= i < |v.above| ==> s.rows[i] == v.above[i])
    && (forall i :: |v.above| <= i < n ==> s.rows[i] == v.frame[i - |v.above|])
    && (v.frame != [] ==> v.tail == "" && s.row == n - 1 && BlankFrom(s, n))
    && (v.frame == [] ==> s.row == n && s.col == |v.tail| && s.rows[n] == v.tail && BlankFrom(s, n + 1))
  }

  ghost predicate BlankFrom(s: Screen, n: nat) { forall i :: n <= i < |s.rows| ==> s.rows[i] == "" }

  /** Rows with nothing on them. */
  predicate AllBlank(rows: seq<string>) { forall i :: 0 <= i < |rows| ==> rows[i] == "" }

  /** Read row by row, a terminal that shows a view holds what is above, then every row of the frame, or where there
      is none the row being written, and below that nothing; the cursor stands on the last of these. */
  lemma {:induction false} ShowsExactly(s: Screen, v: View)
    ensures Shows(s, v) <==>
      var lines := v.above + if v.frame == [] then [v.tail] else v.frame;
      && |lines| <= |s.rows| && s.rows[..|lines|] == lines && AllBlank(s.rows[|lines|..])
      && s.row == |lines| - 1 && (if v.frame == [] then s.col == |v.tail| else v.tail == "")
  {
    var lines := v.above + if v.frame == [] then [v.tail] else v.frame;
    if |lines| <= |s.rows| {
      assert forall i :: |lines| <= i < |s.rows| ==> s.rows[i] == s.rows[|lines|..][i - |lines|];
      if Shows(s, v) { assert forall i :: 0 <= i < |lines| ==> s.rows[i] == lines[i]; }
      if s.rows[..|lines|] == lines { assert forall i :: 0 <= i < |lines| ==> s.rows[i] == lines[i]; }
    }
  }

  /** The rows outside a span are what they were, any new ones blank. */
  ghost predicate OnlyChanges(s: Screen, t: Screen, from: nat, to: nat) {
    && |s.rows| <= |t.rows|
    && (forall i :: 0 <= i < |s.rows| && !(from <= i < to) ==> t.rows[i] == s.rows[i])
    && (forall i :: |s.rows| <= i < |t.rows| && !(from <= i < to) ==> t.rows[i] == "")
  }

  lemma {:induction false} PlayRow(row: string, s: Screen)
    requires OnScreen(s)
    ensures Play(RowOps(row), s) == Screen(s.rows[s.row := row], s.row, |row|)
  {
    PlayThree(Return, Cells(row), EraseToEnd, s);
    var b := Do(Cells(row), Do(Return, s));
    assert |b.rows[s.row]| >= |row| && b.rows[s.row][..|row|] == row;
    assert b.col == |row| && b.row == s.row;
    assert Do(EraseToEnd, b).rows[s.row] == row;
  }

  lemma {:induction false} PlayBody(rows: seq<string>, s: Screen)
    requires OnScreen(s) && rows != []
    ensures var t := Play(Body(rows), s);
            && t.row == s.row + |rows| - 1 && OnlyChanges(s, t, s.row, s.row + |rows|)
            && (forall i :: 0 <= i < |rows| ==> t.rows[s.row + i] == rows[i])
  {
    hide Play, Do;
    var n := |rows| - 1;
    if n == 0 {
      assert Body(rows) == RowOps(rows[0]);
      PlayRow(rows[0], s);
    } else {
      var before := Body(rows[..n]);
      PlayBody(rows[..n], s);
      var t := Play(before, s);
      PlayNewLine(t);
      var u := Play([NewLine], t);
      PlayConcat(before, [NewLine], s);
      PlayConcat(before + [NewLine], RowOps(rows[n]), s);
      PlayRow(rows[n], u);
      var v := Play(Body(rows), s);
      forall i | 0 <= i < |rows| ensures v.rows[s.row + i] == rows[i] {
        if i < n { assert t.rows[s.row + i] == rows[..n][i]; }
      }
    }
  }

  lemma {:induction false} PlayNewLine(s: Screen)
    requires OnScreen(s)
    ensures Play([NewLine], s) == Screen(if s.row + 1 == |s.rows| then s.rows + [""] else s.rows, s.row + 1, 0)
  {
    PlayOne(NewLine, s);
  }

  lemma {:induction false} PlayUp(n: nat, s: Screen)
    requires OnScreen(s) && 0 < n <= s.row
    ensures Play([Up(n)], s) == s.(row := s.row - n)
  {
    PlayOne(Up(n), s);
  }

  lemma {:induction false} PlayBlankRow(s: Screen)
    requires OnScreen(s)
    ensures var t := Play([NewLine, Return, EraseToEnd], s);
            t.row == s.row + 1 && t.rows[s.row + 1] == "" && OnlyChanges(s, t, s.row + 1, s.row + 2)
  {
    PlayThree(NewLine, Return, EraseToEnd, s);
  }

  lemma {:induction false} PlayBlanking(n: nat, s: Screen)
    requires OnScreen(s)
    ensures var t := Play(Blanking(n), s);
            && t.row == s.row + n && OnlyChanges(s, t, s.row + 1, s.row + 1 + n)
            && (forall i :: s.row < i <= s.row + n ==> t.rows[i] == "")
  {
    hide Play, Do;
    if n == 0 {
      assert Play(Blanking(0), s) == s by { PlayNothing(s); }
    } else {
      PlayBlanking(n - 1, s);
      PlayConcat(Blanking(n - 1), [NewLine, Return, EraseToEnd], s);
      PlayBlankRow(Play(Blanking(n - 1), s));
    }
  }

  /** The rows of a new frame are in place, the old frame's further rows perhaps below them. */
  ghost predicate Covered(v: View, rows: seq<string>, s: Screen) {
    var n := |v.above| + |rows|;
    && OnScreen(s) && s.row == n - 1 && |v.above| + |v.frame| <= |s.rows|
    && (forall i :: 0 <= i < |v.above| ==> s.rows[i] == v.above[i])
    && (forall i :: |v.above| <= i < n ==> s.rows[i] == rows[i - |v.above|])
    && BlankFrom(s, if |v.frame| > |rows| then |v.above| + |v.frame| else n)
  }

  lemma {:induction false} TopOfFrame(v: View, s: Screen)
    requires Shows(s, v)
    ensures Play(if |v.frame| > 1 then [Up(|v.frame| - 1)] else [], s) == s.(row := |v.above|)
  {
    hide Play, Do;
    if |v.frame| > 1 { PlayUp(|v.frame| - 1, s); } else { PlayNothing(s); }
  }

  lemma {:induction false} BodyCovers(v: View, rows: seq<string>, s: Screen)
    requires Shows(s, v) && rows != [] && |v.above| < |s.rows|
    ensures Covered(v, rows, Play(Body(rows), s.(row := |v.above|)))
  {
    hide Play, Do, Body, Shows, Covered;
    var a := s.(row := |v.above|);
    PlayBody(rows, a);
    ChangesCover(v, rows, s, Play(Body(rows), a));
  }

  lemma {:induction false} ChangesCover(v: View, rows: seq<string>, s: Screen, b: Screen)
    requires Shows(s, v) && OnlyChanges(s, b, |v.above|, |v.above| + |rows|)
    requires b.row == |v.above| + |rows| - 1 && b.row < |b.rows| && rows != []
    requires forall i :: 0 <= i < |rows| ==> b.rows[|v.above| + i] == rows[i]
    ensures Covered(v, rows, b)
  {
    forall i | |v.above| <= i < |v.above| + |rows| ensures b.rows[i] == rows[i - |v.above|] {
      assert b.rows[|v.above| + (i - |v.above|)] == rows[i - |v.above|];
    }
  }

  lemma {:induction false} CoveredShows(v: View, rows: seq<string>, s: Screen)
    requires Covered(v, rows, s) && rows != [] && |v.frame| <= |rows|
    ensures Shows(s, View(v.above, rows, ""))
  {
  }

  lemma {:induction false} RestIsBlanked(v: View, rows: seq<string>, s: Screen)
    requires Covered(v, rows, s) && rows != [] && |v.frame| > |rows|
    ensures var extra := |v.frame| - |rows|;
            Shows(Play(Blanking(extra) + [Up(extra)], s), View(v.above, rows, ""))
  {
    hide Play, Do, Blanking;
    var extra := |v.frame| - |rows|;
    PlayConcat(Blanking(extra), [Up(extra)], s);
    PlayBlanking(extra, s);
    PlayUp(extra, Play(Blanking(extra), s));
  }

  /** Drawing rows over what is shown, be it a longer frame, a shorter one, or none, shows what was above
      followed by those rows, and nothing below them. */
  lemma {:induction false} DrawShows(v: View, rows: seq<string>, s: Screen)
    requires Shows(s, v) && rows != []
    ensures Shows(Play(DrawOps(|v.frame|, rows), s), View(v.above, rows, ""))
  {
    var drawn := |v.frame|;
    assert OnScreen(s) && |v.above| < |s.rows|;
    TopOfFrame(v, s);
    BodyCovers(v, rows, s);
    var top := if drawn > 1 then [Up(drawn - 1)] else [];
    var b := Play(Body(rows), s.(row := |v.above|));
    hide Play, Do, Body, Blanking, Shows, Covered;
    PlayConcat(top, Body(rows), s);
    if drawn > |rows| {
      var extra := drawn - |rows|;
      PlayConcat(top + Body(rows), Blanking(extra) + [Up(extra)], s);
      RestIsBlanked(v, rows, b);
    } else {
      CoveredShows(v, rows, b);
      assert DrawOps(drawn, rows) == top + Body(rows);
    }
  }

  lemma {:induction false} PlayClimb(s: Screen)
    requires OnScreen(s) && s.row > 0
    ensures Play([Return, EraseRow, Up(1)], s) == Screen(s.rows[s.row := ""], s.row - 1, 0)
  {
    PlayThree(Return, EraseRow, Up(1), s);
  }

  lemma {:induction false} PlayClear(s: Screen)
    requires OnScreen(s)
    ensures Play([Return, EraseRow], s) == Screen(s.rows[s.row := ""], s.row, 0)
  {
    PlayTwo(Return, EraseRow, s);
  }

  lemma {:induction false} PlayClimbing(n: nat, s: Screen)
    requires OnScreen(s) && n <= s.row
    ensures var t := Play(Climbing(n), s);
            && t.row == s.row - n && |t.rows| == |s.rows| && OnlyChanges(s, t, t.row + 1, s.row + 1)
            && (forall i :: t.row < i <= s.row ==> t.rows[i] == "")
  {
    hide Play, Do;
    if n == 0 {
      PlayNothing(s);
    } else {
      PlayClimb(s);
      PlayConcat([Return, EraseRow, Up(1)], Climbing(n - 1), s);
      PlayClimbing(n - 1, Play([Return, EraseRow, Up(1)], s));
    }
  }

  /** Erasing clears every row of the frame and no other, and leaves the cursor where it began. */
  lemma {:induction false} EraseShows(v: View, s: Screen)
    requires Shows(s, v)
    ensures Shows(Play(EraseOps(|v.frame|), s), v.(frame := []))
  {
    hide Play, Do, Climbing;
    var drawn := |v.frame|;
    if drawn == 0 {
      PlayNothing(s);
      assert v.frame == [];
    } else {
      PlayConcat(Climbing(drawn - 1), [Return, EraseRow], s);
      PlayClimbing(drawn - 1, s);
      PlayClear(Play(Climbing(drawn - 1), s));
    }
  }

  /** What log output makes of the row being written and the rows above it. */
  function Logged(v: View, parts: seq<string>): View
    requires parts != []
    decreases |parts|
  {
    if |parts| == 1 then View(v.above, [], v.tail + parts[0])
    else Logged(View(v.above + [v.tail + parts[0]], [], ""), parts[1..])
  }

  lemma {:induction false} PlayCells(t: string, v: View, s: Screen)
    requires Shows(s, v) && v.frame == []
    ensures Shows(Play([Cells(t)], s), View(v.above, [], v.tail + t))
  {
    PlayOne(Cells(t), s);
    assert v.tail[..|v.tail|] + t + "" == v.tail + t;
  }

  lemma {:induction false} PlayLine(t: string, v: View, s: Screen)
    requires Shows(s, v) && v.frame == []
    ensures Shows(Play([Cells(t), NewLine], s), View(v.above + [v.tail + t], [], ""))
  {
    hide Play, Do;
    assert [Cells(t), NewLine] == [Cells(t)] + [NewLine];
    PlayConcat([Cells(t)], [NewLine], s);
    PlayCells(t, v, s);
    PlayNewLine(Play([Cells(t)], s));
  }

  lemma {:induction false} LogShows(v: View, parts: seq<string>, s: Screen)
    requires Shows(s, v) && v.frame == [] && parts != []
    ensures Shows(Play(LogOps(parts), s), Logged(v, parts))
    decreases |parts|
  {
    assert OnScreen(s);
    hide Play, Do, Shows;
    if |parts| == 1 {
      PlayCells(parts[0], v, s);
    } else {
      PlayConcat([Cells(parts[0]), NewLine], LogOps(parts[1..]), s);
      PlayLine(parts[0], v, s);
      LogShows(View(v.above + [v.tail + parts[0]], [], ""), parts[1..], Play([Cells(parts[0]), NewLine], s));
    }
  }

  lemma {:induction false} BodyGrows(rows: seq<string>, i: nat)
    requires i < |rows|
    ensures Body(rows[..i + 1]) == (if i == 0 then [] else Body(rows[..i]) + [NewLine]) + RowOps(rows[i])
    ensures i == 0 ==> Body(rows[..i]) == []
  {
    assert rows[..i + 1][..i] == rows[..i];
  }

  lemma {:induction false} DrawnOps(drawn: nat, rows: seq<string>)
    ensures var extra := if drawn > |rows| then drawn - |rows| else 0;
            DrawOps(drawn, rows) == (if drawn > 1 then [Up(drawn - 1)] else []) + Body(rows) + Blanking(extra) +
                                    (if extra > 0 then [Up(extra)] else [])
  {
  }

  /** Two frames that are written alike are alike, so skipping an identical write skips nothing. */
  lemma {:induction false} BodyTellsFramesApart(a: seq<string>, b: seq<string>)
    ensures Body(a) == Body(b) <==> a == b
  {
    BodyLength(a);
    BodyLength(b);
    if Body(a) == Body(b) && a != [] {
      var n := |a| - 1;
      var k := |Body(a)| - 3;
      assert Body(a)[k..] == RowOps(a[n]) && Body(b)[k..] == RowOps(b[n]);
      assert Body(a)[k..][1] == Cells(a[n]) && Body(b)[k..][1] == Cells(b[n]);
      if n > 0 {
        assert Body(a)[..k - 1] == Body(a[..n]) && Body(b)[..k - 1] == Body(b[..n]);
        BodyTellsFramesApart(a[..n], b[..n]);
        assert a == a[..n] + [a[n]] && b == b[..n] + [b[n]];
      }
    }
  }

  lemma {:induction false} BodyLength(rows: seq<string>)
    ensures |Body(rows)| == if rows == [] then 0 else 4 * |rows| - 1
  {
    if |rows| > 1 { BodyLength(rows[..|rows| - 1]); }
  }

  // ---- the renderer ----

  datatype Step = Step(name: string, finished: nat, total: nat, failed: nat, running: nat, since: int)

  datatype Event = Event(complete: nat, total: nat, failed: nat, refreshing: string, steps: seq<Step>)

  /** How a line reads, and how it is cut to the window. */
  datatype Look = Look(headline: (Event, int) -> string, stepLine: (Step, int) -> string,
    truncate: (string, int) -> string)

  /** `progressFrame`, each line cut to the window. */
  function Frame(look: Look, ev: Event, start: int, now: int, width: int): seq<string> {
    if ev.total == 0 then []
    else
      [look.truncate(look.headline(ev, now - start), width)] +
      seq(|ev.steps|, i requires 0 <= i < |ev.steps| => look.truncate(look.stepLine(ev.steps[i], now), width))
  }

  /** The rows of a frame, each cut to the window: the headline, timed from the start, and below it one for each
      step, in order; none while there is nothing to count. */
  lemma {:induction false} FrameRows(look: Look, ev: Event, more: Step, start: int, now: int, width: int)
    ensures ev.total == 0 ==> Frame(look, ev, start, now, width) == []
    ensures ev.total > 0 && ev.steps == [] ==>
      Frame(look, ev, start, now, width) == [look.truncate(look.headline(ev, now - start), width)]
    ensures ev.total > 0 ==>
      var rows := Frame(look, ev, start, now, width);
      && |rows| == 1 + |ev.steps| && rows[0] == look.truncate(look.headline(ev, now - start), width)
      && Frame(look, ev.(steps := ev.steps + [more]), start, now, width)[1..] ==
           rows[1..] + [look.truncate(look.stepLine(more, now), width)]
  {
    if ev.total > 0 {
      var rows, longer := Frame(look, ev, start, now, width),
        Frame(look, ev.(steps := ev.steps + [more]), start, now, width);
      assert forall i :: 0 <= i < |ev.steps| ==> longer[1..][i] == rows[1..][i];
    }
  }

  class Terminal {
    var screen: Screen

    constructor (s: Screen)
      ensures screen == s
    {
      screen := s;
    }

    method Write(ops: seq<Op>)
      requires OnScreen(screen)
      modifies this
      ensures screen == Play(ops, old(screen))
    {
      screen := Play(ops, screen);
    }
  }

  /** One call under the renderer's lock. */
  datatype Call =
    | Update(ev: Event, now: int, width: int)
    | Repaint(now: int, width: int)
    | Log(b: string)
    | Done

  /** What the reader sees, and the snapshot a repaint shows. */
  datatype State = State(view: View, last: Event)

  function Drawn(v: View, rows: seq<string>): View {
    if rows == [] then v else View(v.above, rows, "")
  }

  function Next(look: Look, start: int, st: State, c: Call): State {
    match c
    case Update(ev, now, width) => State(Drawn(st.view, Frame(look, ev, start, now, width)), ev)
    case Repaint(now, width) => State(Drawn(st.view, Frame(look, st.last, start, now, width)), st.last)
    case Log(b) => State(Logged(st.view.(frame := []), Split(b, '\n')), st.last)
    case Done => State(st.view.(frame := []), st.last)
  }

  function After(look: Look, start: int, st: State, calls: seq<Call>): State
    decreases |calls|
  {
    if calls == [] then st else After(look, start, Next(look, start, st, calls[0]), calls[1..])
  }

  method WriteBody(lines: seq<string>) returns (body: seq<Op>)
    ensures body == Body(lines)
  {
    hide Body;
    body := [];
    assert Body([]) == [] by { BodyLength([]); }
    for i := 0 to |lines|
      invariant body == Body(lines[..i])
    {
      BodyGrows(lines, i);
      if i > 0 {
        body := body + [NewLine];
      }
      body := body + [Return, Cells(lines[i]), EraseToEnd];
    }
    assert lines[..|lines|] == lines;
  }

  /** Blanks the rows the last frame had and this one does not, and comes back up from them. */
  method BlankRest(b: seq<Op>, extra: nat) returns (r: seq<Op>)
    ensures r == b + Blanking(extra) + (if extra > 0 then [Up(extra)] else [])
  {
    r := b;
    for i := 0 to extra
      invariant r == b + Blanking(i)
    {
      r := r + [NewLine, Return, EraseToEnd];
    }
    if extra > 0 {
      r := r + [Up(extra)];
    }
  }

  class ProgressLine {
    const w: Terminal
    const look: Look
    const start: int
    var drawn: nat
    var last: Event
    var lastFrame: seq<Op>
    /** What the terminal shows. */
    ghost var view: View

    ghost predicate Valid()
      reads this, w
    {
      && Shows(w.screen, view)
      && drawn == |view.frame|
      && lastFrame == Body(view.frame)
    }

    /** A renderer draws below whatever the terminal shows. */
    constructor (w: Terminal, look: Look, start: int, ghost view: View)
      requires Shows(w.screen, view) && view.frame == []
      ensures Valid() && this.w == w && this.look == look && this.start == start
      ensures this.view == view && last.total == 0
    {
      this.w, this.look, this.start := w, look, start;
      drawn, last, lastFrame := 0, Event(0, 0, 0, "", []), [];
      this.view := view;
    }

    method Erase()
      requires Valid()
      modifies this, w
      ensures Valid() && view == old(view).(frame := []) && last == old(last)
    {
      assert OnScreen(w.screen);
      hide Shows, Play;
      if drawn == 0 {
        return;
      }
      EraseShows(view, w.screen);
      var b: seq<Op> := [];
      for i := 0 to drawn - 1
        invariant b + Climbing(drawn - 1 - i) == Climbing(drawn - 1)
      {
        b := b + [Return, EraseRow, Up(1)];
      }
      assert b + Climbing(0) == b;
      b := b + [Return, EraseRow];
      w.Write(b);
      drawn := 0;
      lastFrame := [];
      view := view.(frame := []);
    }

    method Draw(ev: Event, now: int, width: int)
      requires Valid()
      modifies this, w
      ensures Valid() && last == old(last)
      ensures view == Drawn(old(view), Frame(look, ev, start, now, width))
    {
      assert OnScreen(w.screen) && (view.frame != [] ==> view.tail == "");
      hide Shows, Play, Frame, Body, DrawOps;
      var lines := Frame(look, ev, start, now, width);
      if |lines| == 0 {
        return;
      }
      var rows := WriteBody(lines);
      BodyTellsFramesApart(lines, view.frame);
      if rows == lastFrame {
        return;
      }
      var b := if drawn > 1 then [Up(drawn - 1)] else [];
      b := BlankRest(b + rows, if drawn > |lines| then drawn - |lines| else 0);
      assert b == DrawOps(drawn, lines) by { DrawnOps(drawn, lines); }
      Show(b, rows, lines);
    }

    /** Writes a frame and notes what is now drawn. */
    method Show(b: seq<Op>, rows: seq<Op>, lines: seq<string>)
      requires Valid() && lines != [] && b == DrawOps(drawn, lines) && rows == Body(lines)
      modifies this, w
      ensures Valid() && last == old(last) && view == View(old(view).above, lines, "")
    {
      assert OnScreen(w.screen);
      hide Shows, Play, Body, DrawOps;
      DrawShows(view, lines, w.screen);
      w.Write(b);
      lastFrame := rows;
      drawn := |lines|;
      view := View(view.above, lines, "");
    }

    method WriteThrough(b: string)
      requires Valid()
      modifies this, w
      ensures Valid() && State(view, last) == Next(look, start, old(State(view, last)), Log(b))
    {
      Erase();
      assert OnScreen(w.screen);
      hide Shows, Play, Logged, Split;
      var parts := Split(b, '\n');
      LogShows(view, parts, w.screen);
      LoggedHasNoFrame(view, parts);
      w.Write(LogOps(parts));
      view := Logged(view, parts);
    }

    method Update(ev: Event, now: int, width: int)
      requires Valid()
      modifies this, w
      ensures Valid() && State(view, last) == Next(look, start, old(State(view, last)), Call.Update(ev, now, width))
    {
      last := ev;
      Draw(ev, now, width);
    }

    method Repaint(now: int, width: int)
      requires Valid()
      modifies this, w
      ensures Valid() && State(view, last) == Next(look, start, old(State(view, last)), Call.Repaint(now, width))
    {
      if last.total == 0 {
        return;
      }
      Draw(last, now, width);
    }

    method Done()
      requires Valid()
      modifies this, w
      ensures Valid() && State(view, last) == Next(look, start, old(State(view, last)), Call.Done)
    {
      Erase();
    }

    /** Any run of calls, in any order, keeps the terminal showing what the calls amount to. */
    method Serve(calls: seq<Call>)
      requires Valid()
      modifies this, w
      ensures Valid() && State(view, last) == After(look, start, old(State(view, last)), calls)
    {
      ghost var first := State(view, last);
      for i := 0 to |calls|
        invariant Valid() && After(look, start, first, calls) == After(look, start, State(view, last), calls[i..])
      {
        assert calls[i..][1..] == calls[i + 1..];
        match calls[i] {
          case Update(ev, now, width) => Update(ev, now, width);
          case Repaint(now, width) => Repaint(now, width);
          case Log(b) => WriteThrough(b);
          case Done => Done();
        }
      }
    }
  }

  lemma {:induction false} LoggedHasNoFrame(v: View, parts: seq<string>)
    requires parts != []
    ensures Logged(v, parts).frame == []
    decreases |parts|
  {
    if |parts| > 1 { LoggedHasNoFrame(View(v.above + [v.tail + parts[0]], [], ""), parts[1..]); }
  }

  // ---- whole runs ----

  /** Log output that ends its last line, as a logger's does. */
  predicate Terminated(b: string) { b == "" || b[|b| - 1] == '\n' }

  function LogLines(calls: seq<Call>): seq<string> {
    if calls == [] then []
    else (if calls[0].Log? then Lines(calls[0].b) else []) + LogLines(calls[1..])
  }

  /** The lines a text ends. */
  function Lines(b: string): seq<string> {
    var parts := Split(b, '\n');
    parts[..|parts| - 1]
  }

  lemma {:induction false} LoggedParts(v: View, parts: seq<string>)
    requires parts != []
    ensures var r := Logged(v, parts); var n := |parts| - 1;
            && r.above == v.above + (if n == 0 then [] else [v.tail + parts[0]] + parts[1..n])
            && r.tail == if n == 0 then v.tail + parts[n] else parts[n]
    decreases |parts|
  {
    var n := |parts| - 1;
    if n > 0 {
      var u := View(v.above + [v.tail + parts[0]], [], "");
      LoggedParts(u, parts[1..]);
      assert u.tail + parts[1] == parts[1];
      if n > 1 {
        assert parts[1..n] == [parts[1]] + parts[1..][1..n - 1];
      } else {
        assert parts[1..n] == [];
      }
    }
  }

  lemma {:induction false} NothingPending(parts: seq<string>)
    requires |parts| > 1
    ensures ["" + parts[0]] + parts[1..|parts| - 1] == parts[..|parts| - 1]
  {
    assert "" + parts[0] == parts[0];
  }

  lemma {:induction false} TerminatedEndsEmpty(b: string)
    ensures Terminated(b) <==> Split(b, '\n')[|Split(b, '\n')| - 1] == ""
  {
    hide Split;
    LastPart(b);
  }

  lemma {:induction false} LastPart(b: string)
    ensures var last := Split(b, '\n')[|Split(b, '\n')| - 1];
            |last| <= |b| && b[|b| - |last|..] == last && (|last| < |b| ==> b[|b| - |last| - 1] == '\n') &&
              '\n' !in last
  {
    hide Split, Join;
    SplitPartsHaveNoSeparator(b, '\n');
    JoinSplit(b, '\n');
    JoinEndsWithLast(Split(b, '\n'));
  }

  lemma {:induction false} JoinEndsWithLast(parts: seq<string>)
    requires parts != []
    ensures var last := parts[|parts| - 1]; var b := Join(parts, '\n');
            |last| <= |b| && b[|b| - |last|..] == last && (|last| < |b| ==> b[|b| - |last| - 1] == '\n')
  {
    if |parts| > 1 { JoinEndsWithLast(parts[1..]); }
  }

  lemma {:induction false} LogAddsItsLines(look: Look, start: int, st: State, b: string)
    requires st.view.tail == "" && Terminated(b)
    ensures var v := Next(look, start, st, Log(b)).view;
            v.above == st.view.above + Lines(b) && v.tail == "" && v.frame == []
  {
    hide Split, Logged;
    LoggedAtStart(st.view.(frame := []), b);
    TerminatedEndsEmpty(b);
  }

  /** Output written where no row is pending adds its ended lines and leaves its last one pending. */
  lemma {:induction false} LoggedAtStart(v: View, b: string)
    requires v.tail == ""
    ensures var parts := Split(b, '\n');
            Logged(v, parts) == View(v.above + Lines(b), [], parts[|parts| - 1])
  {
    hide Split, Logged;
    var parts := Split(b, '\n');
    LoggedParts(v, parts);
    LoggedHasNoFrame(v, parts);
    var n := |parts| - 1;
    if n == 0 {
      assert parts[..n] == [] && v.above + [] == v.above && "" + parts[0] == parts[0];
    } else {
      NothingPending(parts);
    }
  }

  /** The claim: whatever the order and number of updates, repaints and log writes, the rows the reader
      had and every logged line stand in order, unaltered, above the one frame. */
  lemma {:induction false} LogsStandInOrder(look: Look, start: int, st: State, calls: seq<Call>)
    requires st.view.tail == "" && forall c :: c in calls && c.Log? ==> Terminated(c.b)
    ensures var v := After(look, start, st, calls).view;
            v.above == st.view.above + LogLines(calls) && v.tail == ""
    decreases |calls|
  {
    hide Frame, Split, Logged, Terminated, Lines;
    if calls == [] {
      assert st.view.above + [] == st.view.above;
    } else {
      var c := calls[0];
      var next := Next(look, start, st, c);
      if c.Log? {
        LogAddsItsLines(look, start, st, c.b);
      } else {
        assert next.view.above == st.view.above && next.view.tail == "";
      }
      assert next.view.above == st.view.above + (if c.Log? then Lines(c.b) else []);
      LogsStandInOrder(look, start, next, calls[1..]);
      assert LogLines(calls) == (if c.Log? then Lines(c.b) else []) + LogLines(calls[1..]);
    }
  }

  /** The text a reader sees above the frame. */
  function ShownText(v: View): string { Join(v.above + [v.tail], '\n') }

  /** Everything written to the log. */
  function LogText(calls: seq<Call>): string {
    if calls == [] then "" else (if calls[0].Log? then calls[0].b else "") + LogText(calls[1..])
  }

  predicate Leaves(pending: bool, b: string) { if b == "" then pending else !Terminated(b) }

  /** No frame is drawn while a row is pending: each update or repaint that has something to draw comes
      when what was logged before it, if anything, ended its last line. */
  predicate NonePendingWhenDrawn(pending: bool, total: nat, calls: seq<Call>)
    decreases |calls|
  {
    if calls == [] then true
    else
      match calls[0]
      case Update(ev, _, _) =>
        (pending ==> ev.total == 0) && NonePendingWhenDrawn(pending, ev.total, calls[1..])
      case Repaint(_, _) => (pending ==> total == 0) && NonePendingWhenDrawn(pending, total, calls[1..])
      case Log(b) => NonePendingWhenDrawn(Leaves(pending, b), total, calls[1..])
      case Done => NonePendingWhenDrawn(pending, total, calls[1..])
  }

  lemma {:induction false} JoinGrowsLast(a: seq<string>, x: string, y: string)
    ensures Join(a + [x + y], '\n') == Join(a + [x], '\n') + y
  {
    if a == [] {
      assert [] + [x + y] == [x + y] && [] + [x] == [x];
    } else {
      JoinConcat(a, [x + y], '\n');
      JoinConcat(a, [x], '\n');
    }
  }

  lemma {:induction false} JoinEndsLine(a: seq<string>)
    requires a != []
    ensures Join(a + [""], '\n') == Join(a, '\n') + ['\n']
  {
    JoinConcat(a, [""], '\n');
  }

  lemma {:induction false} LoggedText(v: View, parts: seq<string>)
    requires parts != []
    ensures ShownText(Logged(v, parts)) == ShownText(v) + Join(parts, '\n')
    decreases |parts|
  {
    JoinGrowsLast(v.above, v.tail, parts[0]);
    if |parts| > 1 {
      var u := View(v.above + [v.tail + parts[0]], [], "");
      JoinEndsLine(u.above);
      LoggedText(u, parts[1..]);
      hide Join;
      assert ShownText(u) == ShownText(v) + parts[0] + ['\n'];
    }
  }

  /** Log output is appended to the text as it is, and leaves a row pending or not. */
  lemma {:induction false} LogAppends(v: View, b: string)
    ensures var r := Logged(v, Split(b, '\n'));
            ShownText(r) == ShownText(v) + b && (r.tail != "" <==> Leaves(v.tail != "", b))
  {
    var parts := Split(b, '\n');
    LoggedText(v, parts);
    JoinSplit(b, '\n');
    assert |parts| == 1 ==> parts[0] == b;
    hide Logged, ShownText, Join;
    LoggedParts(v, parts);
    TerminatedEndsEmpty(b);
    if |parts| > 1 { LoneEmpty(b); }
    hide Split, Terminated;
  }

  lemma {:induction false} LoneEmpty(b: string)
    requires |Split(b, '\n')| > 1
    ensures b != ""
  {
  }

  /** Drawing rows leaves the text as it was, or takes from it the pending row. */
  lemma {:induction false} DrawnText(v: View, rows: seq<string>)
    ensures var t := ShownText(Drawn(v, rows));
            if rows == [] || v.tail == "" then t == ShownText(v) else |t| < |ShownText(v)|
  {
    if v.tail != "" { JoinsDiffer(v.above, v.tail); }
  }

  /** The claim, whatever is logged: the text above the frame never grows by more than what was logged,
      and it holds all of it, after what the reader had, exactly when no frame is drawn while a row is
      pending. */
  lemma {:induction false} NothingLostExactly(look: Look, start: int, st: State, calls: seq<Call>)
    ensures var t, all := ShownText(After(look, start, st, calls).view), ShownText(st.view) + LogText(calls);
            && |t| <= |all|
            && (t == all <==> NonePendingWhenDrawn(st.view.tail != "", st.last.total, calls))
    decreases |calls|
  {
    hide Frame, Split, Logged, ShownText, Leaves;
    if calls != [] {
      var c := calls[0];
      var next := Next(look, start, st, c);
      NothingLostExactly(look, start, next, calls[1..]);
      assert !c.Log? ==> LogText(calls) == LogText(calls[1..]);
      match c {
        case Update(ev, now, width) => CallDraws(look, start, st, ev, now, width);
        case Repaint(now, width) => CallDraws(look, start, st, st.last, now, width);
        case Log(b) =>
          LogAppends(st.view.(frame := []), b);
          SameText(st.view, st.view.(frame := []));
          assert ShownText(st.view) + b + LogText(calls[1..]) == ShownText(st.view) + LogText(calls);
        case Done => SameText(st.view, next.view);
      }
    }
  }

  lemma {:induction false} SameText(v: View, u: View)
    requires v.above == u.above && v.tail == u.tail
    ensures ShownText(v) == ShownText(u)
  {
  }

  lemma {:induction false} CallDraws(look: Look, start: int, st: State, ev: Event, now: int, width: int)
    ensures var was, v := ShownText(st.view), Drawn(st.view, Frame(look, ev, start, now, width));
            var t := ShownText(v);
            if ev.total == 0 then v == st.view else v.tail == "" && if st.view.tail == "" then t == was else |t| < |was|
  {
    var rows := Frame(look, ev, start, now, width);
    FrameHasRows(look, ev, start, now, width);
    hide Frame, ShownText;
    DrawnText(st.view, rows);
  }

  /** A whole run on a terminal: once it is done, no frame is left, and what the reader had is followed by
      everything logged exactly when no frame was drawn over a pending row; it is followed by the logged
      lines in order and nothing else when every log write ends its last line, however often the frame was
      drawn, grew, shrank or was erased between. */
  method WholeRun(w: Terminal, look: Look, start: int, calls: seq<Call>, ghost above: seq<string>)
    returns (ghost shown: View)
    requires Shows(w.screen, View(above, [], ""))
    modifies w
    ensures Shows(w.screen, shown) && shown.frame == []
    ensures ShownText(shown) == Join(above + [""], '\n') + LogText(calls) <==> NonePendingWhenDrawn(false, 0, calls)
    ensures (forall c :: c in calls && c.Log? ==> Terminated(c.b)) ==>
      && shown == View(above + LogLines(calls), [], "")
      && above + LogLines(calls) + [""] <= w.screen.rows && AllBlank(w.screen.rows[|above + LogLines(calls)|..])
  {
    hide Shows, Terminated, LogLines, Frame, ShownText;
    var p := new ProgressLine(w, look, start, View(above, [], ""));
    ghost var st := State(p.view, p.last);
    NothingLostExactly(look, start, st, calls);
    if forall c :: c in calls && c.Log? ==> Terminated(c.b) { LogsStandInOrder(look, start, st, calls); }
    p.Serve(calls);
    SameText(p.view, p.view.(frame := []));
    p.Done();
    shown := p.view;
    ShowsExactly(w.screen, shown);
    if forall c :: c in calls && c.Log? ==> Terminated(c.b) { EndsBlank(w.screen.rows, above + LogLines(calls)); }
    assert ShownText(View(above, [], "")) == Join(above + [""], '\n') by { StartText(above); }
  }

  lemma {:induction false} EndsBlank(rows: seq<string>, above: seq<string>)
    requires |above| < |rows| && rows[..|above| + 1] == above + [""] && AllBlank(rows[|above| + 1..])
    ensures above + [""] <= rows && AllBlank(rows[|above|..])
  {
    assert rows[|above|] == (above + [""])[|above|];
    forall i | 0 <= i < |rows[|above|..]| ensures rows[|above|..][i] == "" {
      if i > 0 { assert rows[|above|..][i] == rows[|above| + 1..][i - 1]; }
    }
  }

  lemma {:induction false} StartText(above: seq<string>)
    ensures ShownText(View(above, [], "")) == Join(above + [""], '\n')
  {
  }

  /** The snapshot of the last update, if there was one. */
  function LastSnapshot(ev: Event, calls: seq<Call>): Event
    decreases |calls|
  {
    if calls == [] then ev else LastSnapshot(if calls[0].Update? then calls[0].ev else ev, calls[1..])
  }

  /** The frame after a run ending in an update is that update's, after one ending in a repaint the last
      snapshot's as of then, and after one ending in done or a log write there is none; a snapshot with nothing
      to show leaves what was there. */
  lemma {:induction false} LastFrameShows(look: Look, start: int, st: State, calls: seq<Call>, c: Call)
    ensures var v := After(look, start, st, calls + [c]).view;
            match c
            case Update(ev, now, width) =>
              if ev.total > 0 then v.frame == Frame(look, ev, start, now, width)
              else v == After(look, start, st, calls).view
            case Repaint(now, width) =>
              var ev := LastSnapshot(st.last, calls);
              if ev.total > 0 then v.frame == Frame(look, ev, start, now, width)
              else v == After(look, start, st, calls).view
            case Log(_) => v.frame == []
            case Done => v.frame == []
    decreases |calls|
  {
    if calls == [] {
      assert After(look, start, st, [] + [c]) == Next(look, start, st, c) by { assert [c][1..] == []; }
      if c.Log? { LoggedHasNoFrame(st.view.(frame := []), Split(c.b, '\n')); }
    } else {
      assert (calls + [c])[1..] == calls[1..] + [c];
      hide Frame, Drawn, Logged;
      LastFrameShows(look, start, Next(look, start, st, calls[0]), calls[1..], c);
    }
  }

  /** Output that does not end its last line is not safe: a frame drawn after it takes its row. */
  lemma {:induction false} UnfinishedLineIsOverwritten(look: Look, start: int, now: int, width: int)
    ensures var calls := [Log("a"), Update(Event(0, 1, 0, "", []), now, width)];
            var v := After(look, start, State(View([], [], ""), Event(0, 0, 0, "", [])), calls).view;
            ShownText(v) == "" && LogText(calls) == "a"
  {
    hide Frame, Split, ShownText;
    var ev := Event(0, 1, 0, "", []);
    var st := State(View([], [], ""), Event(0, 0, 0, "", []));
    var calls := [Log("a"), Update(ev, now, width)];
    assert calls[1..] == [Update(ev, now, width)] && calls[1..][1..] == [];
    SplitWhole("a", '\n');
    var logged := Next(look, start, st, Log("a"));
    assert logged == State(View([], [], "a"), st.last);
    FrameHasRows(look, ev, start, now, width);
    assert After(look, start, st, calls) == After(look, start, logged, calls[1..]);
    var v := After(look, start, st, calls).view;
    assert v == View([], Frame(look, ev, start, now, width), "");
    SameText(v, View([], [], ""));
    StartText([]);
    assert LogText(calls[1..]) == "";
  }

  lemma {:induction false} FrameHasRows(look: Look, ev: Event, start: int, now: int, width: int)
    ensures |Frame(look, ev, start, now, width)| == if ev.total == 0 then 0 else 1 + |ev.steps|
  {
  }

  lemma {:induction false} JoinsDiffer(lines: seq<string>, last: string)
    requires last != ""
    ensures |Join(lines + [""], '\n')| < |Join(lines + [last], '\n')|
  {
    if lines != [] {
      assert (lines + [""])[1..] == lines[1..] + [""] && (lines + [last])[1..] == lines[1..] + [last];
      JoinsDiffer(lines[1..], last);
    }
  }
}

/** What a pattern of `path.Match` means, told by its tokens, and why the matcher, which looks for each run of tokens
    at the first place only, finds a match exactly when there is one. */
module GlobMeaning {
  import opened Common
  import opened Globs
  import opened Text

  /** A character, escaped or not; any character but a slash; one of a class of ranges, or of none of them; or a run
      of characters without a slash. */
  datatype Range = Range(lo: char, hi: char, escaped: bool)

  datatype Token =
    | Letter(c: char, escaped: bool)
    | Any
    | Class(negated: bool, ranges: seq<Range>)
    | Star

  // ---- writing ----

  function EndText(c: char, escaped: bool): string { if escaped then ['\\', c] else [c] }

  function RangeText(r: Range): string {
    EndText(r.lo, r.escaped) + if r.lo == r.hi then "" else "-" + EndText(r.hi, r.escaped)
  }

  function RangesText(ranges: seq<Range>): string {
    if ranges == [] then "" else RangeText(ranges[0]) + RangesText(ranges[1..])
  }

  function TokenText(t: Token): string {
    match t
    case Letter(c, escaped) => if escaped then ['\\', c] else [c]
    case Any => "?"
    case Class(negated, ranges) => "[" + (if negated then "^" else "") + RangesText(ranges) + "]"
    case Star => "*"
  }

  function PatternText(ts: seq<Token>): string {
    if ts == [] then "" else TokenText(ts[0]) + PatternText(ts[1..])
  }

  /** What may end a range without an escape. */
  predicate Bare(c: char) { c !in {'-', ']', '\\', '^'} }

  predicate WritableRange(r: Range) { r.escaped || (Bare(r.lo) && Bare(r.hi)) }

  /** A token that can be written so. */
  predicate Writable(t: Token) {
    match t
    case Letter(c, escaped) => escaped || c !in {'*', '?', '[', '\\'}
    case Class(_, ranges) => ranges != [] && forall r :: r in ranges ==> WritableRange(r)
    case _ => true
  }

  // ---- meaning ----

  predicate InRanges(ranges: seq<Range>, c: char) {
    exists i :: 0 <= i < |ranges| && ranges[i].lo <= c <= ranges[i].hi
  }

  predicate Takes(t: Token, c: char) {
    match t
    case Letter(d, _) => c == d
    case Any => c != '/'
    case Class(negated, ranges) => InRanges(ranges, c) != negated
    case Star => false
  }

  /** The pattern matches the whole of a name. */
  predicate Denotes(ts: seq<Token>, name: string)
    decreases |ts|
  {
    if ts == [] then name == ""
    else if ts[0].Star? then exists k :: 0 <= k <= |name| && '/' !in name[..k] && Denotes(ts[1..], name[k..])
    else name != "" && Takes(ts[0], name[0]) && Denotes(ts[1..], name[1..])
  }

  // ---- one run of tokens ----

  ghost predicate Run(ts: seq<Token>) { forall t :: t in ts ==> Writable(t) && !t.Star? }

  /** A run takes the characters of a name from a place on. */
  ghost predicate TakesAt(ts: seq<Token>, name: string, j: nat) {
    j + |ts| <= |name| && forall i :: 0 <= i < |ts| ==> Takes(ts[i], name[j + i])
  }

  lemma {:induction false} ClassReads(ranges: seq<Range>, after: string, c: char, some: bool, hit: bool)
    requires (some || ranges != []) && forall r :: r in ranges ==> WritableRange(r)
    ensures ClassRanges(RangesText(ranges) + "]" + after, c, some, hit) == Some((hit || InRanges(ranges, c), after))
    decreases |ranges|
  {
    if ranges == [] {
      assert "" + "]" + after == "]" + after && ("]" + after)[1..] == after;
    } else {
      var r, rest := ranges[0], ranges[1..];
      var tail := RangesText(rest) + "]" + after;
      assert RangesText(ranges) + "]" + after == RangeText(r) + tail;
      NextIsNoDash(rest, after);
      ClassReads(rest, after, c, true, hit || r.lo <= c <= r.hi);
      RangeReads(r, tail, c, some, hit);
      FirstOrRest(ranges, c);
    }
  }

  lemma {:induction false} FirstOrRest(ranges: seq<Range>, c: char)
    requires ranges != []
    ensures InRanges(ranges, c) <==> ranges[0].lo <= c <= ranges[0].hi || InRanges(ranges[1..], c)
  {
    if i :| 0 <= i < |ranges[1..]| && ranges[1..][i].lo <= c <= ranges[1..][i].hi {
      assert ranges[i + 1] == ranges[1..][i];
    }
    if i :| 0 <= i < |ranges| && ranges[i].lo <= c <= ranges[i].hi {
      if i > 0 { assert ranges[1..][i - 1] == ranges[i]; }
    }
  }

  lemma {:induction false} NextIsNoDash(ranges: seq<Range>, after: string)
    requires forall r :: r in ranges ==> WritableRange(r)
    ensures var tail := RangesText(ranges) + "]" + after; tail != "" && tail[0] != '-'
  {
    if ranges != [] {
      var r := ranges[0];
      assert WritableRange(r) && RangesText(ranges)[0] == if r.escaped then '\\' else r.lo;
    }
  }

  lemma {:induction false} EndReads(c: char, escaped: bool, tail: string)
    requires (escaped || Bare(c)) && tail != ""
    ensures ClassChar(EndText(c, escaped) + tail) == Some((c, tail))
    ensures EndText(c, escaped) + tail != "" && (EndText(c, escaped) + tail)[0] != ']'
  {
    assert (['\\', c] + tail)[1..] == [c] + tail && ([c] + tail)[1..] == tail;
  }

  /** One range of a class. */
  lemma {:induction false} RangeReads(r: Range, tail: string, c: char, some: bool, hit: bool)
    requires WritableRange(r) && tail != "" && tail[0] != '-'
    ensures ClassRanges(RangeText(r) + tail, c, some, hit) == ClassRanges(tail, c, true, hit || r.lo <= c <= r.hi)
  {
    hide ClassChar, EndText;
    if r.lo == r.hi {
      EndReads(r.lo, r.escaped, tail);
      assert RangeText(r) + tail == EndText(r.lo, r.escaped) + tail;
    } else {
      var end := EndText(r.hi, r.escaped) + tail;
      EndReads(r.hi, r.escaped, tail);
      EndReads(r.lo, r.escaped, "-" + end);
      assert RangeText(r) + tail == EndText(r.lo, r.escaped) + ("-" + end);
      assert ("-" + end)[1..] == end;
    }
  }

  lemma {:induction false} LetterReads(c: char, escaped: bool, after: string, name: string)
    requires escaped || c !in {'*', '?', '[', '\\'}
    ensures MatchChunk((if escaped then ['\\', c] else [c]) + after, name) ==
            if name != "" && c == name[0] then MatchChunk(after, name[1..]) else None
  {
    if escaped {
      var chunk := ['\\', c] + after;
      assert chunk[0] == '\\' && chunk[1] == c && chunk[2..] == after;
    } else {
      var chunk := [c] + after;
      assert chunk[0] == c && chunk[1..] == after;
    }
  }

  lemma {:induction false} AnyReads(after: string, name: string)
    ensures MatchChunk("?" + after, name) ==
            if name != "" && name[0] != '/' then MatchChunk(after, name[1..]) else None
  {
    assert ("?" + after)[1..] == after;
  }

  lemma {:induction false} ClassIs(negated: bool, ranges: seq<Range>, after: string, name: string)
    requires ranges != [] && forall r :: r in ranges ==> WritableRange(r)
    ensures MatchChunk("[" + (if negated then "^" else "") + RangesText(ranges) + "]" + after, name) ==
            if name != "" && InRanges(ranges, name[0]) != negated then MatchChunk(after, name[1..]) else None
  {
    var body := RangesText(ranges) + "]" + after;
    StartsBare(ranges);
    if name != "" { ClassReads(ranges, after, name[0], false, false); }
    hide ClassRanges, InRanges, RangesText;
    ClassChunk(negated, RangesText(ranges), after);
  }

  lemma {:induction false} ClassChunk(negated: bool, text: string, after: string)
    requires text != "" && text[0] != '^'
    ensures var chunk := "[" + (if negated then "^" else "") + text + "]" + after;
            && |chunk| > 1 && chunk[0] == '[' && (chunk[1] == '^' <==> negated)
            && (if negated then chunk[2..] else chunk[1..]) == text + "]" + after
  {
    var body := text + "]" + after;
    assert "[" + (if negated then "^" else "") + text + "]" + after == (if negated then "[^" else "[") + body;
    assert ("[^" + body)[2..] == body && ("[" + body)[1..] == body;
  }

  lemma {:induction false} TokenReads(t: Token, after: string, name: string)
    requires Writable(t) && !t.Star?
    ensures MatchChunk(TokenText(t) + after, name) ==
            if name != "" && Takes(t, name[0]) then MatchChunk(after, name[1..]) else None
  {
    hide MatchChunk, InRanges, RangesText;
    match t
    case Letter(c, escaped) => LetterReads(c, escaped, after, name);
    case Any => AnyReads(after, name);
    case Class(negated, ranges) => ClassIs(negated, ranges, after, name);
  }

  lemma {:induction false} StartsBare(ranges: seq<Range>)
    requires ranges != [] && forall r :: r in ranges ==> WritableRange(r)
    ensures RangesText(ranges) != "" && RangesText(ranges)[0] != '^'
  {
    var r := ranges[0];
    assert WritableRange(r) && RangesText(ranges)[0] == if r.escaped then '\\' else r.lo;
  }

  /** A run of tokens is matched character by character, and what follows it on the rest of the name. */
  lemma {:induction false} RunReads(ts: seq<Token>, after: string, name: string)
    requires Run(ts)
    ensures MatchChunk(PatternText(ts) + after, name) ==
            if TakesAt(ts, name, 0) then MatchChunk(after, name[|ts|..]) else None
    decreases |ts|
  {
    hide MatchChunk, TokenText, Writable, Takes;
    if ts == [] {
      assert "" + after == after && name[0..] == name;
    } else {
      var t, rest := ts[0], ts[1..];
      assert t in ts;
      assert PatternText(ts) + after == TokenText(t) + (PatternText(rest) + after);
      TokenReads(t, PatternText(rest) + after, name);
      if name != "" && Takes(t, name[0]) {
        RunReads(rest, after, name[1..]);
        TakesNext(ts, name);
        if |ts| <= |name| { assert name[1..][|rest|..] == name[|ts|..]; }
      }
    }
  }

  lemma {:induction false} TakesNext(ts: seq<Token>, name: string)
    requires ts != [] && name != "" && Takes(ts[0], name[0])
    ensures TakesAt(ts, name, 0) <==> TakesAt(ts[1..], name[1..], 0)
  {
    hide Takes;
    if TakesAt(ts[1..], name[1..], 0) {
      forall i | 0 <= i < |ts| ensures Takes(ts[i], name[i]) {
        if i > 0 { assert Takes(ts[1..][i - 1], name[1..][i - 1]); }
      }
    }
    if TakesAt(ts, name, 0) {
      forall i | 0 <= i < |ts[1..]| ensures Takes(ts[1..][i], name[1..][i]) {
        assert Takes(ts[i + 1], name[i + 1]);
      }
    }
  }

  // ---- where a run ends ----

  lemma {:induction false} EndsPastEnd(c: char, escaped: bool, after: string)
    requires escaped || Bare(c)
    ensures var text := EndText(c, escaped);
            ChunkEnd(text + after, true) == |text| + ChunkEnd(after, true)
  {
    assert (['\\', c] + after)[2..] == after && ([c] + after)[1..] == after;
  }

  lemma {:induction false} EndsPastRange(r: Range, after: string)
    requires WritableRange(r)
    ensures ChunkEnd(RangeText(r) + after, true) == |RangeText(r)| + ChunkEnd(after, true)
  {
    hide EndText;
    if r.lo == r.hi {
      EndsPastEnd(r.lo, r.escaped, after);
      assert RangeText(r) + after == EndText(r.lo, r.escaped) + after;
    } else {
      var end := EndText(r.hi, r.escaped) + after;
      EndsPastEnd(r.hi, r.escaped, after);
      EndsPastEnd(r.lo, r.escaped, "-" + end);
      assert ("-" + end)[1..] == end;
      assert RangeText(r) + after == EndText(r.lo, r.escaped) + ("-" + end);
    }
  }

  /** Past the ranges of a class and its closing bracket. */
  lemma {:induction false} EndsPastClass(ranges: seq<Range>, after: string)
    requires forall r :: r in ranges ==> WritableRange(r)
    ensures ChunkEnd(RangesText(ranges) + "]" + after, true) == |RangesText(ranges)| + 1 + ChunkEnd(after, false)
  {
    hide RangeText;
    if ranges == [] {
      assert "" + "]" + after == "]" + after && ("]" + after)[1..] == after;
    } else {
      var rest := RangesText(ranges[1..]) + "]" + after;
      EndsPastClass(ranges[1..], after);
      EndsPastRange(ranges[0], rest);
      assert RangesText(ranges) + "]" + after == RangeText(ranges[0]) + rest;
    }
  }

  lemma {:induction false} EndsPastLetter(c: char, escaped: bool, after: string)
    requires escaped || c !in {'*', '[', '\\'}
    ensures var text := if escaped then ['\\', c] else [c];
            ChunkEnd(text + after, false) == |text| + ChunkEnd(after, false)
  {
    assert (['\\', c] + after)[2..] == after && ([c] + after)[1..] == after;
  }

  lemma {:induction false} EndsPastOpening(negated: bool, body: string)
    ensures var open := if negated then "[^" else "[";
            ChunkEnd(open + body, false) == |open| + ChunkEnd(body, true)
  {
    assert ("[" + body)[1..] == body && ("[^" + body)[1..] == "^" + body && ("^" + body)[1..] == body;
  }

  lemma {:induction false} EndsPastRanges(negated: bool, ranges: seq<Range>, after: string)
    requires forall r :: r in ranges ==> WritableRange(r)
    ensures var text := "[" + (if negated then "^" else "") + RangesText(ranges) + "]";
            ChunkEnd(text + after, false) == |text| + ChunkEnd(after, false)
  {
    hide RangesText, ChunkEnd;
    EndsPastClass(ranges, after);
    EndsPastOpening(negated, RangesText(ranges) + "]" + after);
    ClassText(negated, RangesText(ranges), after);
  }

  lemma {:induction false} ClassText(negated: bool, ranges: string, after: string)
    ensures var text := "[" + (if negated then "^" else "") + ranges + "]"; var open := if negated then "[^" else "[";
            text + after == open + (ranges + "]" + after) && |text| == |open| + |ranges| + 1
  {
    assert "[" + "^" == "[^" && "[" + "" == "[";
  }

  lemma {:induction false} EndsPastToken(t: Token, after: string)
    requires Writable(t) && !t.Star?
    ensures TokenText(t) != "" && TokenText(t)[0] != '*'
    ensures ChunkEnd(TokenText(t) + after, false) == |TokenText(t)| + ChunkEnd(after, false)
  {
    hide ChunkEnd, RangesText;
    match t
    case Letter(c, escaped) => EndsPastLetter(c, escaped, after);
    case Any => EndsPastLetter('?', false, after);
    case Class(negated, ranges) => EndsPastRanges(negated, ranges, after);
  }

  /** A run of tokens is the chunk the matcher reads, up to the next star. */
  lemma {:induction false} ChunkIsRun(ts: seq<Token>, after: string)
    requires Run(ts) && (after == "" || after[0] == '*')
    ensures ChunkEnd(PatternText(ts) + after, false) == |PatternText(ts)|
    ensures ts != [] ==> PatternText(ts) != "" && PatternText(ts)[0] != '*'
  {
    hide TokenText, Writable;
    if ts == [] {
      assert "" + after == after;
    } else {
      var t, rest := ts[0], ts[1..];
      assert t in ts;
      assert PatternText(ts) + after == TokenText(t) + (PatternText(rest) + after);
      EndsPastToken(t, PatternText(rest) + after);
      ChunkIsRun(rest, after);
    }
  }

  // ---- past a star ----

  /** A run stands at a place, past no slash, and at the end where it must. */
  ghost predicate Stands(ts: seq<Token>, last: bool, name: string, j: nat) {
    TakesAt(ts, name, j) && '/' !in name[..j] && (last ==> j + |ts| == |name|)
  }

  lemma {:induction false} StandsNext(ts: seq<Token>, last: bool, name: string, j: nat)
    requires name != "" && name[0] != '/'
    ensures Stands(ts, last, name[1..], j) <==> Stands(ts, last, name, j + 1)
  {
    hide Takes;
    if j + 1 <= |name| {
      assert name[..j + 1] == [name[0]] + name[1..][..j];
    }
    if TakesAt(ts, name, j + 1) {
      forall i | 0 <= i < |ts| ensures Takes(ts[i], name[1..][j + i]) {
        assert Takes(ts[i], name[j + 1 + i]);
      }
    }
    if TakesAt(ts, name[1..], j) {
      forall i | 0 <= i < |ts| ensures Takes(ts[i], name[j + 1 + i]) {
        assert Takes(ts[i], name[1..][j + i]);
      }
    }
  }

  /** Past a star the matcher finds the first place a run stands, and fails when it stands nowhere. */
  lemma {:induction false} FirstStand(ts: seq<Token>, last: bool, name: string) returns (j: nat)
    requires Run(ts)
    ensures var found := Skipping(PatternText(ts), last, name);
            if found.Some?
            then Stands(ts, last, name, j) && found.value == name[j + |ts|..] && forall i: nat ::
                i < j ==> !Stands(ts, last, name, i)
            else forall i: nat :: !Stands(ts, last, name, i)
    decreases |name|
  {
    hide MatchChunk, TakesAt;
    RunReads(ts, "", name);
    assert PatternText(ts) + "" == PatternText(ts);
    RunLeaves(ts, name);
    j := 0;
    var here := MatchChunk(PatternText(ts), name);
    if here.Some? && (here.value == "" || !last) {
      assert Stands(ts, last, name, 0);
    } else {
      assert !Stands(ts, last, name, 0);
      if name == "" || name[0] == '/' {
        NowhereElse(ts, last, name);
      } else {
        var k := FirstStand(ts, last, name[1..]);
        j := k + 1;
        forall i: nat ensures Stands(ts, last, name[1..], i) <==> Stands(ts, last, name, i + 1) {
          StandsNext(ts, last, name, i);
        }
        forall i: nat | i > 0 && Stands(ts, last, name, i) ensures Stands(ts, last, name[1..], i - 1) {
          assert Stands(ts, last, name, (i - 1) + 1);
        }
        if Stands(ts, last, name, j) { RestOfRest(ts, name, k); }
      }
    }
  }

  lemma {:induction false} RestOfRest(ts: seq<Token>, name: string, k: nat)
    requires name != "" && TakesAt(ts, name, k + 1)
    ensures k + 1 + |ts| <= |name| && name[1..][k + |ts|..] == name[k + 1 + |ts|..]
  {
  }

  lemma {:induction false} RunLeaves(ts: seq<Token>, name: string)
    ensures TakesAt(ts, name, 0) ==>
      |ts| <= |name| && MatchChunk("", name[|ts|..]) == Some(name[|ts|..]) && (name[|ts|..] == "" <==> |ts| == |name|)
  {
  }

  lemma {:induction false} NowhereElse(ts: seq<Token>, last: bool, name: string)
    requires name == "" || name[0] == '/'
    ensures forall i: nat :: i > 0 ==> !Stands(ts, last, name, i)
  {
    forall i: nat | i > 0 ensures !Stands(ts, last, name, i) {
      if i <= |name| { assert name[..i][0] == name[0]; }
    }
  }

  // ---- a slash is taken by a slash alone ----

  /** No class takes a slash. */
  predicate Sound(t: Token) { t.Class? ==> !Takes(t, '/') }

  ghost predicate Readable(ts: seq<Token>) { forall t :: t in ts ==> Writable(t) && Sound(t) }

  lemma {:induction false} Before(name: string, n: nat)
    requires n <= |name|
    ensures forall i :: 0 <= i < n ==> name[i] in name[..n]
  {
    assert forall i :: 0 <= i < n ==> name[..n][i] == name[i];
  }

  /** A run that stands at two places, past no slash, takes none. */
  lemma {:induction false} TakesNoSlash(ts: seq<Token>, name: string, j: nat, later: nat, i: nat)
    requires Readable(ts) && j < later && i < |ts|
    requires TakesAt(ts, name, j) && TakesAt(ts, name, later) && '/' !in name[..later]
    ensures !Takes(ts[i], '/')
    decreases i
  {
    hide InRanges;
    assert ts[i] in ts;
    if Takes(ts[i], '/') && !ts[i].Class? {
      Before(name, later);
      var k := i - (later - j);
      assert later + k == j + i && Takes(ts[k], name[later + k]);
      TakesNoSlash(ts, name, j, later, k);
    }
  }

  lemma {:induction false} NoSlashBetween(ts: seq<Token>, name: string, j: nat, later: nat)
    requires Readable(ts) && j <= later
    requires TakesAt(ts, name, j) && TakesAt(ts, name, later) && '/' !in name[..later]
    ensures '/' !in name[j + |ts|..][..later - j]
  {
    hide Takes;
    var between := name[j + |ts|..][..later - j];
    forall q | 0 <= q < |between| ensures between[q] != '/' {
      var at := j + |ts| + q;
      assert between[q] == name[at];
      if at < later {
        assert name[..later][at] == name[at];
      } else {
        TakesNoSlash(ts, name, j, later, at - later);
        assert Takes(ts[at - later], name[at]);
      }
    }
  }

  // ---- stars ----

  function LeadingStars(ts: seq<Token>): (n: nat)
    ensures n <= |ts| && (n < |ts| ==> !ts[n].Star?) && (n > 0 <==> ts != [] && ts[0].Star?)
  {
    if ts != [] && ts[0].Star? then 1 + LeadingStars(ts[1..]) else 0
  }

  function RunLength(ts: seq<Token>): (n: nat)
    ensures n <= |ts| && (forall i :: 0 <= i < n ==> !ts[i].Star?) && (n < |ts| ==> ts[n].Star?)
    ensures ts != [] && !ts[0].Star? ==> n > 0
  {
    if ts != [] && !ts[0].Star? then 1 + RunLength(ts[1..]) else 0
  }

  /** A star may take more of a name, as long as that holds no slash. */
  lemma {:induction false} StarGrows(ts: seq<Token>, name: string, d: nat)
    requires ts != [] && ts[0].Star? && d <= |name| && '/' !in name[..d] && Denotes(ts, name[d..])
    ensures Denotes(ts, name)
  {
    var k :| 0 <= k <= |name[d..]| && '/' !in name[d..][..k] && Denotes(ts[1..], name[d..][k..]);
    assert name[..d + k] == name[..d] + name[d..][..k] && name[d + k..] == name[d..][k..];
  }

  ghost predicate StartsAt(rest: seq<Token>, name: string, j: nat) {
    j <= |name| && '/' !in name[..j] && Denotes(rest, name[j..])
  }

  lemma {:induction false} StarSplits(ts: seq<Token>, name: string)
    requires ts != [] && ts[0].Star?
    ensures Denotes(ts, name) <==> exists k: nat :: StartsAt(ts[1..], name, k)
  {
    if Denotes(ts, name) {
      var k :| 0 <= k <= |name| && '/' !in name[..k] && Denotes(ts[1..], name[k..]);
      assert StartsAt(ts[1..], name, k);
    }
  }

  lemma {:induction false} StartsLater(rest: seq<Token>, name: string, k: nat, j: nat)
    requires k <= |name| && '/' !in name[..k] && StartsAt(rest, name[k..], j)
    ensures StartsAt(rest, name, k + j)
  {
    assert name[..k + j] == name[..k] + name[k..][..j] && name[k + j..] == name[k..][j..];
  }

  lemma {:induction false} StartsHere(rest: seq<Token>, name: string)
    requires Denotes(rest, name)
    ensures StartsAt(rest, name, 0)
  {
    assert name[..0] == "" && name[0..] == name;
  }

  /** Any number of stars is one. */
  lemma {:induction false} StarsDenote(ts: seq<Token>, name: string)
    requires ts != [] && ts[0].Star?
    ensures Denotes(ts, name) <==> exists j: nat :: StartsAt(ts[LeadingStars(ts)..], name, j)
    decreases |ts|
  {
    var next, rest := ts[1..], ts[LeadingStars(ts)..];
    StarSplits(ts, name);
    StarsAfter(ts);
    hide Denotes, LeadingStars;
    if next != [] && next[0].Star? {
      if k: nat :| StartsAt(next, name, k) {
        StarsDenote(next, name[k..]);
        var j: nat :| StartsAt(rest, name[k..], j);
        StartsLater(rest, name, k, j);
      }
      if j: nat :| StartsAt(rest, name, j) {
        StarsDenote(next, name);
        StartsHere(next, name);
      }
    }
  }

  lemma {:induction false} StarsAfter(ts: seq<Token>)
    requires ts != [] && ts[0].Star?
    ensures var next := ts[1..];
            ts[LeadingStars(ts)..] == if next != [] && next[0].Star? then next[LeadingStars(next)..] else next
  {
  }

  lemma {:induction false} RunDenotes(run: seq<Token>, rest: seq<Token>, name: string)
    requires Run(run)
    ensures Denotes(run + rest, name) <==> TakesAt(run, name, 0) && Denotes(rest, name[|run|..])
    decreases |run|
  {
    hide Takes;
    if run == [] {
      assert run + rest == rest && name[0..] == name;
    } else {
      assert run[0] in run && (run + rest)[0] == run[0] && (run + rest)[1..] == run[1..] + rest;
      if name != "" && Takes(run[0], name[0]) {
        RunDenotes(run[1..], rest, name[1..]);
        TakesNext(run, name);
        if |run| <= |name| { assert name[1..][|run[1..]|..] == name[|run|..]; }
      }
    }
  }

  // ---- reading a pattern ----

  lemma {:induction false} TextConcat(a: seq<Token>, b: seq<Token>)
    ensures PatternText(a + b) == PatternText(a) + PatternText(b)
  {
    hide TokenText;
    if a == [] {
      assert a + b == b;
    } else {
      assert (a + b)[1..] == a[1..] + b;
      TextConcat(a[1..], b);
    }
  }

  lemma {:induction false} StarsRead(ts: seq<Token>)
    requires AllWritable(ts)
    ensures var k := LeadingStars(ts);
            Stars(PatternText(ts)) == k && PatternText(ts)[k..] == PatternText(ts[k..])
  {
    if ts != [] {
      var t := ts[0];
      assert t in ts;
      if t.Star? {
        StarsRead(ts[1..]);
        var text := PatternText(ts);
        assert text == "*" + PatternText(ts[1..]) && text[1..] == PatternText(ts[1..]);
        assert ts[1..][LeadingStars(ts[1..])..] == ts[LeadingStars(ts)..];
      } else {
        EndsPastToken(t, "");
      }
    }
  }

  lemma {:induction false} TextOfRest(rest: seq<Token>)
    requires rest != [] ==> rest[0].Star?
    ensures PatternText(rest) == "" <==> rest == []
    ensures rest != [] ==> PatternText(rest)[0] == '*'
  {
  }

  /** A pattern of one group: stars, a run, and the rest, which begins with a star. */
  ghost predicate Grouped(ts: seq<Token>, k: nat, run: seq<Token>, rest: seq<Token>) {
    && k <= |ts| && k == LeadingStars(ts) && ts[k..] == run + rest && Run(run)
    && (rest != [] ==> rest[0].Star?) && (run == [] ==> rest == [])
  }

  lemma {:induction false} PartsOf(ts: seq<Token>, k: nat, m: nat)
    requires k + m <= |ts|
    ensures ts[k..] == ts[k..k + m] + ts[k + m..]
    ensures forall t :: t in ts[k..k + m] || t in ts[k + m..] ==> t in ts
  {
  }

  lemma {:induction false} InGroup(ts: seq<Token>) returns (k: nat, run: seq<Token>, rest: seq<Token>)
    requires AllWritable(ts)
    ensures Grouped(ts, k, run, rest) && (ts != [] ==> |rest| < |ts|)
    ensures forall t :: t in run || t in rest ==> t in ts
  {
    hide Writable, LeadingStars, RunLength;
    k := LeadingStars(ts);
    var body := ts[k..];
    var m := RunLength(body);
    PartsOf(ts, k, m);
    run, rest := ts[k..k + m], ts[k + m..];
    assert forall i :: 0 <= i < m ==> body[i] == run[i];
    assert k + m < |ts| ==> body[m] == rest[0];
    assert k < |ts| ==> body[0] == ts[k];
  }

  /** What the matcher does with one group. */
  lemma {:induction false} ReadsGroup(ts: seq<Token>, k: nat, run: seq<Token>, rest: seq<Token>, name: string)
    requires ts != [] && AllWritable(ts) && Grouped(ts, k, run, rest)
    ensures PathMatch(PatternText(ts), name) <==>
      if k > 0 && run == [] then '/' !in name
      else if k == 0 then
        var here := MatchChunk(PatternText(run), name);
        here.Some? && (here.value == "" || rest != []) && PathMatch(PatternText(rest), here.value)
      else
        var there := Skipping(PatternText(run), rest == [], name);
        there.Some? && PathMatch(PatternText(rest), there.value)
  {
    StarsRead(ts);
    TextConcat(run, rest);
    TextOfRest(rest);
    ChunkIsRun(run, PatternText(rest));
    hide MatchChunk, Skipping, ChunkEnd, Stars, TokenText, Writable, RunLength;
    var text := PatternText(ts);
    NotEmpty(ts);
    var body := text[k..];
    assert body == PatternText(run) + PatternText(rest);
    assert body[..|PatternText(run)|] == PatternText(run) && body[|PatternText(run)|..] == PatternText(rest);
  }

  lemma {:induction false} NotEmpty(ts: seq<Token>)
    requires ts != [] && Writable(ts[0])
    ensures PatternText(ts) != ""
  {
    if !ts[0].Star? { EndsPastToken(ts[0], ""); }
  }

  // ---- the matcher is right ----

  /** The matcher accepts no name a pattern does not mean; and where none of the pattern's classes takes a slash it
      accepts every name the pattern means: the first place each run stands will do. */
  lemma {:induction false} MatchIsMeaning(ts: seq<Token>, name: string)
    requires AllWritable(ts)
    ensures PathMatch(PatternText(ts), name) ==> Denotes(ts, name)
    ensures Readable(ts) && Denotes(ts, name) ==> PathMatch(PatternText(ts), name)
    decreases |ts|
  {
    if ts != [] {
      var k, run, rest := InGroup(ts);
      ReadsGroup(ts, k, run, rest, name);
      hide PathMatch, MatchChunk, Skipping, PatternText, Writable, Sound;
      if k == 0 {
        assert ts == run + rest by { assert ts[0..] == ts; }
        RunReads(run, "", name);
        assert PatternText(run) + "" == PatternText(run);
        RunLeaves(run, name);
        RunDenotes(run, rest, name);
        if TakesAt(run, name, 0) { MatchIsMeaning(rest, name[|run|..]); }
      } else if run == [] {
        OnlyStars(ts, name);
      } else {
        PastStars(ts, k, run, rest, name);
      }
    }
  }

  ghost predicate AllWritable(ts: seq<Token>) { forall t :: t in ts ==> Writable(t) }

  lemma {:induction false} OnlyStars(ts: seq<Token>, name: string)
    requires ts != [] && LeadingStars(ts) == |ts|
    ensures Denotes(ts, name) <==> '/' !in name
  {
    StarsDenote(ts, name);
    assert ts[|ts|..] == [];
    assert name[..|name|] == name && name[|name|..] == "";
    if '/' !in name { assert StartsAt([], name, |name|); }
  }

  /** The last run, past a star, is looked for at the end. */
  lemma {:induction false} LastRun(run: seq<Token>, name: string)
    requires Run(run)
    ensures var there := Skipping(PatternText(run), true, name);
            (there.Some? && PathMatch(PatternText([]), there.value)) <==>
            exists j: nat :: StartsAt(run + [], name, j)
  {
    var first := FirstStand(run, true, name);
    hide Skipping, PatternText, StartsAt, TakesAt;
    forall j: nat ensures StartsAt(run + [], name, j) <==> Stands(run, true, name, j) {
      StartsStands(run, [], name, j);
      StandsLast(run, name, j);
    }
    NothingMore();
    StandsLast(run, name, first);
  }

  lemma {:induction false} StandsLast(run: seq<Token>, name: string, j: nat)
    ensures Stands(run, true, name, j) <==> Stands(run, false, name, j) && name[j + |run|..] == ""
  {
  }

  lemma {:induction false} NothingMore()
    ensures PatternText([]) == "" && PathMatch("", "") && forall v :: Denotes([], v) <==> v == ""
  {
  }

  /** A run before another star: the first place it stands will do. */
  lemma {:induction false} MiddleRun(run: seq<Token>, rest: seq<Token>, name: string)
    requires Run(run) && rest != [] && rest[0].Star?
    requires forall v :: PathMatch(PatternText(rest), v) ==> Denotes(rest, v)
    ensures var there := Skipping(PatternText(run), false, name);
            && (there.Some? && PathMatch(PatternText(rest), there.value) ==>
                  exists j: nat :: StartsAt(run + rest, name, j))
            && (Readable(run) && (forall v :: Denotes(rest, v) ==> PathMatch(PatternText(rest), v)) &&
                (exists j: nat :: StartsAt(run + rest, name, j)) ==>
                  there.Some? && PathMatch(PatternText(rest), there.value))
  {
    var first := FirstStand(run, false, name);
    hide Skipping, PatternText, StartsAt, PathMatch, Denotes, TakesAt, Readable, Run;
    forall j: nat
      ensures StartsAt(run + rest, name, j) <==> Stands(run, false, name, j) && Denotes(rest, name[j + |run|..])
    {
      StartsStands(run, rest, name, j);
    }
    forall j: nat | Stands(run, false, name, j) && first <= j && Stands(run, false, name, first)
      ensures Readable(run) && Denotes(rest, name[j + |run|..]) ==> Denotes(rest, name[first + |run|..])
    {
      if Readable(run) && Denotes(rest, name[j + |run|..]) { LaterIsNoBetter(run, rest, name, first, j); }
    }
    hide Stands;
    assert StartsAt(run + rest, name, first) ==> Denotes(rest, name[first + |run|..]);
  }

  /** A group that begins with a star. */
  lemma {:induction false} PastStars(ts: seq<Token>, k: nat, run: seq<Token>, rest: seq<Token>, name: string)
    requires AllWritable(ts) && Grouped(ts, k, run, rest) && k > 0 && run != [] && |rest| < |ts|
    requires forall t :: t in run || t in rest ==> t in ts
    ensures var there := Skipping(PatternText(run), rest == [], name);
            var matched := there.Some? && PathMatch(PatternText(rest), there.value);
            (matched ==> Denotes(ts, name)) && (Readable(ts) && Denotes(ts, name) ==> matched)
    decreases |ts|, 0
  {
    StarsDenote(ts, name);
    assert AllWritable(rest) && (Readable(ts) ==> Readable(run) && Readable(rest));
    assert ts[LeadingStars(ts)..] == run + rest;
    hide PathMatch, Denotes, Skipping, PatternText, StartsAt, Readable, Run, LeadingStars, AllWritable;
    if rest == [] {
      LastRun(run, name);
    } else {
      forall v
        ensures PathMatch(PatternText(rest), v) ==> Denotes(rest, v)
        ensures Readable(rest) && Denotes(rest, v) ==> PathMatch(PatternText(rest), v)
      {
        MatchIsMeaning(rest, v);
      }
      MiddleRun(run, rest, name);
    }
  }

  lemma {:induction false} StartsStands(run: seq<Token>, rest: seq<Token>, name: string, j: nat)
    requires Run(run)
    ensures StartsAt(run + rest, name, j) <==>
      Stands(run, false, name, j) && Denotes(rest, name[j + |run|..])
  {
    hide Takes, Denotes;
    if j <= |name| {
      RunDenotes(run, rest, name[j..]);
      assert TakesAt(run, name[j..], 0) <==> TakesAt(run, name, j) by { TakesFrom(run, name, j); }
      if TakesAt(run, name, j) { assert name[j..][|run|..] == name[j + |run|..]; }
    }
  }

  lemma {:induction false} TakesFrom(run: seq<Token>, name: string, j: nat)
    requires j <= |name|
    ensures TakesAt(run, name[j..], 0) <==> TakesAt(run, name, j)
  {
    hide Takes;
    if TakesAt(run, name[j..], 0) {
      forall i | 0 <= i < |run| ensures Takes(run[i], name[j + i]) {
        assert Takes(run[i], name[j..][0 + i]);
      }
    }
    if TakesAt(run, name, j) {
      forall i | 0 <= i < |run| ensures Takes(run[i], name[j..][0 + i]) {
        assert Takes(run[i], name[j + i]);
      }
    }
  }

  /** What follows a run can be matched past its first place if past any. */
  lemma {:induction false} LaterIsNoBetter(run: seq<Token>, rest: seq<Token>, name: string, first: nat, later: nat)
    requires Readable(run) && rest != [] && rest[0].Star? && first <= later
    requires Stands(run, false, name, first) && Stands(run, false, name, later)
    requires Denotes(rest, name[later + |run|..])
    ensures Denotes(rest, name[first + |run|..])
  {
    hide Takes, Denotes, Writable, Sound;
    NoSlashBetween(run, name, first, later);
    assert name[first + |run|..][later - first..] == name[later + |run|..];
    StarGrows(rest, name[first + |run|..], later - first);
  }

  const MISSED := [Star, Class(true, [Range('a', 'a', false)]), Star, Letter('b', false)]

  lemma {:induction false} MissedMeans()
    ensures Denotes(MISSED, "x/b")
  {
    var b, star, notA := MISSED[3], MISSED[2], MISSED[1];
    assert "b"[..0] == "" && "b"[0..] == "b" && "b"[1..] == "" && [b][1..] == [];
    assert Denotes([b], "b");
    assert [star, b][1..] == [b] && Denotes([star, b], "b");
    assert !InRanges(notA.ranges, '/');
    assert "/b"[1..] == "b" && [notA, star, b][1..] == [star, b];
    assert Denotes([notA, star, b], "/b");
    assert "x/b"[1..] == "/b" && '/' !in "x/b"[..1] && MISSED[1..] == [notA, star, b];
  }

  lemma {:induction false} MissedText()
    ensures PatternText(MISSED) == "*[^a]*b"
  {
    assert MISSED[1..] == [MISSED[1], MISSED[2], MISSED[3]] && MISSED[1..][1..] == [MISSED[2], MISSED[3]];
    assert [MISSED[2], MISSED[3]][1..] == [MISSED[3]] && [MISSED[3]][1..] == [];
    assert RangesText(MISSED[1].ranges) == "a" by { assert MISSED[1].ranges[1..] == []; }
  }

  lemma {:induction false} MissedGroup()
    ensures AllWritable(MISSED) && Grouped(MISSED, 1, [MISSED[1]], [MISSED[2], MISSED[3]])
  {
    assert MISSED[1..] == [MISSED[1]] + [MISSED[2], MISSED[3]];
    assert LeadingStars(MISSED) == 1 by { assert !MISSED[1..][0].Star?; }
  }

  /** The class takes the `x`, and the rest means no name that begins with a slash. */
  lemma {:induction false} MissedFails()
    ensures !PathMatch(PatternText(MISSED), "x/b")
  {
    var run, rest, name := [MISSED[1]], [MISSED[2], MISSED[3]], "x/b";
    MissedGroup();
    ReadsGroup(MISSED, 1, run, rest, name);
    RunReads(run, "", name);
    RunLeaves(run, name);
    assert TakesAt(run, name, 0) by { assert !InRanges(MISSED[1].ranges, 'x'); }
    assert name[|run|..] == "/b" && PatternText(run) + "" == PatternText(run);
    MatchIsMeaning(rest, "/b");
    assert !Denotes(rest, "/b") by {
      assert rest[1..] == [MISSED[3]] && "/b"[0] == '/';
      forall k | 0 < k <= 2 ensures '/' in "/b"[..k] {
        assert "/b"[..k][0] == '/';
      }
      assert "/b"[0..] == "/b";
    }
    hide PathMatch, PatternText, Denotes, MatchChunk;
  }

  /** Where a class takes a slash the matcher misses names: `*[^a]*b` means `x/b`, the class taking the slash, but the
      first character the class takes is the `x`, and no star takes the slash that is left. */
  lemma {:induction false} ClassTakesASlash()
    ensures PatternText(MISSED) == "*[^a]*b" && Denotes(MISSED, "x/b") && !PathMatch("*[^a]*b", "x/b")
  {
    MissedMeans();
    MissedText();
    MissedFails();
    hide *;
  }

  /** What is no pattern matches nothing: a class that is not closed, that is empty or begins with a dash, and an
      escape with nothing after it. */
  lemma {:induction false} MalformedMatchesNothing(s: string, name: string)
    ensures ']' !in s || s[0] in {']', '-'} ==> MatchChunk("[" + s, name).None?
    ensures MatchChunk("\\", name).None?
  {
    var chunk := "[" + s;
    assert chunk[1..] == s && (s != "" ==> chunk[1] == s[0] && chunk[2..] == s[1..]);
    if name != "" && ']' !in s {
      NeverCloses(s, name[0], false, false);
      if s != "" { NeverCloses(s[1..], name[0], false, false); }
    }
  }

  lemma {:induction false} NeverCloses(s: string, c: char, some: bool, hit: bool)
    requires ']' !in s
    ensures ClassRanges(s, c, some, hit).None?
    decreases |s|
  {
    var lo := ClassChar(s);
    if lo.Some? {
      CharLeaves(s);
      var rest := lo.value.1;
      if rest[0] != '-' {
        NeverCloses(rest, c, true, hit || c == lo.value.0);
      } else {
        var hi := ClassChar(rest[1..]);
        if hi.Some? {
          CharLeaves(rest[1..]);
          NeverCloses(hi.value.1, c, true, hit || lo.value.0 <= c <= hi.value.0);
        }
      }
    }
  }

  lemma {:induction false} CharLeaves(s: string)
    requires ClassChar(s).Some?
    ensures ']' !in s ==> ']' !in ClassChar(s).value.1
  {
  }

  // ---- ** ----

  /** A pattern matches a name from one of its segments on. */
  ghost predicate FromSegment(pattern: string, name: string, i: nat) {
    i <= |name| && (i > 0 ==> name[i - 1] == '/') && GlobMatch(pattern, name[i..])
  }

  lemma {:induction false} SegmentNext(pattern: string, name: string, k: nat, i: nat)
    requires k < |name| && name[k] == '/'
    ensures FromSegment(pattern, name[k + 1..], i) <==> FromSegment(pattern, name, k + 1 + i)
  {
    hide GlobMatch;
    if k + 1 + i <= |name| { assert name[k + 1..][i..] == name[k + 1 + i..]; }
  }

  lemma {:induction false} AnywhereIs(tail: string, name: string)
    ensures Anywhere(tail, name) <==> exists i: nat :: FromSegment(tail, name, i)
    decreases |name|
  {
    hide GlobMatch;
    var k := FirstSlash(name);
    assert name[0..] == name;
    if GlobMatch(tail, name) { assert FromSegment(tail, name, 0); }
    if k < |name| {
      var after := name[k + 1..];
      AnywhereIs(tail, after);
      if i: nat :| FromSegment(tail, after, i) { SegmentNext(tail, name, k, i); }
    }
    forall i: nat | 0 < i && FromSegment(tail, name, i)
      ensures k < i && FromSegment(tail, name[k + 1..], i - (k + 1))
    {
      NoLaterThan(name, i - 1);
      SegmentNext(tail, name, k, i - (k + 1));
    }
  }

  /** What is left of a name under a head. */
  predicate LiesUnder(head: string, name: string, rest: string) {
    if head == "" then rest == name else name == head + "/" + rest || (name == head && rest == "")
  }

  lemma {:induction false} UnderExactly(head: string, name: string, rest: string)
    ensures Under(head, name) == Some(rest) <==> LiesUnder(head, name, rest)
  {
    if head != "" {
      UnderIs(head, rest);
      if head + "/" <= name {
        var r := name[|head| + 1..];
        assert name == head + "/" + r;
        UnderIs(head, r);
        assert name == head + "/" + rest ==> rest == r;
      } else if name == head {
        assert TrimPrefix("", "/") == "" && name[|head|..] == "";
      }
    }
  }

  function DeepPattern(head: string, tail: string): string {
    (if head == "" then "" else head + "/") + "**" + (if tail == "" then "" else "/" + tail)
  }

  lemma {:induction false} DeepParts(head: string, tail: string)
    requires DoubleStar(head) == |head| && (head != "" ==> head[|head| - 1] != '/') && (tail != "" ==> tail[0] != '/')
    ensures var p := DeepPattern(head, tail);
            DoubleStar(p) < |p| && Head(p) == head && Tail(p) == tail
  {
    var pre, post := if head == "" then "" else head + "/", if tail == "" then "" else "/" + tail;
    var p := DeepPattern(head, tail);
    var mid := "**" + post;
    assert p == pre + mid && DoubleStar(mid) == 0;
    if head == "" {
      assert p == mid;
    } else {
      DoubleStarUnder(head, mid);
      assert p == head + "/" + mid;
    }
    assert p[..|pre|] == pre && p[|pre| + 2..] == post;
    hide DoubleStar;
    if head != "" {
      EndsWithSlash(pre);
      assert pre[..|pre| - 1] == head;
    }
    assert tail != "" ==> post[1..] == tail;
  }

  /** What `**` means between a head and a tail: the name is the head, or lies under it, and the tail matches what is
      left from one of its segments on; with no tail anything under the head, and the head itself. */
  lemma {:induction false} DoubleStarMeans(head: string, tail: string, name: string)
    requires DoubleStar(head) == |head| && (head != "" ==> head[|head| - 1] != '/') && (tail != "" ==> tail[0] != '/')
    ensures GlobMatch(DeepPattern(head, tail), name) <==>
      exists rest ::
        LiesUnder(head, name, rest) && (tail == "" || exists i: nat :: FromSegment(tail, rest, i))
  {
    var p := DeepPattern(head, tail);
    DeepParts(head, tail);
    GlobParts(p, name);
    hide GlobMatch, Anywhere, Under, LiesUnder, Head, Tail, DoubleStar, DeepPattern, FromSegment;
    forall rest ensures Under(head, name) == Some(rest) <==> LiesUnder(head, name, rest) {
      UnderExactly(head, name, rest);
    }
    if Under(head, name).Some? { AnywhereIs(tail, Under(head, name).value); }
  }
}

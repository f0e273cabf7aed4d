/** Greedy word wrap: it keeps the words, keeps to the width where a line has more than one, and uses
    as few lines as any arrangement that does. */
module Wrap {
  import opened Text

  /** `strings.Fields`, with the word being read so far. */
  function FieldsFrom(s: string, word: string): seq<string> {
    if s == "" then (if word == "" then [] else [word])
    else if IsSpace(s[0]) then (if word == "" then [] else [word]) + FieldsFrom(s[1..], "")
    else FieldsFrom(s[1..], word + [s[0]])
  }

  function Fields(s: string): seq<string> { FieldsFrom(s, "") }

  predicate IsWord(w: string) { w != "" && forall i :: 0 <= i < |w| ==> !IsSpace(w[i]) }

  ghost predicate AreWords(ws: seq<string>) { forall i :: 0 <= i < |ws| ==> IsWord(ws[i]) }

  /** A line of words as it is printed. */
  function Line(ws: seq<string>): string { Join(ws, ' ') }

  /** The lines still to come, with `line` the words on the one being filled. */
  function Pack(line: seq<string>, rest: seq<string>, width: int): seq<seq<string>>
    decreases rest
  {
    if rest == [] then [line]
    else if line != [] && |Line(line)| + 1 + |rest[0]| > width then [line] + Pack([rest[0]], rest[1..], width)
    else Pack(line + [rest[0]], rest[1..], width)
  }

  function LinesOf(arrangement: seq<seq<string>>): seq<string> {
    if arrangement == [] then [] else [Line(arrangement[0])] + LinesOf(arrangement[1..])
  }

  function Flatten(arrangement: seq<seq<string>>): seq<string> {
    if arrangement == [] then [] else arrangement[0] + Flatten(arrangement[1..])
  }

  /** A line the width allows: it fits, or it is one word that no line could hold. */
  predicate Allowed(ws: seq<string>, width: int) { |ws| <= 1 || |Line(ws)| <= width }

  ghost predicate AllAllowed(arrangement: seq<seq<string>>, width: int) {
    forall i :: 0 <= i < |arrangement| ==> Allowed(arrangement[i], width)
  }

  // ---- the loop ----

  /** `wrapWords`. */
  method WrapWords(s: string, width: int) returns (r: string)
    ensures r == Join(LinesOf(Pack([], Fields(s), width)), '\n')
  {
    var words := Fields(s);
    FieldsAreWords(s, "");
    var lines: seq<string>, line := [], "";
    ghost var done: seq<seq<string>>, current: seq<string> := [], [];
    for i := 0 to |words|
      invariant AreWords(current) && line == Line(current) && lines == LinesOf(done)
      invariant Pack([], words, width) == done + Pack(current, words[i..], width)
    {
      var word := words[i];
      assert words[i..][0] == word && words[i..][1..] == words[i + 1..];
      LineIsEmptyOnlyForNoWords(current);
      ghost var tail := Pack([word], words[i + 1..], width);
      assert [] + [word] == [word] && done + ([current] + tail) == done + [current] + tail;
      if line != "" && |line| + 1 + |word| > width {
        LinesOfSnoc(done, current);
        lines, done := lines + [line], done + [current];
        line, current := "", [];
      }
      if line != "" {
        LineSnoc(current, word);
        line := line + " ";
      }
      line, current := line + word, current + [word];
    }
    assert words[|words|..] == [];
    LinesOfSnoc(done, current);
    return Join(lines + [line], '\n');
  }

  lemma {:induction false} FieldsAreWords(s: string, word: string)
    requires forall i :: 0 <= i < |word| ==> !IsSpace(word[i])
    ensures AreWords(FieldsFrom(s, word))
  {
    if s != "" {
      FieldsAreWords(s[1..], if IsSpace(s[0]) then "" else word + [s[0]]);
    }
  }

  lemma {:induction false} LineIsEmptyOnlyForNoWords(ws: seq<string>)
    requires AreWords(ws)
    ensures Line(ws) == "" <==> ws == []
  {
    assert ws != [] ==> IsWord(ws[0]);
  }

  lemma {:induction false} LineSnoc(ws: seq<string>, w: string)
    requires ws != []
    ensures Line(ws + [w]) == Line(ws) + " " + w
  {
    JoinConcat(ws, [w], ' ');
  }

  lemma {:induction false} LinesOfSnoc(done: seq<seq<string>>, last: seq<string>)
    ensures LinesOf(done + [last]) == LinesOf(done) + [Line(last)]
  {
    if done != [] {
      assert (done + [last])[1..] == done[1..] + [last];
      LinesOfSnoc(done[1..], last);
    }
  }

  // ---- what it keeps ----

  lemma {:induction false} PackKeepsWords(line: seq<string>, rest: seq<string>, width: int)
    ensures Flatten(Pack(line, rest, width)) == line + rest
    decreases rest
  {
    if rest == [] {
      assert Flatten([line]) == line + Flatten([]);
    } else if line != [] && |Line(line)| + 1 + |rest[0]| > width {
      PackKeepsWords([rest[0]], rest[1..], width);
      var tail := Pack([rest[0]], rest[1..], width);
      assert ([line] + tail)[1..] == tail;
    } else {
      PackKeepsWords(line + [rest[0]], rest[1..], width);
    }
  }

  /** No line is wider than the width unless it is a single word, and only a text of no words has an
      empty line. */
  lemma {:induction false} PackKeepsToWidth(line: seq<string>, rest: seq<string>, width: int)
    requires Allowed(line, width)
    ensures AllAllowed(Pack(line, rest, width), width)
    ensures line != [] || rest != [] ==> forall i :: 0 <= i < |Pack(line, rest, width)| ==>
      Pack(line, rest, width)[i] != []
    decreases rest
  {
    if rest != [] {
      if line != [] && |Line(line)| + 1 + |rest[0]| > width {
        PackKeepsToWidth([rest[0]], rest[1..], width);
      } else {
        if line != [] { LineSnoc(line, rest[0]); }
        PackKeepsToWidth(line + [rest[0]], rest[1..], width);
      }
    }
  }

  // ---- the fewest lines ----

  lemma {:induction false} FieldsOfTwo(a: string, c: char, b: string, word: string)
    requires IsSpace(c)
    ensures FieldsFrom(a + [c] + b, word) == FieldsFrom(a, word) + Fields(b)
  {
    var s := a + [c] + b;
    if a == "" {
      assert s[0] == c && s[1..] == b;
    } else {
      assert s[0] == a[0] && s[1..] == a[1..] + [c] + b;
      FieldsOfTwo(a[1..], c, b, if IsSpace(a[0]) then "" else word + [a[0]]);
    }
  }

  lemma {:induction false} FieldsOfWord(w: string, word: string)
    requires IsWord(word + w)
    ensures FieldsFrom(w, word) == [word + w]
  {
    if w == "" {
      assert word + w == word;
    } else {
      assert (word + w)[|word|] == w[0];
      assert word + [w[0]] + w[1..] == word + w;
      FieldsOfWord(w[1..], word + [w[0]]);
    }
  }

  lemma {:induction false} FieldsOfLine(ws: seq<string>)
    requires AreWords(ws)
    ensures Fields(Line(ws)) == ws
  {
    if ws != [] {
      assert "" + ws[0] == ws[0];
      FieldsOfWord(ws[0], "");
      if |ws| > 1 {
        FieldsOfLine(ws[1..]);
        FieldsOfTwo(ws[0], ' ', Line(ws[1..]), "");
      }
    }
  }

  lemma {:induction false} FieldsOfLines(arrangement: seq<seq<string>>)
    requires arrangement != [] && forall i :: 0 <= i < |arrangement| ==> AreWords(arrangement[i])
    ensures Fields(Join(LinesOf(arrangement), '\n')) == Flatten(arrangement)
  {
    FieldsOfLine(arrangement[0]);
    if |arrangement| > 1 {
      FieldsOfLines(arrangement[1..]);
      FieldsOfTwo(Line(arrangement[0]), '\n', Join(LinesOf(arrangement[1..]), '\n'), "");
    } else {
      assert arrangement == [arrangement[0]];
      assert Flatten(arrangement) == arrangement[0] + [];
    }
  }

  lemma {:induction false} PackOfWordsIsWords(line: seq<string>, rest: seq<string>, width: int)
    requires AreWords(line) && AreWords(rest)
    ensures Pack(line, rest, width) != [] && forall i :: 0 <= i < |Pack(line, rest, width)| ==>
      AreWords(Pack(line, rest, width)[i])
    decreases rest
  {
    if rest != [] {
      PackOfWordsIsWords([rest[0]], rest[1..], width);
      PackOfWordsIsWords(line + [rest[0]], rest[1..], width);
    }
  }

  /** Read back, the wrapped text has the words of the text it was made from, in order. */
  lemma {:induction false} WrappingKeepsWords(s: string, width: int)
    ensures Fields(Join(LinesOf(Pack([], Fields(s), width)), '\n')) == Fields(s)
  {
    var words := Fields(s);
    FieldsAreWords(s, "");
    PackOfWordsIsWords([], words, width);
    FieldsOfLines(Pack([], words, width));
    PackKeepsWords([], words, width);
  }

  lemma {:induction false} LineOfPart(a: seq<string>, b: seq<string>)
    requires b != []
    ensures |Line(b)| <= |Line(a + b)|
  {
    if a == [] {
      assert a + b == b;
    } else {
      JoinConcat(a, b, ' ');
    }
  }

  /** A pack whose line lies on the first line of another arrangement of the same words, `skipped` in,
      needs no more lines than that arrangement. */
  lemma {:induction false} PackWithinFirst(skipped: seq<string>, line: seq<string>, rest: seq<string>,
          other: seq<seq<string>>, width: int)
    requires other != [] && AllAllowed(other, width) && Flatten(other) == skipped + line + rest
    requires |skipped| + |line| <= |other[0]|
    ensures |Pack(line, rest, width)| <= |other|
    decreases |rest|, |other|
  {
    var first, tail, used := other[0], Flatten(other[1..]), |skipped| + |line|;
    assert (first + tail)[used..] == rest;
    if rest != [] && used < |first| {
      var longer := line + [rest[0]];
      assert first[..used] == (first + tail)[..used] == skipped + line;
      assert first == first[..used] + [rest[0]] + first[used + 1..];
      assert first == skipped + (longer + first[used + 1..]);
      PartOfAllowed(skipped, longer, first[used + 1..], width);
      if line != [] { LineSnoc(line, rest[0]); }
      assert skipped + longer + rest[1..] == skipped + line + rest;
      PackWithinFirst(skipped, longer, rest[1..], other, width);
    } else if rest != [] {
      assert rest == tail == [] + rest;
      PackAfter([], line, rest, other[1..], width);
    }
  }

  /** A pack with words already on its line needs at most one line more than any arrangement of what is
      left, `skipped` words of which it is already past. */
  lemma {:induction false} PackAfter(skipped: seq<string>, line: seq<string>, rest: seq<string>,
          other: seq<seq<string>>, width: int)
    requires AllAllowed(other, width) && Flatten(other) == skipped + rest
    ensures |Pack(line, rest, width)| <= |other| + 1
    decreases |rest|, |other|
  {
    if rest != [] {
      var first, tail := other[0], Flatten(other[1..]);
      if |first| <= |skipped| {
        assert (first + tail)[|first|..] == tail == skipped[|first|..] + rest;
        PackAfter(skipped[|first|..], line, rest, other[1..], width);
      } else if line != [] && |Line(line)| + 1 + |rest[0]| > width {
        assert skipped + [rest[0]] + rest[1..] == skipped + rest;
        PackWithinFirst(skipped, [rest[0]], rest[1..], other, width);
      } else {
        assert skipped + [rest[0]] + rest[1..] == skipped + rest;
        PackAfter(skipped + [rest[0]], line + [rest[0]], rest[1..], other, width);
      }
    }
  }

  lemma {:induction false} PartOfAllowed(a: seq<string>, b: seq<string>, c: seq<string>, width: int)
    requires Allowed(a + (b + c), width) && b != []
    ensures Allowed(b, width)
  {
    LineOfPart(a, b + c);
    if c != [] { JoinConcat(b, c, ' '); } else { assert b + c == b; }
  }

  /** Greedy uses the fewest lines: no arrangement of the words, in order, whose lines each fit or hold
      a single word has fewer. With every word within the width those are the arrangements whose lines
      all fit. */
  lemma {:induction false} GreedyIsFewest(words: seq<string>, other: seq<seq<string>>, width: int)
    requires other != [] && AllAllowed(other, width) && Flatten(other) == words
    ensures |Pack([], words, width)| <= |other|
  {
    assert [] + [] + words == words;
    PackWithinFirst([], [], words, other, width);
  }
}

/** The string operations the components share, with the laws that make splitting and joining
    inverse to each other. A string stands for Go's bytes, one `char` a byte. */
module Text {

  /** Writes a byte before the parts split from what follows it. */
  function Put(c: char, parts: seq<string>, sep: char): (r: seq<string>)
    requires |parts| >= 1
    ensures |r| >= 1
  {
    if c == sep then [""] + parts else [[c] + parts[0]] + parts[1..]
  }

  /** `strings.Split` for a one-byte separator. */
  function Split(s: string, sep: char): (parts: seq<string>)
    ensures |parts| >= 1
  {
    if s == "" then [""] else Put(s[0], Split(s[1..], sep), sep)
  }

  /** `strings.Join` for a one-byte separator. */
  function Join(parts: seq<string>, sep: char): string {
    if parts == [] then ""
    else if |parts| == 1 then parts[0]
    else parts[0] + [sep] + Join(parts[1..], sep)
  }

  function Count(s: string, c: char): nat {
    if s == "" then 0 else (if s[0] == c then 1 else 0) + Count(s[1..], c)
  }

  predicate HasSuffix(s: string, suffix: string) {
    |suffix| <= |s| && s[|s| - |suffix|..] == suffix
  }

  function TrimSuffix(s: string, suffix: string): string {
    if HasSuffix(s, suffix) then s[..|s| - |suffix|] else s
  }

  function TrimPrefix(s: string, prefix: string): string {
    if prefix <= s then s[|prefix|..] else s
  }

  predicate IsSpace(c: char) {
    c in {' ', '\t', '\n', '\r', '\U{000B}', '\U{000C}'}
  }

  function TrimLeft(s: string, cut: char -> bool): string {
    if s != "" && cut(s[0]) then TrimLeft(s[1..], cut) else s
  }

  function TrimRight(s: string, cut: char -> bool): string {
    if s != "" && cut(s[|s| - 1]) then TrimRight(s[..|s| - 1], cut) else s
  }

  function TrimSpace(s: string): string {
    TrimRight(TrimLeft(s, IsSpace), IsSpace)
  }

  function TrimSlashes(s: string): string {
    TrimRight(TrimLeft(s, c => c == '/'), c => c == '/')
  }

  /** `strings.ToLower` of ASCII. */
  function ToLower(s: string): string {
    seq(|s|, i requires 0 <= i < |s| => if 'A' <= s[i] <= 'Z' then s[i] - 'A' + 'a' else s[i])
  }

  /** The letters lowered, each to its own; any other character stands as it is. */
  lemma {:induction false} LowerIs(s: string, i: nat)
    requires i < |s|
    ensures ToLower("ABCDEFGHIJKLMNOPQRSTUVWXYZ") == "abcdefghijklmnopqrstuvwxyz"
    ensures !('A' <= s[i] <= 'Z') ==> ToLower(s)[i] == s[i]
    ensures ToLower(s)[i] == ToLower([s[i]])[0]
  {
  }

  /** What counts as blank: a space, and the tab to the carriage return. */
  lemma {:induction false} SpaceIs(c: char)
    ensures IsSpace(c) <==> c == ' ' || '\t' <= c <= '\r'
  {
  }

  /** A run at either end goes, and no more. */
  lemma {:induction false} TrimsRuns(l: string, s: string, r: string, cut: char -> bool)
    requires s != "" && !cut(s[0]) && !cut(s[|s| - 1])
    requires (forall c :: c in l ==> cut(c)) && forall c :: c in r ==> cut(c)
    ensures TrimLeft(l + s + r, cut) == s + r && TrimRight(s + r, cut) == s
  {
    if l != "" {
      assert (l + s + r)[0] == l[0] && l[0] in l && (l + s + r)[1..] == l[1..] + s + r;
      TrimsRuns(l[1..], s, r, cut);
    } else {
      assert l + s + r == s + r && (s + r)[0] == s[0];
      TrimsRunAfter(s, r, cut);
    }
  }

  lemma {:induction false} TrimLeftToNothing(s: string, cut: char -> bool)
    ensures TrimLeft(s, cut) == "" <==> forall c :: c in s ==> cut(c)
    ensures TrimLeft(s, cut) != "" ==> !cut(TrimLeft(s, cut)[0])
  {
    if s != "" {
      TrimLeftToNothing(s[1..], cut);
      assert s == [s[0]] + s[1..];
    }
  }

  lemma {:induction false} TrimRightToNothing(s: string, cut: char -> bool)
    ensures TrimRight(s, cut) == "" <==> forall c :: c in s ==> cut(c)
  {
    if s != "" {
      var n := |s| - 1;
      TrimRightToNothing(s[..n], cut);
      assert s == s[..n] + [s[n]];
    }
  }

  /** Nothing is left of a text exactly when it is blank throughout. */
  lemma {:induction false} BlankIs(s: string)
    ensures TrimSpace(s) == "" <==> forall c :: c in s ==> c == ' ' || '\t' <= c <= '\r'
  {
    TrimLeftToNothing(s, IsSpace);
    var t := TrimLeft(s, IsSpace);
    TrimRightToNothing(t, IsSpace);
    assert t != "" ==> t[0] in t;
    forall c ensures IsSpace(c) <==> c == ' ' || '\t' <= c <= '\r' { SpaceIs(c); }
    hide IsSpace, TrimLeft, TrimRight;
  }

  lemma {:induction false} TrimsRunAfter(s: string, r: string, cut: char -> bool)
    requires s != "" && !cut(s[|s| - 1]) && forall c :: c in r ==> cut(c)
    ensures TrimRight(s + r, cut) == s
  {
    if r == "" {
      assert s + r == s;
    } else {
      var n := |r| - 1;
      assert r[n] in r && (s + r)[..|s + r| - 1] == s + r[..n];
      TrimsRunAfter(s, r[..n], cut);
    }
  }

  /** Blanks around a text, and slashes around a path, are trimmed away whole. */
  lemma {:induction false} Trimmed(l: string, s: string, r: string)
    requires s != ""
    ensures (forall c :: c in l + r ==> c == ' ' || '\t' <= c <= '\r') && !IsSpace(s[0]) && !IsSpace(s[|s| - 1]) ==>
              TrimSpace(l + s + r) == s
    ensures (forall c :: c in l + r ==> c == '/') && s[0] != '/' && s[|s| - 1] != '/' ==> TrimSlashes(l + s + r) == s
  {
    forall c | c in l || c in r ensures c in l + r {
    }
    if (forall c :: c in l + r ==> c == ' ' || '\t' <= c <= '\r') && !IsSpace(s[0]) && !IsSpace(s[|s| - 1]) {
      TrimsRuns(l, s, r, IsSpace);
    }
    if (forall c :: c in l + r ==> c == '/') && s[0] != '/' && s[|s| - 1] != '/' {
      TrimsRuns(l, s, r, c => c == '/');
    }
  }

  lemma {:induction false} JoinSplit(s: string, sep: char)
    ensures Join(Split(s, sep), sep) == s
  {
    if s != "" {
      JoinSplit(s[1..], sep);
      var rest := Split(s[1..], sep);
      if s[0] == sep {
        assert ([""] + rest)[1..] == rest;
      } else if |rest| > 1 {
        var parts := [[s[0]] + rest[0]] + rest[1..];
        assert parts[1..] == rest[1..];
      }
    }
  }

  lemma {:induction false} PutConcat(c: char, a: seq<string>, b: seq<string>, sep: char)
    requires |a| >= 1
    ensures Put(c, a + b, sep) == Put(c, a, sep) + b
  {
    assert (a + b)[0] == a[0] && (a + b)[1..] == a[1..] + b;
  }

  lemma {:induction false} SplitConcat(a: string, b: string, sep: char)
    ensures Split(a + [sep] + b, sep) == Split(a, sep) + Split(b, sep)
  {
    hide Put;
    var whole := a + [sep] + b;
    if a == "" {
      assert whole[0] == sep && whole[1..] == b;
      PutSeparator(sep, Split(b, sep));
    } else {
      assert whole[0] == a[0] && whole[1..] == a[1..] + [sep] + b;
      SplitConcat(a[1..], b, sep);
      PutConcat(a[0], Split(a[1..], sep), Split(b, sep), sep);
    }
  }

  lemma {:induction false} PutSeparator(sep: char, parts: seq<string>)
    requires |parts| >= 1
    ensures Put(sep, parts, sep) == [""] + parts
  {
  }

  lemma {:induction false} SplitWhole(s: string, sep: char)
    requires sep !in s
    ensures Split(s, sep) == [s]
  {
    if s != "" {
      SplitWhole(s[1..], sep);
      assert s == [s[0]] + s[1..];
    }
  }

  lemma {:induction false} SplitPartsHaveNoSeparator(s: string, sep: char)
    ensures forall p :: p in Split(s, sep) ==> sep !in p
  {
    if s != "" {
      SplitPartsHaveNoSeparator(s[1..], sep);
      var rest := Split(s[1..], sep);
      assert rest[0] in rest;
    }
  }

  lemma {:induction false} SplitJoin(parts: seq<string>, sep: char)
    requires parts != [] && forall p :: p in parts ==> sep !in p
    ensures Split(Join(parts, sep), sep) == parts
  {
    SplitWhole(parts[0], sep);
    if |parts| > 1 {
      SplitJoin(parts[1..], sep);
      SplitConcat(parts[0], Join(parts[1..], sep), sep);
    }
  }

  lemma {:induction false} JoinStarts(parts: seq<string>, sep: char)
    requires parts != [] && parts[0] != "" && sep !in parts[0]
    ensures var s := Join(parts, sep); s != "" && s[0] != sep
  {
    assert Join(parts, sep)[0] == parts[0][0] && parts[0][0] in parts[0];
  }

  lemma {:induction false} JoinEnds(parts: seq<string>, sep: char)
    requires parts != [] && parts[|parts| - 1] != "" && sep !in parts[|parts| - 1]
    ensures var s := Join(parts, sep); s != "" && s[|s| - 1] != sep
  {
    if |parts| == 1 {
      assert parts[0][|parts[0]| - 1] in parts[0];
    } else {
      JoinEnds(parts[1..], sep);
    }
  }

  lemma {:induction false} JoinConcat(a: seq<string>, b: seq<string>, sep: char)
    requires a != [] && b != []
    ensures Join(a + b, sep) == Join(a, sep) + [sep] + Join(b, sep)
  {
    if |a| == 1 {
      assert (a + b)[1..] == b;
    } else {
      assert (a + b)[1..] == a[1..] + b;
      JoinConcat(a[1..], b, sep);
    }
  }

  lemma {:induction false} CountConcat(a: string, b: string, c: char)
    ensures Count(a + b, c) == Count(a, c) + Count(b, c)
  {
    if a == "" {
      assert a + b == b;
    } else {
      assert (a + b)[1..] == a[1..] + b;
      CountConcat(a[1..], b, c);
    }
  }

  /** The separators of a string are one fewer than its parts. */
  lemma {:induction false} SplitLength(s: string, sep: char)
    ensures |Split(s, sep)| == Count(s, sep) + 1
  {
    if s != "" {
      SplitLength(s[1..], sep);
    }
  }
}

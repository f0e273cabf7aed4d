/** The descriptor's glob: Go's `path.Match` for a pattern without `**`, and what `**` adds to it. */
module Globs {
  import opened Common
  import opened Text
  import opened Paths

  // ---- path.Match ----

  /** `getEsc`: the character a class names next, and what follows it, which may not be nothing. */
  function ClassChar(chunk: string): (r: Option<(char, string)>)
    ensures r.Some? ==> r.value.1 != "" && |r.value.1| < |chunk|
  {
    if chunk == "" || chunk[0] == '-' || chunk[0] == ']' then None
    else
      var body := if chunk[0] == '\\' then chunk[1..] else chunk;
      if |body| <= 1 then None else Some((body[0], body[1..]))
  }

  /** The ranges of a class up to its closing bracket: whether one holds `c`, and what follows. */
  function ClassRanges(chunk: string, c: char, some: bool, hit: bool): (r: Option<(bool, string)>)
    ensures r.Some? ==> |r.value.1| < |chunk|
    decreases |chunk|
  {
    if chunk != "" && chunk[0] == ']' && some then Some((hit, chunk[1..]))
    else match ClassChar(chunk)
      case None => None
      case Some((lo, rest)) =>
        if rest[0] != '-' then ClassRanges(rest, c, true, hit || c == lo)
        else match ClassChar(rest[1..])
          case None => None
          case Some((hi, after)) => ClassRanges(after, c, true, hit || lo <= c <= hi)
  }

  /** `matchChunk`: what is left of `s` past a pattern without `*`, or nothing where it fails or the
      pattern is malformed. */
  function MatchChunk(chunk: string, s: string): (rest: Option<string>)
    ensures rest.Some? ==> |rest.value| <= |s|
    decreases |chunk|
  {
    if chunk == "" then Some(s)
    else if s == "" then None
    else if chunk[0] == '[' then
      var negated := |chunk| > 1 && chunk[1] == '^';
      match ClassRanges(if negated then chunk[2..] else chunk[1..], s[0], false, false)
      case None => None
      case Some((hit, after)) => if hit == negated then None else MatchChunk(after, s[1..])
    else if chunk[0] == '?' then (if s[0] == '/' then None else MatchChunk(chunk[1..], s[1..]))
    else if chunk[0] == '\\' then
      (if |chunk| == 1 || chunk[1] != s[0] then None else MatchChunk(chunk[2..], s[1..]))
    else if chunk[0] != s[0] then None
    else MatchChunk(chunk[1..], s[1..])
  }

  /** `scanChunk`'s loop: where the chunk at the start of a pattern ends, an escape or a class hiding a
      `*`. */
  function ChunkEnd(pattern: string, inRange: bool): (n: nat)
    ensures n <= |pattern|
  {
    if pattern == "" then 0
    else if pattern[0] == '\\' then (if |pattern| == 1 then 1 else 2 + ChunkEnd(pattern[2..], inRange))
    else if pattern[0] == '*' && !inRange then 0
    else 1 + ChunkEnd(pattern[1..], if pattern[0] == '[' then true else if pattern[0] == ']' then false else inRange)
  }

  function Stars(pattern: string): (n: nat)
    ensures n <= |pattern| && (n < |pattern| ==> pattern[n] != '*') && (n > 0 <==> pattern != "" && pattern[0] == '*')
  {
    if pattern != "" && pattern[0] == '*' then 1 + Stars(pattern[1..]) else 0
  }

  /** What is left past the first place a chunk matches, skipping no `/`; the last chunk must end the
      name. */
  function Skipping(chunk: string, last: bool, name: string): (rest: Option<string>)
    ensures rest.Some? ==> |rest.value| <= |name|
  {
    var here := MatchChunk(chunk, name);
    if here.Some? && (here.value == "" || !last) then here
    else if name == "" || name[0] == '/' then None
    else Skipping(chunk, last, name[1..])
  }

  /** `path.Match`, a malformed pattern matching nothing. */
  predicate PathMatch(pattern: string, name: string)
    decreases |pattern|
  {
    if pattern == "" then name == ""
    else
      var stars := Stars(pattern);
      var body := pattern[stars..];
      var n := ChunkEnd(body, false);
      var chunk, rest := body[..n], body[n..];
      if stars > 0 && chunk == "" then '/' !in name
      else if stars == 0 then
        ChunkIsNotEmpty(pattern);
        var here := MatchChunk(chunk, name);
        here.Some? && (here.value == "" || rest != "") && PathMatch(rest, here.value)
      else
        var there := Skipping(chunk, rest == "", name);
        there.Some? && PathMatch(rest, there.value)
  }

  lemma {:induction false} ChunkIsNotEmpty(pattern: string)
    requires pattern != "" && pattern[0] != '*'
    ensures ChunkEnd(pattern, false) > 0
  {
  }

  // ---- ** ----

  /** Where `**` first stands in a pattern, or its length. */
  function DoubleStar(pattern: string): (i: nat)
    ensures i <= |pattern| && (i < |pattern| ==> i + 2 <= |pattern| && pattern[i] == pattern[i + 1] == '*')
  {
    if |pattern| < 2 then |pattern|
    else if pattern[0] == '*' && pattern[1] == '*' then 0
    else 1 + DoubleStar(pattern[1..])
  }

  function Head(pattern: string): string { TrimSuffix(pattern[..DoubleStar(pattern)], "/") }

  function Tail(pattern: string): (tail: string)
    requires DoubleStar(pattern) < |pattern|
    ensures |tail| < |pattern|
  {
    TrimPrefix(pattern[DoubleStar(pattern) + 2..], "/")
  }

  /** `GlobMatch`. */
  predicate GlobMatch(pattern: string, rel: string)
    decreases |pattern|, 0, 0
  {
    if DoubleStar(pattern) == |pattern| then PathMatch(pattern, rel)
    else
      var head, tail := Head(pattern), Tail(pattern);
      && (head == "" || head + "/" <= rel || rel == head)
      && (tail == "" || Anywhere(tail, if head == "" then rel else TrimPrefix(TrimPrefix(rel, head), "/")))
  }

  /** The remainder of a pattern starting at any depth. */
  predicate Anywhere(tail: string, rel: string)
    decreases |tail|, 1, |rel|
  {
    GlobMatch(tail, rel) || (var i := FirstSlash(rel); i < |rel| && Anywhere(tail, rel[i + 1..]))
  }

  function FirstSlash(s: string): (i: nat)
    ensures i <= |s| && (i < |s| ==> s[i] == '/') && '/' !in s[..i]
  {
    if s == "" || s[0] == '/' then 0 else 1 + FirstSlash(s[1..])
  }

  /** The loop of `GlobMatch`. */
  method Matches(pattern: string, rel: string) returns (ok: bool)
    ensures ok <==> GlobMatch(pattern, rel)
    decreases |pattern|
  {
    hide PathMatch, DoubleStar, Head, Tail, FirstSlash;
    if DoubleStar(pattern) == |pattern| {
      return PathMatch(pattern, rel);
    }
    var head, tail, rest := Head(pattern), Tail(pattern), rel;
    if head != "" {
      if !(head + "/" <= rel) && rel != head {
        return false;
      }
      rest := TrimPrefix(TrimPrefix(rel, head), "/");
    }
    if tail == "" {
      return true;
    }
    while true
      invariant Anywhere(tail, rest) <==> GlobMatch(pattern, rel)
      decreases |rest|
    {
      var here := Matches(tail, rest);
      if here {
        return true;
      }
      var i := FirstSlash(rest);
      if i == |rest| {
        return false;
      }
      rest := rest[i + 1..];
    }
  }

  // ---- a literal prefix ----

  /** No character of it is a `*` or means anything but itself and what `?` takes for itself. */
  predicate Plain(s: string) { '*' !in s && '[' !in s && '\\' !in s }

  lemma {:induction false} ChunkAcross(pre: string, p: string)
    requires Plain(pre)
    ensures ChunkEnd(pre + p, false) == |pre| + ChunkEnd(p, false)
  {
    if pre == "" {
      assert pre + p == p;
    } else {
      assert (pre + p)[0] == pre[0] && (pre + p)[1..] == pre[1..] + p;
      ChunkAcross(pre[1..], p);
    }
  }

  lemma {:induction false} MatchAcross(pre: string, chunk: string, s: string)
    requires Plain(pre)
    ensures MatchChunk(pre + chunk, pre + s) == MatchChunk(chunk, s)
  {
    if pre == "" {
      assert pre + chunk == chunk && pre + s == s;
    } else {
      assert (pre + chunk)[0] == (pre + s)[0] == pre[0];
      assert (pre + chunk)[1..] == pre[1..] + chunk && (pre + s)[1..] == pre[1..] + s;
      MatchAcross(pre[1..], chunk, s);
    }
  }

  lemma {:induction false} PathMatchOnChunk(all: string, n: nat, name: string)
    requires all != "" && all[0] != '*' && n == ChunkEnd(all, false)
    ensures var here := MatchChunk(all[..n], name);
            PathMatch(all, name) <==>
              here.Some? && (here.value == "" || all[n..] != "") && PathMatch(all[n..], here.value)
  {
    hide MatchChunk, ChunkEnd;
    ChunkIsNotEmpty(all);
    assert Stars(all) == 0 && all[0..] == all;
  }

  /** How `path.Match` begins on a pattern with a plain beginning. */
  lemma {:induction false} FirstChunkAcross(pre: string, p: string, name: string)
    requires Plain(pre) && pre != ""
    ensures var n := ChunkEnd(p, false); var here := MatchChunk(pre + p[..n], name);
            PathMatch(pre + p, name) <==>
              here.Some? && (here.value == "" || p[n..] != "") && PathMatch(p[n..], here.value)
  {
    hide MatchChunk, ChunkEnd, PathMatch;
    var all, n := pre + p, ChunkEnd(p, false);
    assert all[0] == pre[0];
    ChunkAcross(pre, p);
    PathMatchOnChunk(all, |pre| + n, name);
    assert all[..|pre| + n] == pre + p[..n] && all[|pre| + n..] == p[n..];
  }

  /** `path.Match` takes a plain beginning of a pattern off the name, and matches what is left. */
  lemma {:induction false} PathMatchStrips(pre: string, p: string, s: string)
    requires Plain(pre) && pre != ""
    ensures PathMatch(pre + p, pre + s) <==> PathMatch(p, s)
  {
    hide MatchChunk, ChunkEnd, PathMatch;
    FirstChunkAcross(pre, p, pre + s);
    var n := ChunkEnd(p, false);
    MatchAcross(pre, p[..n], s);
    if p == "" || p[0] == '*' {
      NoChunkHere(p);
      MatchNothing(s);
      assert p[..0] == "" && p[0..] == p;
      if p == "" { EmptyPattern(s); }
    } else {
      PathMatchOnChunk(p, n, s);
    }
  }

  lemma {:induction false} NoChunkHere(p: string)
    requires p == "" || p[0] == '*'
    ensures ChunkEnd(p, false) == 0
  {
  }

  lemma {:induction false} EmptyPattern(s: string)
    ensures PathMatch("", s) <==> s == ""
  {
  }

  lemma {:induction false} MatchNothing(s: string)
    ensures MatchChunk("", s) == Some(s)
  {
  }

  // ---- a segment with stars ----

  /** A `*` in it stands for itself at least, and nothing else means more: no class, no escape, no `**`. */
  predicate Steady(s: string) { '[' !in s && '\\' !in s && DoubleStar(s) == |s| }

  predicate StarPair(s: string, k: nat) { k + 1 < |s| && s[k] == s[k + 1] == '*' }

  lemma {:induction false} SteadyParts(a: string, b: string)
    requires Steady(a + b)
    ensures Steady(a) && Steady(b)
    ensures a != "" && a[|a| - 1] == '*' ==> b == "" || b[0] != '*'
  {
    assert forall k :: 0 <= k < |a| ==> (a + b)[k] == a[k];
    assert forall k :: 0 <= k < |b| ==> (a + b)[|a| + k] == b[k];
    NoStarPair(a + b);
    forall k: nat ensures !StarPair(a, k) && !StarPair(b, k) {
      assert !StarPair(a + b, k) && !StarPair(a + b, |a| + k);
    }
    NoStarPair(a);
    NoStarPair(b);
    if a != "" { assert !StarPair(a + b, |a| - 1); }
  }

  lemma {:induction false} NoStarPair(s: string)
    ensures DoubleStar(s) == |s| <==> forall k: nat :: !StarPair(s, k)
  {
    if |s| >= 2 {
      NoStarPair(s[1..]);
      forall k: nat ensures StarPair(s, k + 1) == StarPair(s[1..], k) {
      }
      if forall k: nat :: !StarPair(s[1..], k) {
        forall k: nat | k > 0 ensures !StarPair(s, k) {
          assert !StarPair(s[1..], k - 1);
        }
        assert StarPair(s, 0) <==> s[0] == s[1] == '*';
      }
    }
  }

  /** Where the next `*` of a segment stands. */
  lemma {:induction false} ChunkOf(s: string) returns (c: string, rest: string)
    requires Steady(s)
    ensures s == c + rest && Plain(c) && (rest == "" || rest[0] == '*')
    ensures ChunkEnd(s, false) == |c| && (s != "" && s[0] != '*' ==> c != "")
  {
    if s == "" || s[0] == '*' {
      c, rest := "", s;
    } else {
      assert s == [s[0]] + s[1..];
      SteadyParts([s[0]], s[1..]);
      var d;
      d, rest := ChunkOf(s[1..]);
      c := [s[0]] + d;
    }
  }

  /** A plain run and a slash meet a name's first slash where the run is as long as what precedes it. */
  lemma {:induction false} SlashAligns(c: string, chunk: string, y: string, f: string)
    requires Plain(c) && '/' !in c && '/' !in y && |y| != |c|
    ensures MatchChunk(c + "/" + chunk, y + "/" + f).None?
  {
    var all, name := c + "/" + chunk, y + "/" + f;
    if c == "" {
      assert all[0] == '/' && name[0] == y[0] && y[0] in y;
    } else if y == "" {
      assert all[0] == c[0] && c[0] in c && name[0] == '/';
    } else {
      assert all[0] == c[0] && name[0] == y[0] && c[0] in c;
      assert all[1..] == c[1..] + "/" + chunk && name[1..] == y[1..] + "/" + f;
      SlashAligns(c[1..], chunk, y[1..], f);
    }
  }

  /** So past a `*` such a chunk is looked for at that place alone. */
  lemma {:induction false} SkipsToSlash(c: string, chunk: string, last: bool, u: string, f: string)
    requires Plain(c) && '/' !in c && '/' !in u
    ensures var here := MatchChunk(chunk, f);
            Skipping(c + "/" + chunk, last, u + c + "/" + f) ==
              if here.Some? && (here.value == "" || !last) then here else None
    decreases |u|
  {
    hide MatchChunk;
    var name := u + c + "/" + f;
    if u == "" {
      assert "" + c + "/" + f == c + "/" + f && c + "/" + chunk == (c + "/") + chunk && name == (c + "/") + f;
      MatchAcross(c + "/", chunk, f);
      NothingBeforeSlash(c, chunk, last, c, f);
    } else {
      assert (u + c) + "/" + f == name;
      SlashAligns(c, chunk, u + c, f);
      assert name[0] == u[0] && u[0] in u && name[1..] == u[1..] + c + "/" + f;
      SkipsToSlash(c, chunk, last, u[1..], f);
    }
  }

  /** What skipping on from `y` finds once the chunk is longer than what precedes the slash. */
  lemma {:induction false} NothingBeforeSlash(c: string, chunk: string, last: bool, y: string, f: string)
    requires Plain(c) && '/' !in c && '/' !in y && |y| <= |c|
    ensures y != "" ==> Skipping(c + "/" + chunk, last, (y + "/" + f)[1..]).None?
    decreases |y|
  {
    hide MatchChunk;
    if y != "" {
      var name := y + "/" + f;
      assert name[1..] == y[1..] + "/" + f;
      SlashAligns(c, chunk, y[1..], f);
      if |y| > 1 {
        assert name[1..][0] == y[1] && y[1] in y;
        NothingBeforeSlash(c, chunk, last, y[1..], f);
      } else {
        assert name[1..][0] == '/';
      }
    }
  }

  /** Past a `*`, a plain chunk that stands in the name before its slash is found there or earlier. */
  lemma {:induction false} SkipsToChunk(c: string, u: string, v: string) returns (i: nat)
    requires Plain(c) && '/' !in u
    ensures i <= |u| && Skipping(c, false, u + c + v) == Some((u + c + v)[i + |c|..])
  {
    var name := u + c + v;
    var here := MatchChunk(c, name);
    if here.Some? {
      i := 0;
      TakesItsLength(c, name);
    } else if u == "" {
      assert name == c + v && c + "" == c;
      MatchAcross(c, "", v);
      assert false;
    } else {
      assert name[0] == u[0] && u[0] in u && name[1..] == u[1..] + c + v;
      i := SkipsToChunk(c, u[1..], v);
      assert name[1..][i + |c|..] == name[i + 1 + |c|..];
      i := i + 1;
    }
  }

  lemma {:induction false} TakesItsLength(c: string, s: string)
    requires Plain(c) && MatchChunk(c, s).Some?
    ensures |c| <= |s| && MatchChunk(c, s).value == s[|c|..]
  {
    if c != "" {
      assert c == [c[0]] + c[1..];
      TakesItsLength(c[1..], s[1..]);
    }
  }

  lemma {:induction false} PathMatchPastStar(body: string, name: string)
    requires body != "" && body[0] != '*'
    ensures var n := ChunkEnd(body, false); var there := Skipping(body[..n], body[n..] == "", name);
            PathMatch("*" + body, name) <==> there.Some? && PathMatch(body[n..], there.value)
  {
    hide Skipping, ChunkEnd;
    var all := "*" + body;
    assert all[0] == '*' && all[1..] == body;
    assert Stars(body) == 0 && Stars(all) == 1;
    ChunkIsNotEmpty(body);
  }

  /** A segment that begins with a `*` takes itself off the end of a name's first segment, wherever its own
      chunks are found. */
  lemma {:induction false} StarStrips(s: string, u: string, p: string, f: string)
    requires Steady(s) && s != "" && s[0] == '*' && '/' !in s && '/' !in u && p != ""
    ensures PathMatch(s + "/" + p, u + s + "/" + f) <==> PathMatch(p, f)
    decreases |s|
  {
    var c, rest := AfterStar(s);
    var before := u + "*";
    hide *;
    StarGroups(u, c, rest, p, f);
    assert s == "*" + c + rest;
    if rest == "" {
      LastChunkStrips(c, before, p, f);
    } else {
      var w := NextChunkStrips(c, before, rest, p, f);
      StarStrips(rest, w, p, f);
    }
  }

  lemma {:induction false} StarGroups(u: string, c: string, rest: string, p: string, f: string)
    ensures var s := "*" + c + rest;
            && s + "/" + p == "*" + (c + (rest + "/" + p))
            && u + s + "/" + f == u + "*" + c + (rest + "/" + f)
            && (rest == "" ==> c + (rest + "/" + p) == c + "/" + p && u + s + "/" + f == u + "*" + c + "/" + f)
  {
    var s := "*" + c + rest;
    Regroup("*" + c, rest, "/" + p);
    Regroup("*", c, rest + ("/" + p));
    Regroup(s, "/", p);
    Regroup(rest, "/", p);
    var t := u + "*" + c;
    Regroup(u, "*", c);
    Regroup(u, "*" + c, rest);
    Regroup(t, rest, "/" + f);
    Regroup(rest, "/", f);
    Regroup(u + s, "/", f);
    Regroup(c, "/", p);
    Regroup(t, "/", f);
  }

  lemma {:induction false} Regroup(a: string, b: string, c: string)
    ensures a + b + c == a + (b + c)
  {
  }

  /** A segment that begins with a `*`: its next chunk, and what follows. */
  lemma {:induction false} AfterStar(s: string) returns (c: string, rest: string)
    requires Steady(s) && s != "" && s[0] == '*'
    ensures s == "*" + c + rest && Plain(c) && Steady(rest) && (rest != "" ==> rest[0] == '*' && c != "")
    ensures '/' !in s ==> '/' !in c && '/' !in rest
  {
    assert s == "*" + s[1..];
    SteadyParts("*", s[1..]);
    c, rest := ChunkOf(s[1..]);
    SteadyParts(c, rest);
  }

  lemma {:induction false} NextChunkStrips(c: string, before: string, rest: string, p: string, f: string)
    returns (w: string)
    requires Plain(c) && c != "" && rest != "" && rest[0] == '*' && '/' !in before && '/' !in c
    ensures '/' !in w
    ensures PathMatch("*" + (c + (rest + "/" + p)), before + c + (rest + "/" + f)) <==>
      PathMatch(rest + "/" + p, w + rest + "/" + f)
  {
    hide PathMatch, Skipping, MatchChunk, ChunkEnd;
    var body, name := c + (rest + "/" + p), before + c + (rest + "/" + f);
    assert body[0] == c[0] && c[0] in c;
    PathMatchPastStar(body, name);
    FirstChunkOf(c, rest, p);
    var i := SkipsToChunk(c, before, rest + "/" + f);
    EndsHaveNoSlash(before + c);
    w := (before + c)[i + |c|..];
    assert name[i + |c|..] == w + rest + "/" + f;
  }

  lemma {:induction false} LastChunkStrips(c: string, before: string, p: string, f: string)
    requires Plain(c) && '/' !in c && '/' !in before && p != ""
    ensures PathMatch("*" + (c + "/" + p), before + c + "/" + f) <==> PathMatch(p, f)
  {
    hide PathMatch, Skipping, MatchChunk, ChunkEnd;
    var body, m := c + "/" + p, ChunkEnd(p, false);
    assert body == (c + "/") + p;
    ChunkAcross(c + "/", p);
    assert body[..|c| + 1 + m] == c + "/" + p[..m] && body[|c| + 1 + m..] == p[m..];
    SkipsToSlash(c, p[..m], p[m..] == "", before, f);
    assert body[0] == if c == "" then '/' else c[0];
    PathMatchPastStar(body, before + c + "/" + f);
    if p[0] == '*' {
      NoChunkHere(p);
      MatchNothing(f);
      assert p[..0] == "" && p[0..] == p;
    } else {
      PathMatchOnChunk(p, m, f);
    }
  }

  /** One segment, stars and all, comes off a pattern and a name that both begin with it. */
  lemma {:induction false} SegmentStrips(s: string, p: string, f: string)
    requires Steady(s) && '/' !in s && p != ""
    ensures PathMatch(s + "/" + p, s + "/" + f) <==> PathMatch(p, f)
  {
    hide PathMatch, Steady;
    var c, rest := ChunkOf(s);
    assert forall k :: 0 <= k < |rest| ==> rest[k] == s[|c| + k];
    if rest == "" {
      assert s + "/" + p == (c + "/") + p && s + "/" + f == (c + "/") + f;
      PathMatchStrips(c + "/", p, f);
    } else {
      SteadyParts(c, rest);
      assert "" + rest + "/" + f == rest + "/" + f;
      StarStrips(rest, "", p, f);
      assert s + "/" + p == c + (rest + "/" + p) && s + "/" + f == c + (rest + "/" + f);
      if c != "" {
        PathMatchStrips(c, rest + "/" + p, rest + "/" + f);
      } else {
        assert s == rest;
      }
    }
  }

  lemma {:induction false} FirstSegment(dir: string) returns (seg: string, rest: string)
    requires '/' in dir
    ensures dir == seg + "/" + rest && '/' !in seg
  {
    var i := FirstSlash(dir);
    assert dir[..|dir|] == dir;
    seg, rest := dir[..i], dir[i + 1..];
  }

  /** `path.Match` takes such a directory off the pattern and the name, and matches what is left. */
  lemma {:induction false} DirectoryStrips(dir: string, p: string, f: string)
    requires Steady(dir) && p != ""
    ensures PathMatch(dir + "/" + p, dir + "/" + f) <==> PathMatch(p, f)
    decreases |dir|
  {
    hide PathMatch, Steady;
    if '/' in dir {
      var seg, rest := FirstSegment(dir);
      assert dir == (seg + "/") + rest && seg + ("/" + rest) == dir;
      SteadyParts(seg, "/" + rest);
      SteadyParts(seg + "/", rest);
      assert dir + "/" + p == seg + "/" + (rest + "/" + p) && dir + "/" + f == seg + "/" + (rest + "/" + f);
      SegmentStrips(seg, rest + "/" + p, rest + "/" + f);
      DirectoryStrips(rest, p, f);
    } else {
      SegmentStrips(dir, p, f);
    }
  }

  // ---- a directory above ----

  /** What a chunk leaves of a name ends it. */
  lemma {:induction false} LeavesAnEnd(chunk: string, s: string)
    ensures var r := MatchChunk(chunk, s); r.Some? ==> |r.value| <= |s| && r.value == s[|s| - |r.value|..]
    decreases |chunk|
  {
    if chunk != "" && s != "" {
      if chunk[0] == '[' {
        var negated := |chunk| > 1 && chunk[1] == '^';
        var after := ClassRanges(if negated then chunk[2..] else chunk[1..], s[0], false, false);
        if after.Some? { LeavesAnEnd(after.value.1, s[1..]); }
      } else if chunk[0] == '\\' {
        if |chunk| > 1 { LeavesAnEnd(chunk[2..], s[1..]); }
      } else {
        LeavesAnEnd(chunk[1..], s[1..]);
      }
    }
  }

  lemma {:induction false} SkippingLeavesAnEnd(chunk: string, last: bool, name: string)
    ensures var r := Skipping(chunk, last, name);
            r.Some? ==> |r.value| <= |name| && r.value == name[|name| - |r.value|..]
    decreases |name|
  {
    LeavesAnEnd(chunk, name);
    hide MatchChunk;
    if name != "" && name[0] != '/' {
      SkippingLeavesAnEnd(chunk, last, name[1..]);
    }
  }

  lemma {:induction false} NeedsASlash(c: string, chunk: string, t: string)
    requires Plain(c) && '/' !in t
    ensures MatchChunk(c + "/" + chunk, t).None?
  {
    var all := c + "/" + chunk;
    if t != "" {
      assert t[0] in t;
      if c == "" {
        assert all[0] == '/';
      } else {
        assert all[0] == c[0] && all[1..] == c[1..] + "/" + chunk;
        NeedsASlash(c[1..], chunk, t[1..]);
      }
    }
  }

  lemma {:induction false} SkippingNeedsASlash(c: string, chunk: string, last: bool, t: string)
    requires Plain(c) && '/' !in t
    ensures Skipping(c + "/" + chunk, last, t).None?
    decreases |t|
  {
    hide MatchChunk;
    NeedsASlash(c, chunk, t);
    if t != "" { SkippingNeedsASlash(c, chunk, last, t[1..]); }
  }

  lemma {:induction false} FirstChunkOf(c: string, rest: string, q: string)
    requires Plain(c) && (rest == "" || rest[0] == '*')
    ensures var body := c + (rest + "/" + q); var n := ChunkEnd(body, false);
            if rest == "" then n > |c| && body[..n] == c + "/" + body[|c| + 1..n]
            else n == |c| && body[..n] == c && body[n..] == rest + "/" + q
  {
    hide ChunkEnd;
    var body := c + (rest + "/" + q);
    if rest == "" {
      assert body == (c + "/") + q;
      ChunkAcross(c + "/", q);
    } else {
      ChunkAcross(c, rest + "/" + q);
      NoChunkHere(rest + "/" + q);
    }
  }

  /** What such a first chunk leaves of a name of one segment. */
  lemma {:induction false} OneSegmentChunk(c: string, rest: string, q: string, t: string)
    requires Plain(c) && (rest == "" || rest[0] == '*') && '/' !in t
    ensures var body := c + (rest + "/" + q); var n := ChunkEnd(body, false);
            var here, there := MatchChunk(body[..n], t), Skipping(body[..n], body[n..] == "", t);
            && (rest == "" ==> here.None? && there.None?)
            && (here.Some? ==> '/' !in here.value) && (there.Some? ==> '/' !in there.value)
  {
    hide Skipping, MatchChunk, ChunkEnd;
    var body := c + (rest + "/" + q);
    var n := ChunkEnd(body, false);
    FirstChunkOf(c, rest, q);
    LeavesAnEnd(body[..n], t);
    SkippingLeavesAnEnd(body[..n], body[n..] == "", t);
    EndsHaveNoSlash(t);
    if rest == "" {
      NeedsASlash(c, body[|c| + 1..n], t);
      SkippingNeedsASlash(c, body[|c| + 1..n], body[n..] == "", t);
    }
  }

  lemma {:induction false} EndsHaveNoSlash(t: string)
    requires '/' !in t
    ensures forall k :: 0 <= k <= |t| ==> '/' !in t[k..]
  {
  }

  /** A pattern whose first segment is steady and not its last matches no name of one segment. */
  lemma {:induction false} OneSegmentIsTooFew(s: string, q: string, t: string)
    requires Steady(s) && '/' !in t
    ensures !PathMatch(s + "/" + q, t)
    decreases |s|
  {
    if s != "" && s[0] == '*' {
      var c, rest := AfterStar(s);
      var body := c + (rest + "/" + q);
      assert s + "/" + q == "*" + body && body[0] != '*';
      hide PathMatch, Skipping, MatchChunk, ChunkEnd, Steady;
      var n := ChunkEnd(body, false);
      OneSegmentChunk(c, rest, q, t);
      FirstChunkOf(c, rest, q);
      PathMatchPastStar(body, t);
      var there := Skipping(body[..n], body[n..] == "", t);
      if there.Some? { OneSegmentIsTooFew(rest, q, there.value); }
    } else {
      var c, rest := ChunkOf(s);
      SteadyParts(c, rest);
      var body := c + (rest + "/" + q);
      assert s + "/" + q == body && body[0] == if s == "" then '/' else s[0];
      hide PathMatch, Skipping, MatchChunk, ChunkEnd, Steady;
      var n := ChunkEnd(body, false);
      OneSegmentChunk(c, rest, q, t);
      FirstChunkOf(c, rest, q);
      PathMatchOnChunk(body, n, t);
      var here := MatchChunk(body[..n], t);
      if here.Some? { OneSegmentIsTooFew(rest, q, here.value); }
    }
  }

  /** A pattern written under such a directory matches neither the directory nor one above it. */
  lemma {:induction false} MatchesBelowOnly(dir: string, p: string, d: string)
    requires Steady(dir) && p != "" && Covers(d, dir)
    ensures !PathMatch(dir + "/" + p, d)
    decreases |dir|
  {
    hide PathMatch, Steady;
    if Above(d, dir) { assert dir[|d|] == '/'; }
    if '/' in dir {
      var seg, rest := FirstSegment(dir);
      assert seg + ("/" + rest) == dir && (seg + "/") + rest == dir;
      SteadyParts(seg, "/" + rest);
      SteadyParts(seg + "/", rest);
      assert dir + "/" + p == seg + "/" + (rest + "/" + p);
      if '/' in d {
        var dseg, e := FirstSegment(d);
        SameFirstSegment(seg, rest, dseg, e);
        SegmentStrips(seg, rest + "/" + p, e);
        MatchesBelowOnly(rest, p, e);
      } else {
        OneSegmentIsTooFew(seg, rest + "/" + p, d);
      }
    } else {
      OneSegmentIsTooFew(dir, p, d);
    }
  }

  lemma {:induction false} SegmentEnds(seg: string, rest: string)
    requires '/' !in seg
    ensures FirstSlash(seg + "/" + rest) == |seg|
  {
    var s := seg + "/" + rest;
    if seg != "" {
      assert s[0] == seg[0] && seg[0] in seg && s[1..] == seg[1..] + "/" + rest;
      SegmentEnds(seg[1..], rest);
    }
  }

  lemma {:induction false} SameFirstSegment(seg: string, rest: string, dseg: string, e: string)
    requires '/' !in seg && '/' !in dseg && Covers(dseg + "/" + e, seg + "/" + rest)
    ensures seg == dseg && Covers(e, rest)
  {
    var d, dir := dseg + "/" + e, seg + "/" + rest;
    FirstSegmentOfLonger(seg, rest, dseg, e);
    hide FirstSlash;
    var pre := seg + "/";
    Across(pre, e, rest);
    Across(pre, e + "/", rest);
    assert d + "/" == pre + (e + "/");
  }

  lemma {:induction false} FirstSegmentOfLonger(seg: string, rest: string, dseg: string, e: string)
    requires '/' !in seg && '/' !in dseg && dseg + "/" + e <= seg + "/" + rest
    ensures seg == dseg
  {
    var d, dir := dseg + "/" + e, seg + "/" + rest;
    var more := dir[|d|..];
    assert dir == dseg + "/" + (e + more);
    SegmentEnds(seg, rest);
    SegmentEnds(dseg, e + more);
    assert seg == dir[..|seg|] && dseg == dir[..|dseg|];
  }

  lemma {:induction false} DoubleStarAcross(pre: string, p: string)
    requires DoubleStar(pre) == |pre| && (pre == "" || pre[|pre| - 1] != '*')
    ensures DoubleStar(pre + p) == |pre| + DoubleStar(p)
  {
    if pre == "" {
      assert pre + p == p;
    } else {
      assert (pre + p)[0] == pre[0] && (pre + p)[1..] == pre[1..] + p;
      DoubleStarAcross(pre[1..], p);
    }
  }

  lemma {:induction false} DoubleStarUnder(dir: string, p: string)
    requires DoubleStar(dir) == |dir|
    ensures DoubleStar(dir + "/" + p) == |dir| + 1 + DoubleStar(p)
  {
    NoStarPair(dir);
    forall k: nat ensures !StarPair(dir + "/", k) {
      assert !StarPair(dir, k);
    }
    NoStarPair(dir + "/");
    DoubleStarAcross(dir + "/", p);
  }

  /** The parts of a pattern written under a directory. */
  lemma {:induction false} PartsMove(dir: string, p: string)
    requires DoubleStar(dir) == |dir| && dir != "" && DoubleStar(p) < |p| && p[0] != '/'
    ensures DoubleStar(dir + "/" + p) < |dir + "/" + p|
    ensures Head(dir + "/" + p) == if Head(p) == "" then dir else dir + "/" + Head(p)
    ensures Tail(dir + "/" + p) == Tail(p)
  {
    hide DoubleStar, TrimSuffix, TrimPrefix;
    var pre, i := dir + "/", DoubleStar(p);
    DoubleStarUnder(dir, p);
    var all := pre + p;
    assert all[..|pre| + i] == pre + p[..i] && all[|pre| + i + 2..] == p[i + 2..];
    HeadMoves(dir, p[..i]);
  }

  lemma {:induction false} EndsWithSlash(s: string)
    requires s != ""
    ensures HasSuffix(s, "/") <==> s[|s| - 1] == '/'
  {
    assert s[|s| - 1..] == [s[|s| - 1]];
  }

  lemma {:induction false} HeadMoves(dir: string, before: string)
    requires before != "" ==> before[0] != '/'
    ensures TrimSuffix(dir + "/" + before, "/") ==
            if TrimSuffix(before, "/") == "" then dir else dir + "/" + TrimSuffix(before, "/")
  {
    var pre := dir + "/";
    if before == "" {
      assert pre + before == pre && pre[..|pre| - 1] == dir;
    } else {
      EndsWithSlash(pre + before);
      EndsWithSlash(before);
      if HasSuffix(before, "/") { assert (pre + before)[..|pre + before| - 1] == pre + before[..|before| - 1]; }
    }
  }

  lemma {:induction false} Across(pre: string, a: string, b: string)
    ensures pre + a == pre + b <==> a == b
    ensures pre + a <= pre + b <==> a <= b
    ensures TrimPrefix(pre + b, pre + a) == if a <= b then b[|a|..] else pre + b
  {
    assert (pre + a)[|pre|..] == a && (pre + b)[|pre|..] == b;
    if pre + a <= pre + b {
      assert (pre + b)[..|pre + a|] == pre + a;
      assert b[..|a|] == (pre + b)[|pre|..|pre + a|] == a;
    }
    if a <= b { assert (pre + b)[|pre + a|..] == b[|a|..]; }
  }

  /** What a head leaves of a name. */
  function Under(head: string, rel: string): Option<string> {
    if head == "" then Some(rel)
    else if head + "/" <= rel || rel == head then Some(TrimPrefix(TrimPrefix(rel, head), "/"))
    else None
  }

  lemma {:induction false} GlobParts(p: string, rel: string)
    requires DoubleStar(p) < |p|
    ensures var under := Under(Head(p), rel);
            GlobMatch(p, rel) <==> under.Some? && (Tail(p) == "" || Anywhere(Tail(p), under.value))
  {
    hide PathMatch, Anywhere, Head, Tail, DoubleStar, TrimPrefix;
  }

  lemma {:induction false} UnderMoves(dir: string, head: string, f: string)
    requires dir != "" && f != "" && f[0] != '/'
    ensures Under(if head == "" then dir else dir + "/" + head, dir + "/" + f) == Under(head, f)
  {
    var pre := dir + "/";
    if head == "" {
      Across(dir, "", "/" + f);
      assert dir + "" == dir && dir + ("/" + f) == pre + f && ("/" + f)[1..] == f;
    } else {
      Across(pre, head, f);
      Across(pre, head + "/", f);
      assert pre + (head + "/") == pre + head + "/";
      assert head + "/" <= f ==> head <= f;
    }
  }

  /** The glob matches a name under a steady directory by the pattern written under it exactly when the
      pattern matches the name. */
  lemma {:induction false} GlobMoves(dir: string, p: string, f: string)
    requires Steady(dir) && dir != "" && p != "" && p[0] != '/' && f != "" && f[0] != '/'
    ensures GlobMatch(dir + "/" + p, dir + "/" + f) <==> GlobMatch(p, f)
  {
    hide PathMatch, Anywhere, Head, Tail, DoubleStar, Under;
    var pre := dir + "/";
    DoubleStarUnder(dir, p);
    if DoubleStar(p) == |p| {
      DirectoryStrips(dir, p, f);
    } else {
      hide GlobMatch;
      PartsMove(dir, p);
      UnderMoves(dir, Head(p), f);
      GlobParts(p, f);
      GlobParts(pre + p, pre + f);
    }
  }

  // ---- the directory itself ----

  /** What matches the empty name is a `*` or a run of `**`, and so matches at some depth of any name. */
  lemma {:induction false} NothingMatchesAll(q: string, f: string)
    requires q != "" && GlobMatch(q, "")
    ensures Anywhere(q, f)
    decreases |q|, |f|
  {
    if DoubleStar(q) == |q| {
      OnlyAStar(q);
      StarIsSomewhere(f);
    } else {
      var tail := Tail(q);
      assert Head(q) == "";
      if tail != "" {
        assert Anywhere(tail, "");
        assert FirstSlash("") == 0;
        NothingMatchesAll(tail, f);
      }
    }
  }

  lemma {:induction false} OnlyAStar(q: string)
    requires q != "" && DoubleStar(q) == |q| && PathMatch(q, "")
    ensures q == "*"
  {
    var stars := Stars(q);
    if stars == 0 {
      ChunkIsNotEmpty(q);
    } else {
      assert q[0] == '*';
      if |q| > 1 {
        assert q[1] != '*';
        assert Stars(q[1..]) == 0 && stars == 1;
        ChunkIsNotEmpty(q[1..]);
      }
    }
  }

  lemma {:induction false} StarIsSomewhere(f: string)
    ensures Anywhere("*", f)
    decreases |f|
  {
    var i := FirstSlash(f);
    if i < |f| {
      StarIsSomewhere(f[i + 1..]);
    } else {
      assert f[..i] == f;
      assert Stars("*") == 1 && "*"[1..] == "" && ChunkEnd("", false) == 0 && DoubleStar("*") == 1;
      assert GlobMatch("*", f);
    }
  }

  /** A pattern written under a steady directory matches no directory above it, and matches the directory only
      if it matches everything in it. */
  lemma {:induction false} MovedOverDirectory(dir: string, p: string, d: string)
    requires Steady(dir) && dir != "" && p != "" && p[0] != '/' && Covers(d, dir)
    requires GlobMatch(dir + "/" + p, d)
    ensures d == dir && forall f :: f != "" && f[0] != '/' ==> GlobMatch(p, f)
  {
    hide PathMatch, Anywhere, Head, Tail, DoubleStar;
    var pre := dir + "/";
    DoubleStarUnder(dir, p);
    assert |d| <= |dir| && d < pre;
    if DoubleStar(p) == |p| {
      MatchesBelowOnly(dir, p, d);
    } else {
      PartsMove(dir, p);
      var head, tail := Head(p), Tail(p);
      assert head == "" && d == dir;
      assert TrimPrefix(TrimPrefix(dir, dir), "/") == "";
      forall f | f != "" && f[0] != '/' ensures GlobMatch(p, f) {
        if tail != "" {
          AtNothing(tail);
          NothingMatchesAll(tail, f);
        }
      }
    }
  }

  lemma {:induction false} AtNothing(tail: string)
    ensures Anywhere(tail, "") ==> GlobMatch(tail, "")
  {
    assert FirstSlash("") == 0;
  }

  // ---- ** in a directory ----

  lemma {:induction false} DoubleStarFirst(a: string, b: string)
    requires DoubleStar(a) < |a|
    ensures DoubleStar(a + b) == DoubleStar(a)
  {
    assert (a + b)[0] == a[0] && (|a| > 1 ==> (a + b)[1] == a[1]) && (a + b)[1..] == a[1..] + b;
    if !(a[0] == '*' && a[1] == '*') { DoubleStarFirst(a[1..], b); }
  }

  lemma {:induction false} NoLaterThan(s: string, k: nat)
    requires k < |s| && s[k] == '/'
    ensures FirstSlash(s) <= k
  {
    if s[0] != '/' { NoLaterThan(s[1..], k - 1); }
  }

  lemma {:induction false} AnywhereDeeper(tail: string, a: string, b: string)
    requires Anywhere(tail, b)
    ensures Anywhere(tail, a + "/" + b)
    decreases |a|
  {
    hide GlobMatch;
    var rel := a + "/" + b;
    var i := FirstSlash(rel);
    NoLaterThan(rel, |a|);
    if i == |a| {
      assert rel[i + 1..] == b;
    } else {
      assert rel[i + 1..] == a[i + 1..] + "/" + b;
      AnywhereDeeper(tail, a[i + 1..], b);
    }
  }

  lemma {:induction false} UnderIs(head: string, r: string)
    requires head != ""
    ensures Under(head, head + "/" + r) == Some(r)
  {
    assert head + "/" + r == head + ("/" + r);
    Across(head, "", "/" + r);
    Across("/", "", r);
    assert head + "" == head && "/" + "" == "/";
  }

  lemma {:induction false} HeadEndsAtSlash(head: string, dir: string, name: string)
    requires head != "" && |head| < |dir| && Under(head, dir + name).Some?
    ensures dir == head + "/" + dir[|head| + 1..]
  {
    hide TrimPrefix;
    var p := dir + name;
    assert head + "/" <= p;
    assert dir == p[..|dir|] && p[..|head| + 1] == head + "/" && dir[..|head| + 1] == head + "/";
  }

  /** What a head leaves of a directory that reaches past it. */
  function Beyond(head: string, dir: string): string
    requires |head| < |dir|
  {
    if head == "" then dir else dir[|head| + 1..]
  }

  lemma {:induction false} UnderReaches(head: string, dir: string, name: string, more: string)
    requires |head| < |dir| && Under(head, dir + name).Some?
    ensures Under(head, dir + more) == Some(Beyond(head, dir) + more)
  {
    if head != "" {
      HeadEndsAtSlash(head, dir, name);
      hide Under;
      var below := dir[|head| + 1..];
      assert dir + more == head + "/" + (below + more);
      UnderIs(head, below + more);
    }
  }

  lemma {:induction false} BeyondEnds(head: string, dir: string, name: string)
    requires |head| < |dir| && Under(head, dir + name).Some?
    ensures var p, rest := dir + name, Beyond(head, dir) + name;
            && |rest| <= |p| && rest == p[|p| - |rest|..] && (rest != p ==> p[|p| - |rest| - 1] == '/')
  {
    if head == "" {
      assert (dir + name)[0..] == dir + name;
    } else {
      HeadEndsAtSlash(head, dir, name);
      assert (dir + name)[|head| + 1..] == dir[|head| + 1..] + name && dir[|head|] == '/';
    }
  }

  lemma {:induction false} Between(dir: string, rest: string)
    ensures dir + ("/x/" + rest) == dir + "/x/" + rest == dir + "/x" + "/" + rest
  {
    assert "/x/" == "/x" + "/";
    Regroup(dir, "/x", "/");
    Regroup(dir, "/x/", rest);
  }

  /** A pattern under a directory with a `**` that matches itself matches its own end further down. */
  lemma {:induction false} MatchesDeeper(dir: string, name: string) returns (rest: string)
    requires DoubleStar(dir) < |dir| && GlobMatch(dir + name, dir + name)
    ensures |rest| <= |dir + name| && rest == (dir + name)[|dir + name| - |rest|..]
    ensures rest != dir + name ==> (dir + name)[|dir + name| - |rest| - 1] == '/'
    ensures GlobMatch(dir + name, dir + "/x/" + rest)
  {
    var p := dir + name;
    DoubleStarFirst(dir, name);
    var head := Head(p);
    assert |head| <= DoubleStar(p) < |dir|;
    hide *;
    GlobParts(p, p);
    UnderReaches(head, dir, name, name);
    BeyondEnds(head, dir, name);
    rest := Beyond(head, dir) + name;
    UnderReaches(head, dir, name, "/x/" + rest);
    var a := Beyond(head, dir) + "/x";
    Between(Beyond(head, dir), rest);
    Between(dir, rest);
    GlobParts(p, dir + ("/x/" + rest));
    if Tail(p) != "" { AnywhereDeeper(Tail(p), a, rest); }
  }

  // ---- a prefix that is not plain ----

  /** Without a `*` a pattern takes no more of a name than its own length, and less where it holds a class
      or an escape. */
  lemma {:induction false} TakesNoMore(chunk: string, s: string)
    requires MatchChunk(chunk, s).Some?
    ensures |s| - |MatchChunk(chunk, s).value| <= |chunk|
    ensures '[' in chunk || '\\' in chunk ==> |s| - |MatchChunk(chunk, s).value| < |chunk|
    decreases |chunk|
  {
    if chunk != "" {
      if chunk[0] == '[' {
        var negated := |chunk| > 1 && chunk[1] == '^';
        var after := ClassRanges(if negated then chunk[2..] else chunk[1..], s[0], false, false).value.1;
        TakesNoMore(after, s[1..]);
      } else if chunk[0] == '\\' {
        TakesNoMore(chunk[2..], s[1..]);
      } else {
        TakesNoMore(chunk[1..], s[1..]);
        assert chunk == [chunk[0]] + chunk[1..];
      }
    }
  }

  lemma {:induction false} OneChunk(p: string)
    requires '*' !in p
    ensures ChunkEnd(p, false) == |p| && DoubleStar(p) == |p|
  {
    OneChunkFrom(p, false);
    NoDoubleStar(p);
  }

  lemma {:induction false} OneChunkFrom(p: string, inRange: bool)
    requires '*' !in p
    ensures ChunkEnd(p, inRange) == |p|
    decreases |p|
  {
    if p != "" {
      if p[0] == '\\' {
        if |p| > 1 { OneChunkFrom(p[2..], inRange); }
      } else {
        OneChunkFrom(p[1..], if p[0] == '[' then true else if p[0] == ']' then false else inRange);
      }
    }
  }

  lemma {:induction false} NoDoubleStar(p: string)
    requires '*' !in p
    ensures DoubleStar(p) == |p|
  {
    if |p| >= 2 { NoDoubleStar(p[1..]); }
  }

  /** Nor does a pattern with a class or an escape, and no `*`, match itself. */
  lemma {:induction false} NotItself(p: string)
    requires p != "" && '*' !in p && ('[' in p || '\\' in p)
    ensures !GlobMatch(p, p)
  {
    OneChunk(p);
    assert p[..|p|] == p && p[|p|..] == "" && p[0] != '*';
    PathMatchOnChunk(p, |p|, p);
    var here := MatchChunk(p, p);
    if here.Some? {
      TakesNoMore(p, p);
    }
  }

  /** A pattern of plain characters matches itself. */
  lemma {:induction false} PlainMatchesItself(p: string)
    requires Plain(p)
    ensures GlobMatch(p, p)
  {
    OneChunk(p);
    if p != "" {
      PathMatchStrips(p, "", "");
      assert p + "" == p;
    }
  }
}

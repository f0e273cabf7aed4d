/** JavaScript workspace membership: the segment glob with `**`, and which directories a workspace's
    patterns take in. */
module Workspaces {
  import opened Text

  /** `path.Match` on one segment, pattern first; false where the pattern is malformed. */
  type SegmentMatch = (string, string) -> bool

  datatype Workspace = Workspace(dir: string, patterns: seq<string>)

  predicate MatchSegments(segment: SegmentMatch, pattern: seq<string>, name: seq<string>)
    decreases |pattern|
  {
    if pattern == [] then name == []
    else if pattern[0] == "**" then exists i :: 0 <= i <= |name| && MatchSegments(segment, pattern[1..], name[i..])
    else name != [] && segment(pattern[0], name[0]) && MatchSegments(segment, pattern[1..], name[1..])
  }

  function Body(pattern: string): string { TrimSuffix(TrimPrefix(pattern, "./"), "/") }

  predicate GlobMatch(segment: SegmentMatch, pattern: string, dir: string) {
    MatchSegments(segment, Split(Body(pattern), '/'), Split(dir, '/'))
  }

  datatype Beneath = Beneath(rel: string) | NotBeneath

  function BeneathDir(dir: string, root: string): Beneath {
    if root == "." then (if dir == "." then NotBeneath else Beneath(dir))
    else if root + "/" <= dir && dir != root + "/" then Beneath(dir[|root| + 1..])
    else NotBeneath
  }

  /** A directory lies beneath a root by a path exactly when it is the root's, a slash and that path; and at the
      root `.`, by its own path when it is another directory. */
  lemma {:induction false} BeneathExactly(dir: string, root: string, rel: string)
    ensures BeneathDir(dir, root) == Beneath(rel) <==>
            if root == "." then dir == rel && rel != "." else rel != "" && dir == root + "/" + rel
  {
    if root != "." && root + "/" <= dir { assert dir == root + "/" + dir[|root| + 1..]; }
    if dir == root + "/" + rel { assert dir[|root| + 1..] == rel; }
  }

  predicate Negated(p: string) { p != "" && p[0] == '!' }

  /** A workspace takes a directory in: one of its globs matches, and none of its `!` globs does. */
  ghost predicate TakesIn(segment: SegmentMatch, ws: Workspace, dir: string) {
    var at := BeneathDir(dir, ws.dir);
    && at.Beneath?
    && (exists p :: p in ws.patterns && !Negated(p) && GlobMatch(segment, p, at.rel))
    && (forall p :: p in ws.patterns && Negated(p) ==> !GlobMatch(segment, p[1..], at.rel))
  }

  /** `member`. */
  method Member(segment: SegmentMatch, dir: string, wss: seq<Workspace>) returns (r: bool)
    ensures r <==> exists ws :: ws in wss && TakesIn(segment, ws, dir)
  {
    hide GlobMatch;
    for k := 0 to |wss|
      invariant forall j :: 0 <= j < k ==> !TakesIn(segment, wss[j], dir)
    {
      var ws := wss[k];
      var at := BeneathDir(dir, ws.dir);
      if at.NotBeneath? {
        continue;
      }
      var taken := false;
      var i := 0;
      while i < |ws.patterns|
        invariant 0 <= i <= |ws.patterns|
        invariant taken <==>
          exists j :: 0 <= j < i && !Negated(ws.patterns[j]) && GlobMatch(segment, ws.patterns[j], at.rel)
        invariant forall j :: 0 <= j < i && Negated(ws.patterns[j]) ==> !GlobMatch(segment, ws.patterns[j][1..], at.rel)
      {
        var p := ws.patterns[i];
        if Negated(p) {
          if GlobMatch(segment, p[1..], at.rel) {
            taken := false;
            break;
          }
        } else {
          taken := taken || GlobMatch(segment, p, at.rel);
        }
        i := i + 1;
      }
      if taken {
        assert wss[k] in wss && TakesIn(segment, wss[k], dir);
        return true;
      }
    }
    return false;
  }

  /** Membership does not depend on the order of a workspace's patterns, nor on repeats. */
  lemma {:induction false} OrderOfPatterns(segment: SegmentMatch, a: Workspace, b: Workspace, dir: string)
    requires a.dir == b.dir && forall p :: p in a.patterns <==> p in b.patterns
    ensures TakesIn(segment, a, dir) <==> TakesIn(segment, b, dir)
  {
  }

  lemma {:induction false} ListedWith(patterns: seq<string>, p: string)
    ensures forall q :: q in patterns + [p] <==> q in patterns || q == p
  {
  }

  /** One more glob takes in what it matches and no `!` glob does; one more `!` glob leaves out what it matches.
      What lies at no path beneath the workspace stays out. */
  lemma {:induction false} OnePatternMore(segment: SegmentMatch, ws: Workspace, dir: string, rel: string, q: string)
    requires if ws.dir == "." then dir == rel && rel != "." else rel != "" && dir == ws.dir + "/" + rel
    ensures TakesIn(segment, ws.(patterns := ws.patterns + ["!" + q]), dir) <==>
      TakesIn(segment, ws, dir) && !GlobMatch(segment, q, rel)
    ensures !("!" <= q) ==>
      (TakesIn(segment, ws.(patterns := ws.patterns + [q]), dir) <==>
        TakesIn(segment, ws, dir) ||
        (GlobMatch(segment, q, rel) && forall r :: "!" + r in ws.patterns ==> !GlobMatch(segment, r, rel)))
  {
    BeneathExactly(dir, ws.dir, rel);
    ListedWith(ws.patterns, q);
    ListedWith(ws.patterns, "!" + q);
    hide GlobMatch, BeneathDir;
    assert ("!" + q)[1..] == q;
    forall p | Negated(p) ensures p == "!" + p[1..] {
    }
    forall r ensures Negated("!" + r) && ("!" + r)[1..] == r {
    }
  }

  // ---- the glob ----

  lemma {:induction false} BodyOf(p: string)
    requires p != "" && p != "." && p[|p| - 1] != '/' && !("./" <= p)
    ensures Body(p) == p && Body("./" + p) == p && Body(p + "/") == p && Body("./" + p + "/") == p
  {
    NoClosingSlash(p);
    NoLeadingDot(p);
    DropsLead(p);
    DropsLead(p + "/");
    hide TrimSuffix, TrimPrefix;
    assert "./" + p + "/" == "./" + (p + "/");
  }

  lemma {:induction false} DropsLead(q: string)
    ensures TrimPrefix("./" + q, "./") == q && (!("./" <= q) ==> TrimPrefix(q, "./") == q)
  {
    assert ("./" + q)[2..] == q;
  }

  lemma {:induction false} NoClosingSlash(p: string)
    requires p != "" && p[|p| - 1] != '/'
    ensures TrimSuffix(p, "/") == p && TrimSuffix(p + "/", "/") == p
  {
    assert p[|p| - 1..][0] == p[|p| - 1];
    assert (p + "/")[..|p|] == p && (p + "/")[|p|..] == "/";
  }

  lemma {:induction false} NoLeadingDot(p: string)
    requires p != "" && p != "." && !("./" <= p)
    ensures !("./" <= p + "/")
  {
    assert |p| == 1 ==> (p + "/")[0] == p[0];
    assert |p| > 1 ==> (p + "/")[0] == p[0] && (p + "/")[1] == p[1];
  }

  /** How a workspace glob of plain segments reads a directory, written with a leading `./` or a closing slash or
      without: one segment of it for each of the directory's, each matching. */
  lemma {:induction false} GlobIsPointwise(segment: SegmentMatch, pattern: seq<string>, name: seq<string>)
    requires pattern != [] && name != [] && "**" !in pattern
    requires forall s :: s in pattern + name ==> '/' !in s
    requires pattern[0] != "." && pattern[|pattern| - 1] != ""
    ensures var p := Join(pattern, '/'); var dir := Join(name, '/');
            && (GlobMatch(segment, p, dir) <==>
                  |pattern| == |name| && forall i :: 0 <= i < |name| ==> segment(pattern[i], name[i]))
            && (GlobMatch(segment, "./" + p, dir) <==> GlobMatch(segment, p, dir))
            && (GlobMatch(segment, p + "/", dir) <==> GlobMatch(segment, p, dir))
            && (GlobMatch(segment, "./" + p + "/", dir) <==> GlobMatch(segment, p, dir))
  {
    SplitJoin(pattern, '/');
    SplitJoin(name, '/');
    PlainGlobMatchesPointwise(segment, pattern, name);
    hide MatchSegments;
    PatternEnds(pattern);
    BodyOf(Join(pattern, '/'));
  }

  lemma {:induction false} PatternEnds(parts: seq<string>)
    requires parts != [] && parts[|parts| - 1] != "" && parts[0] != "." && forall s :: s in parts ==> '/' !in s
    ensures var p := Join(parts, '/'); p != "" && p != "." && p[|p| - 1] != '/' && !("./" <= p)
  {
    JoinEnds(parts, '/');
    var p, first := Join(parts, '/'), parts[0];
    assert first in parts;
    assert first <= p && (|p| > |first| ==> p[|first|] == '/');
    assert |first| > 1 ==> p[1] == first[1] != '/';
    assert |first| == 1 ==> p[0] == first[0] != '.';
  }

  lemma {:induction false} TwoSegments(segment: SegmentMatch, a: string, q: string, b: string, c: string)
    requires forall s :: s in [a, q, b, c] ==> '/' !in s
    requires a != "." && a != "**" && q != "" && q != "**"
    ensures GlobMatch(segment, a + "/" + q, b + "/" + c) <==> segment(a, b) && segment(q, c)
  {
    GlobIsPointwise(segment, [a, q], [b, c]);
    hide GlobMatch;
    assert Join([a, q], '/') == a + "/" + q && Join([b, c], '/') == b + "/" + c;
  }

  /** A workspace at the root takes in a directory two deep by a glob of two segments exactly when each segment
      matches. */
  lemma {:induction false} RootTakesIn(segment: SegmentMatch, a: string, q: string, b: string, c: string)
    requires forall s :: s in [a, q, b, c] ==> '/' !in s
    requires a != "" && a != "." && a != "**" && a[0] != '!' && q != "" && q != "**"
    ensures TakesIn(segment, Workspace(".", [a + "/" + q]), b + "/" + c) <==> segment(a, b) && segment(q, c)
  {
    TwoSegments(segment, a, q, b, c);
    hide GlobMatch;
    var p, dir := a + "/" + q, b + "/" + c;
    assert dir[|b|] == '/';
    assert p[0] == a[0] && !Negated(p);
    assert [p][0] == p && forall r :: r in [p] ==> r == p;
  }

  /** So `packages` and a star takes in `packages/a`. */
  lemma {:induction false} RootWorkspace(segment: SegmentMatch)
    requires segment("packages", "packages") && segment("*", "a")
    ensures TakesIn(segment, Workspace(".", ["packages/*"]), "packages/a")
  {
    RootTakesIn(segment, "packages", "*", "packages", "a");
    hide TakesIn;
    assert "packages" + "/" + "*" == "packages/*" && "packages" + "/" + "a" == "packages/a";
  }

  /** The name splits where `p` ends and `q` begins. */
  ghost predicate SplitsBetween(segment: SegmentMatch, p: seq<string>, q: seq<string>, name: seq<string>, i: int) {
    0 <= i <= |name| && MatchSegments(segment, p, name[..i]) && MatchSegments(segment, q, name[i..])
  }

  /** A glob matches a name exactly when the name splits into a part its beginning matches and a part
      its end does, wherever the glob is cut. */
  lemma {:induction false} MatchComposes(segment: SegmentMatch, p: seq<string>, q: seq<string>, name: seq<string>)
    ensures MatchSegments(segment, p + q, name) <==> exists i :: SplitsBetween(segment, p, q, name, i)
    decreases |p|
  {
    if p == [] {
      assert p + q == q;
      assert name[..0] == [] && name[0..] == name;
      if MatchSegments(segment, q, name) { assert SplitsBetween(segment, p, q, name, 0); }
      forall i | SplitsBetween(segment, p, q, name, i) ensures i == 0 { }
    } else {
      assert (p + q)[0] == p[0] && (p + q)[1..] == p[1..] + q;
      if MatchSegments(segment, p + q, name) {
        var i := ComposeForward(segment, p, q, name);
      }
      forall i | SplitsBetween(segment, p, q, name, i) ensures MatchSegments(segment, p + q, name) {
        ComposeBackward(segment, p, q, name, i);
      }
    }
  }

  lemma {:induction false} ComposeForward(segment: SegmentMatch, p: seq<string>, q: seq<string>, name: seq<string>)
    returns (i: int)
    requires p != [] && MatchSegments(segment, p + q, name)
    ensures SplitsBetween(segment, p, q, name, i)
    decreases |p|, 0
  {
    var rest := p[1..];
    assert (p + q)[0] == p[0] && (p + q)[1..] == rest + q;
    var k := 1;
    if p[0] == "**" {
      k :| 0 <= k <= |name| && MatchSegments(segment, rest + q, name[k..]);
    }
    MatchComposes(segment, rest, q, name[k..]);
    var j :| SplitsBetween(segment, rest, q, name[k..], j);
    i := k + j;
    assert name[..i][k..] == name[k..][..j] && name[i..] == name[k..][j..];
  }

  lemma {:induction false} ComposeBackward(segment: SegmentMatch, p: seq<string>, q: seq<string>, name: seq<string>,
          i: int)
    requires p != [] && SplitsBetween(segment, p, q, name, i)
    ensures MatchSegments(segment, p + q, name)
    decreases |p|, 0
  {
    var rest, front := p[1..], name[..i];
    assert (p + q)[0] == p[0] && (p + q)[1..] == rest + q;
    var k := 1;
    if p[0] == "**" {
      k :| 0 <= k <= |front| && MatchSegments(segment, rest, front[k..]);
    }
    assert front[k..] == name[k..][..i - k] && name[i..] == name[k..][i - k..];
    assert SplitsBetween(segment, rest, q, name[k..], i - k);
    MatchComposes(segment, rest, q, name[k..]);
  }

  lemma {:induction false} StarThen(segment: SegmentMatch, q: seq<string>, name: seq<string>)
    ensures MatchSegments(segment, ["**"] + q, name) <==>
      exists i :: 0 <= i <= |name| && MatchSegments(segment, q, name[i..])
  {
    assert (["**"] + q)[1..] == q;
  }

  /** So `**` stands for any number of segments, none included. */
  lemma {:induction false} DoubleStarIsAnySegments(segment: SegmentMatch, p: seq<string>, q: seq<string>,
          name: seq<string>)
    ensures MatchSegments(segment, p + ["**"] + q, name) <==>
      exists i, j ::
        0 <= i <= j <= |name| && MatchSegments(segment, p, name[..i]) && MatchSegments(segment, q, name[j..])
  {
    hide MatchSegments;
    assert p + ["**"] + q == p + (["**"] + q);
    MatchComposes(segment, p, ["**"] + q, name);
    forall i | SplitsBetween(segment, p, ["**"] + q, name, i)
      ensures exists j ::
        i <= j <= |name| && MatchSegments(segment, p, name[..i]) && MatchSegments(segment, q, name[j..])
    {
      StarThen(segment, q, name[i..]);
      var k :| 0 <= k <= |name[i..]| && MatchSegments(segment, q, name[i..][k..]);
      assert name[i..][k..] == name[i + k..];
    }
    forall i, j | 0 <= i <= j <= |name| && MatchSegments(segment, p, name[..i]) && MatchSegments(segment, q, name[j..])
      ensures SplitsBetween(segment, p, ["**"] + q, name, i)
    {
      StarThen(segment, q, name[i..]);
      assert name[i..][j - i..] == name[j..];
    }
  }

  /** Without `**`, a glob matches segment by segment. */
  lemma {:induction false} PlainGlobMatchesPointwise(segment: SegmentMatch, pattern: seq<string>, name: seq<string>)
    requires "**" !in pattern
    ensures MatchSegments(segment, pattern, name) <==>
            |pattern| == |name| && forall i :: 0 <= i < |name| ==> segment(pattern[i], name[i])
    decreases |pattern|
  {
    if pattern != [] && name != [] {
      PlainGlobMatchesPointwise(segment, pattern[1..], name[1..]);
      if |pattern| == |name| {
        assert forall i :: 0 <= i < |name| - 1 ==> pattern[1..][i] == pattern[i + 1] && name[1..][i] == name[i + 1];
        assert forall i :: 1 <= i < |name| ==> pattern[i] == pattern[1..][i - 1] && name[i] == name[1..][i - 1];
      }
    }
  }
}

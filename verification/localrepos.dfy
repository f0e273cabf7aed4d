/** Pointing a local repository that names a directory inside a work tree at the work tree's root,
    and why the scope it is left with keeps the files the written one kept. */
module LocalRepositories {
  import opened Text
  import opened Paths
  import opened Scopes
  import Globs
  import Common

  datatype Repository = Repository(url: string, paths: seq<string>, ignore: seq<string>)

  /** `git.Subdirectory`: the work tree's root and where the path sits in it, or nothing. */
  datatype Located = Located(root: string, rel: string) | Elsewhere

  function UnderOne(dir: string, e: string): string {
    JoinPath(dir, e) + if HasSuffix(e, "/") then "/" else ""
  }

  function UnderAll(dir: string, entries: seq<string>): (r: seq<string>)
    ensures |r| == |entries| && forall i :: 0 <= i < |r| ==> r[i] == UnderOne(dir, entries[i])
  {
    if entries == [] then [] else [UnderOne(dir, entries[0])] + UnderAll(dir, entries[1..])
  }

  method Under(dir: string, entries: seq<string>) returns (out: seq<string>)
    ensures out == UnderAll(dir, entries)
  {
    out := [];
    for i := 0 to |entries|
      invariant |out| == i && forall j :: 0 <= j < i ==> out[j] == UnderOne(dir, entries[j])
    {
      var e := JoinPath(dir, entries[i]);
      if HasSuffix(entries[i], "/") {
        e := e + "/";
      }
      out := out + [e];
    }
  }

  function Rooted(r: Repository, at: Located): Repository {
    if at.Elsewhere? || at.rel == "" then r
    else Repository(at.root, if r.paths == [] then [at.rel] else UnderAll(at.rel, r.paths), UnderAll(at.rel, r.ignore))
  }

  /** `rootLocalRepositories`: every component's repositories, in place. */
  method RootLocalRepositories(components: seq<array<Repository>>, subdirectory: string -> Located)
    requires forall i, j :: 0 <= i < j < |components| ==> components[i] != components[j]
    modifies set i | 0 <= i < |components| :: components[i]
    ensures forall i :: 0 <= i < |components| ==> forall k :: 0 <= k < components[i].Length ==>
      components[i][k] == Rooted(old(components[i][k]), subdirectory(old(components[i][k]).url))
  {
    hide Rooted;
    for ci := 0 to |components|
      invariant forall i :: 0 <= i < ci ==> forall k :: 0 <= k < components[i].Length ==>
        components[i][k] == Rooted(old(components[i][k]), subdirectory(old(components[i][k]).url))
      invariant forall i :: ci <= i < |components| ==> forall k :: 0 <= k < components[i].Length ==>
        components[i][k] == old(components[i][k])
    {
      RootRepositories(components[ci], subdirectory);
    }
  }

  method RootRepositories(repos: array<Repository>, subdirectory: string -> Located)
    modifies repos
    ensures forall k :: 0 <= k < repos.Length ==> repos[k] == Rooted(old(repos[k]), subdirectory(old(repos[k]).url))
  {
    hide UnderAll;
    for ri := 0 to repos.Length
      invariant forall k :: 0 <= k < ri ==> repos[k] == Rooted(old(repos[k]), subdirectory(old(repos[k]).url))
      invariant forall k :: ri <= k < repos.Length ==> repos[k] == old(repos[k])
    {
      var r := repos[ri];
      var at := subdirectory(r.url);
      if at.Located? && at.rel != "" {
        r := r.(url := at.root);
        if r.paths == [] {
          r := r.(paths := [at.rel]);
        } else {
          var moved := Under(at.rel, r.paths);
          r := r.(paths := moved);
        }
        var moved := Under(at.rel, r.ignore);
        repos[ri] := r.(ignore := moved);
      }
    }
  }

  // ---- the moved scope ----

  /** What a path entry names, past the closing slash or the closing wildcard that says the same subtree. */
  function Stem(e: string): string {
    if HasSuffix(e, "/**") then e[..|e| - 3] else if HasSuffix(e, "/*") then e[..|e| - 2] else TrimSuffix(e, "/")
  }

  predicate EndsInStar(s: string) { s != "" && s[|s| - 1] == '*' }

  /** A path entry that says what it names: a clean path that ends in no further star, with no blank at either
      end, written bare, with a closing slash, or as the subtree with a closing one or two stars. */
  predicate LiteralEntry(e: string) {
    IsClean(Stem(e)) && !EndsInStar(Stem(e)) && TrimSpace(Stem(e)) == Stem(e) && TrimSpace(e) == e
  }

  /** An ignore pattern that is a clean path of segments, wildcards and all. */
  predicate PlainPattern(p: string) {
    var body := TrimSuffix(p, "/");
    IsClean(body) && TrimSpace(p) == p
  }

  /** Writing `dir` above a listed pattern and above a clean name changes nothing, and a pattern so written
      matches no directory above `dir`, nor `dir` itself unless the pattern matches every clean name. */
  ghost predicate MovesWith(glob: Glob, dir: string, patterns: seq<string>) {
    && (forall i, f :: 0 <= i < |patterns| && IsClean(f) ==>
          (glob(dir + "/" + patterns[i], dir + "/" + f) <==> glob(patterns[i], f)))
    && (forall i, d :: 0 <= i < |patterns| && Covers(d, dir) && glob(dir + "/" + patterns[i], d) ==>
          d == dir && forall f :: IsClean(f) ==> glob(patterns[i], f))
  }

  lemma {:induction false} TrimSpaceStops(a: string, b: string)
    requires a != "" && b != "" && !IsSpace(a[0]) && !IsSpace(b[|b| - 1])
    ensures TrimSpace(a + b) == a + b
  {
  }

  lemma {:induction false} TrimSpaceEnds(s: string)
    requires s != "" && TrimSpace(s) == s
    ensures !IsSpace(s[0]) && !IsSpace(s[|s| - 1])
  {
    TrimLeftShrinks(s);
    TrimRightShrinks(TrimLeft(s, IsSpace));
    TrimRightShrinks(s);
  }

  lemma {:induction false} TrimLeftShrinks(s: string)
    ensures |TrimLeft(s, IsSpace)| <= |s|
    ensures s != "" && IsSpace(s[0]) ==> |TrimLeft(s, IsSpace)| < |s|
  {
    if s != "" { TrimLeftShrinks(s[1..]); }
  }

  lemma {:induction false} TrimRightShrinks(s: string)
    ensures |TrimRight(s, IsSpace)| <= |s|
    ensures s != "" && IsSpace(s[|s| - 1]) ==> |TrimRight(s, IsSpace)| < |s|
  {
    if s != "" { TrimRightShrinks(s[..|s| - 1]); }
  }

  /** A literal entry normalizes to what it names. */
  lemma {:induction false} NormalizeLiteral(e: string)
    requires LiteralEntry(e)
    ensures Normalize(e) == Stem(e) && !NamesRoot(e)
  {
    hide IsClean, Clean, TrimSpace, TrimSlashes, Stem, Closing, TrimSuffix;
    var body := Stem(e);
    CleanFixesClean(body);
    CleanNeverClimbs(body);
    SubtreeSuffixes(body, Closing(e));
    if Closing(e) == "/" {
      TrimOneSlash(body);
    } else {
      assert body + "" == body;
    }
  }

  lemma {:induction false} TrimsItsSuffix(a: string, suffix: string)
    ensures TrimSuffix(a + suffix, suffix) == a
  {
    assert (a + suffix)[|a|..] == suffix && (a + suffix)[..|a|] == a;
  }

  lemma {:induction false} EndsOtherwise(s: string, suffix: string)
    requires suffix != "" && (s == "" || s[|s| - 1] != suffix[|suffix| - 1])
    ensures TrimSuffix(s, suffix) == s
  {
    if HasSuffix(s, suffix) { LastOfSuffix(s, suffix); }
  }

  lemma {:induction false} LastOfSuffix(s: string, suffix: string)
    requires suffix != "" && HasSuffix(s, suffix)
    ensures s != "" && s[|s| - 1] == suffix[|suffix| - 1]
  {
    assert s[|s| - 1] == s[|s| - |suffix|..][|suffix| - 1];
  }

  /** What the two suffix trims make of a literal entry. */
  lemma {:induction false} SubtreeSuffixes(body: string, closing: string)
    requires !EndsInStar(body) && closing in {"", "/", "/*", "/**"}
    ensures TrimSuffix(TrimSuffix(body + closing, "/**"), "/*") == body + if closing == "/" then "/" else ""
  {
    hide TrimSuffix, HasSuffix;
    assert "/*"[1] == '*' && "/**"[2] == '*' && "/*"[0] == '/' && "/**"[1] == '*';
    assert body + "" == body;
    EndsOtherwise(body, "/*");
    if closing == "/**" {
      TrimsItsSuffix(body, "/**");
    } else if closing == "/*" {
      OneStarIsNotTwo(body);
      TrimsItsSuffix(body, "/*");
    } else {
      EndsOtherwise(body + closing, "/**");
      EndsOtherwise(body + closing, "/*");
    }
  }


  lemma {:induction false} MiddleStar(s: string)
    requires HasSuffix(s, "/**")
    ensures s[|s| - 2] == '*'
  {
    assert s[|s| - 2] == s[|s| - 3..][1];
  }

  lemma {:induction false} OneStarIsNotTwo(body: string)
    ensures TrimSuffix(body + "/*", "/**") == body + "/*"
  {
    var e := body + "/*";
    assert e[|e| - 2] == '/';
    if HasSuffix(e, "/**") { MiddleStar(e); }
  }

  lemma {:induction false} NoStarAtEnd(body: string)
    requires !EndsInStar(body)
    ensures !HasSuffix(body, "/**") && !HasSuffix(body, "/*")
  {
  }


  lemma {:induction false} TrimOneSlash(body: string)
    requires IsClean(body)
    ensures TrimSlashes(body + "/") == body
  {
    CleanFixesClean(body);
    var e := body + "/";
    assert TrimLeft(e, c => c == '/') == e;
    assert e[..|e| - 1] == body;
  }

  /** The ways a literal entry closes. */
  function Closing(e: string): (c: string)
    ensures c in {"", "/", "/*", "/**"} && e == Stem(e) + c
  {
    if HasSuffix(e, "/**") then "/**" else if HasSuffix(e, "/*") then "/*" else if HasSuffix(e, "/") then "/" else ""
  }

  lemma {:induction false} StemOf(body: string, closing: string)
    requires IsClean(body) && !EndsInStar(body) && closing in {"", "/", "/*", "/**"}
    ensures Stem(body + closing) == body
  {
    CleanFixesClean(body);
    NoStarAtEnd(body);
    hide IsClean, Clean;
    var e, n := body + closing, |body|;
    assert body[n - 1] != '*' && body[n - 1] != '/';
    assert e[..n] == body && e[n..] == closing;
    if closing == "" {
      assert e == body;
    } else if closing == "/" {
      assert e[n] == '/';
    } else if closing == "/*" {
      assert e[n] == '/' && e[n + 1] == '*';
    } else {
      assert e[n..] == "/**";
    }
  }

  lemma {:induction false} MoveLiteral(dir: string, e: string)
    requires IsClean(dir) && dir != "" && !IsSpace(dir[0]) && LiteralEntry(e)
    ensures LiteralEntry(UnderOne(dir, e)) && Stem(UnderOne(dir, e)) == dir + "/" + Stem(e)
  {
    hide IsClean, TrimSpace, UnderOne, Clean, TrimSlashes, Stem, Closing;
    var body, closing := Stem(e), Closing(e);
    ClosedIsClean(e);
    JoinWithSlash(dir, e);
    CleanFixesClean(body);
    TrimSpaceEnds(body);
    CleanConcat(dir, body);
    TrimSpaceStops(dir, "/" + body);
    assert dir + ("/" + body) == dir + "/" + body;
    StemOf(dir + "/" + body, closing);
    assert dir + "/" + e == dir + "/" + body + closing;
    TrimSpaceStops(dir, "/" + body + closing);
    assert dir + ("/" + body + closing) == dir + "/" + body + closing;
  }

  lemma {:induction false} ClosedIsClean(e: string)
    requires LiteralEntry(e)
    ensures IsClean(TrimSuffix(e, "/"))
  {
    hide IsClean, TrimSpace;
    var body, closing := Stem(e), Closing(e);
    if closing == "/*" || closing == "/**" {
      var star := closing[1..];
      assert e == body + "/" + star && e[|e| - 1] == '*';
      SplitWhole(star, '/');
      assert IsClean(star) by { OneOrdinarySegment(star); }
      CleanConcat(body, star);
      assert TrimSuffix(e, "/") == e;
    }
  }

  /** `path.Join` drops the closing slash and `under` puts it back. */
  lemma {:induction false} JoinWithSlash(dir: string, e: string)
    requires IsClean(dir) && IsClean(TrimSuffix(e, "/"))
    ensures UnderOne(dir, e) == dir + "/" + e
  {
    var body := TrimSuffix(e, "/");
    CleanFixesClean(body);
    CleanFixesClean(dir);
    JoinClean(dir, body);
    if e != body {
      assert e == body + "/";
      assert dir + "/" + e == dir + "/" + body + "/";
      ClosedIsItself(dir + "/" + body);
    }
  }

  /** A path entry selects a file by its own name or a directory's above it. */
  predicate Held(f: string, keep: seq<string>) { exists i :: 0 <= i < |keep| && Covers(keep[i], f) }

  /** The moved paths select `dir/f` exactly when the written ones select `f` by name. */
  lemma {:induction false} PathsMove(dir: string, paths: seq<string>, f: string)
    requires IsClean(dir) && dir != "" && !IsSpace(dir[0])
    requires paths != [] && forall i :: 0 <= i < |paths| ==> LiteralEntry(paths[i])
    ensures Selected(paths) != [] && Selected(UnderAll(dir, paths)) != []
    ensures WithinPaths(dir + "/" + f, Selected(UnderAll(dir, paths)), false) <==> Held(f, Selected(paths))
  {
    hide Normalize, NamesRoot, LiteralEntry, UnderOne;
    var moved := UnderAll(dir, paths);
    forall i | 0 <= i < |paths|
      ensures !NamesRoot(paths[i]) && !NamesRoot(moved[i]) && Normalize(moved[i]) == dir + "/" + Normalize(paths[i])
    {
      NormalizeLiteral(paths[i]);
      MoveLiteral(dir, paths[i]);
      NormalizeLiteral(moved[i]);
    }
    RootConfigHasNoDirectory();
    assert (dir + "/" + f)[|dir|] == '/';
    var k, km := Selected(paths), Selected(moved);
    forall i | 0 <= i < |paths|
      ensures (dir + "/" + f == km[i] || km[i] + "/" <= dir + "/" + f) <==> Covers(k[i], f)
    {
      assert km[i] == dir + "/" + k[i];
      PrefixMoves(dir + "/", k[i], f);
      PrefixMoves(dir + "/", k[i] + "/", f);
      assert km[i] + "/" == dir + "/" + (k[i] + "/");
    }
  }

  lemma {:induction false} PrefixMoves(pre: string, a: string, b: string)
    ensures pre + a == pre + b <==> a == b
    ensures pre + a <= pre + b <==> a <= b
  {
    assert (pre + a)[|pre|..] == a && (pre + b)[|pre|..] == b;
    if pre + a <= pre + b {
      assert (pre + b)[..|pre + a|] == pre + a;
      assert b[..|a|] == (pre + b)[|pre|..|pre + a|] == a;
    }
  }

  lemma {:induction false} FirstSegmentsMove(dir: string, f: string, n: nat)
    requires n >= 1
    ensures FirstSegments(dir + "/" + f, Count(dir, '/') + 1 + n) == dir + "/" + FirstSegments(f, n)
  {
    var d, s := Segments(dir), Segments(f);
    SplitConcat(dir, f, '/');
    assert dir + "/" + f == dir + ['/'] + f;
    SplitLength(dir, '/');
    JoinSplit(dir, '/');
    if |s| > n {
      assert (d + s)[..|d| + n] == d + s[..n];
      JoinConcat(d, s[..n], '/');
    }
  }

  lemma {:induction false} FirstSegmentsAreClean(rel: string, n: nat)
    requires IsClean(rel) && n >= 1
    ensures IsClean(FirstSegments(rel, n))
  {
    if |Segments(rel)| > n {
      SegmentPrefixIsAbove(rel, n);
      AboveClean(FirstSegments(rel, n), rel);
    }
  }

  /** A moved pattern covers `dir/rel` exactly when the written one covers `rel`. */
  lemma {:induction false} PatternMoves(glob: Glob, dir: string, patterns: seq<string>, i: nat, rel: string,
          isDir: bool)
    requires IsClean(dir) && dir != "" && !IsSpace(dir[0]) && i < |patterns| && PlainPattern(patterns[i])
    requires MovesWith(glob, dir, patterns) && IsClean(rel)
    ensures MatchesPattern(glob, UnderOne(dir, patterns[i]), dir + "/" + rel, isDir) <==>
      MatchesPattern(glob, patterns[i], rel, isDir)
  {
    hide IsClean, TrimSpace, FirstSegments, PlainPattern, UnderOne;
    var p := patterns[i];
    MovedPattern(dir, p);
    PlainIsTrimmed(p);
    var moved := dir + "/" + p;
    if HasSuffix(p, "/") {
      PrefixMoves(dir + "/", p, rel);
      PrefixMoves(dir + "/", TrimSuffix(p, "/"), rel);
      assert TrimSuffix(moved, "/") == dir + "/" + TrimSuffix(p, "/");
    } else {
      var n := Count(p, '/') + 1;
      CountUnder(dir, p);
      FirstSegmentsMove(dir, rel, n);
      FirstSegmentsAreClean(rel, n);
    }
  }

  lemma {:induction false} CountUnder(dir: string, p: string)
    ensures Count(dir + "/" + p, '/') == Count(dir, '/') + 1 + Count(p, '/')
  {
    CountConcat(dir + "/", p, '/');
    CountConcat(dir, "/", '/');
    assert Count("/", '/') == 1;
  }

  lemma {:induction false} PlainIsTrimmed(p: string)
    requires PlainPattern(p)
    ensures TrimSpace(p) == p
  {
  }

  lemma {:induction false} MovedPattern(dir: string, p: string)
    requires IsClean(dir) && dir != "" && !IsSpace(dir[0]) && PlainPattern(p)
    ensures UnderOne(dir, p) == dir + "/" + p && TrimSpace(dir + "/" + p) == dir + "/" + p && p != ""
    ensures HasSuffix(dir + "/" + p, "/") <==> HasSuffix(p, "/")
  {
    CleanFixesClean(TrimSuffix(p, "/"));
    hide IsClean, Clean, TrimSpace, TrimSlashes, UnderOne;
    JoinWithSlash(dir, p);
    assert p != "";
    TrimSpaceEnds(p);
    TrimSpaceStops(dir, "/" + p);
    assert dir + ("/" + p) == dir + "/" + p;
    Globs.EndsWithSlash(p);
    Globs.EndsWithSlash(dir + "/" + p);
  }

  /** A pattern moved under `dir` that covers `dir` or a directory above it covers every file as written. */
  lemma {:induction false} PatternOverDirectory(glob: Glob, dir: string, patterns: seq<string>, i: nat, d: string,
          f: string)
    requires IsClean(dir) && dir != "" && !IsSpace(dir[0]) && i < |patterns| && PlainPattern(patterns[i])
    requires MovesWith(glob, dir, patterns) && Covers(d, dir) && IsClean(f)
    requires MatchesPattern(glob, UnderOne(dir, patterns[i]), d, true)
    ensures MatchesPattern(glob, patterns[i], f, false)
  {
    hide IsClean, TrimSpace, PlainPattern, UnderOne;
    var p := patterns[i];
    MovedPattern(dir, p);
    PlainIsTrimmed(p);
    var moved := dir + "/" + p;
    if HasSuffix(p, "/") {
      SlashedNeedsBelow(dir, p, d);
    } else {
      CoversFirstSegments(d, Count(moved, '/') + 1, dir);
    }
  }

  lemma {:induction false} SlashedNeedsBelow(dir: string, p: string, d: string)
    requires PlainPattern(p) && HasSuffix(p, "/") && Covers(d, dir)
    ensures d != TrimSuffix(dir + "/" + p, "/") && !(dir + "/" + p <= d)
  {
    var moved := dir + "/" + p;
    assert |TrimSuffix(moved, "/")| == |moved| - 1;
    CleanFixesClean(TrimSuffix(p, "/"));
  }

  lemma {:induction false} CoversFirstSegments(d: string, n: nat, dir: string)
    requires Covers(d, dir) && n >= 1
    ensures Covers(FirstSegments(d, n), dir)
  {
    if |Segments(d)| > n {
      SegmentPrefixIsAbove(d, n);
      if d != dir { AboveTransitive(FirstSegments(d, n), d, dir); }
    }
  }

  /** The scope a repository in `dir` is left with. */
  function Moved(dir: string, scope: Scope): Scope {
    var r := Rooted(Repository(dir, scope.paths, scope.ignore), Located("", dir));
    Scope(r.paths, r.ignore, scope.history)
  }

  /** A scope of literal path entries and clean patterns. */
  predicate Written(scope: Scope) {
    && (forall i :: 0 <= i < |scope.paths| ==> LiteralEntry(scope.paths[i]))
    && (forall i :: 0 <= i < |scope.ignore| ==> PlainPattern(scope.ignore[i]))
  }

  /** As a path entry a directory names itself, one above it, or the whole repository. */
  predicate NamedAbove(dir: string) { NamesRoot(dir) || Covers(Normalize(dir), dir) }

  /** A file no path selects, and only its name keeps: a root configuration file. */
  predicate OnlyAsConfig(scope: Scope, f: string) {
    f in ROOT_CONFIG && Selected(scope.paths) != [] && !Held(f, Selected(scope.paths))
  }

  /** Moving a directory's scope under the repository root preserves it: `dir/f` is in the moved scope
      exactly when `f` was in the written one, unless it was there only as a root configuration file, which it
      no longer is. */
  lemma {:induction false} MovedScopeContains(glob: Glob, dir: string, scope: Scope, f: string)
    requires IsClean(dir) && dir != "" && !IsSpace(dir[0]) && NamedAbove(dir) && IsClean(f)
    requires Written(scope) && MovesWith(glob, dir, scope.ignore)
    ensures Contains(glob, Moved(dir, scope), dir + "/" + f) <==>
      Contains(glob, scope, f) && !OnlyAsConfig(scope, f)
  {
    hide Selected, Spared, MatchesPattern, NamesRoot, LiteralEntry, PlainPattern, MovesWith;
    var moved := Moved(dir, scope);
    var g := dir + "/" + f;
    CleanConcat(dir, f);
    ContainsIsTheWalk(glob, scope, f);
    ContainsIsTheWalk(glob, moved, g);
    ChainSplits(glob, scope, f);
    ChainSplits(glob, moved, g);
    SelectionMoves(dir, scope, f);
    IgnoresMove(glob, dir, scope.ignore, f);
    WithinOrConfig(f, Selected(scope.paths));
    hide WithinPaths;
  }

  /** Such a file: where only `src` is selected, the directory's own `trivy.yaml` is in the written scope and
      not in the moved one. */
  lemma {:induction false} ConfigStaysBehind(glob: Glob, dir: string)
    requires IsClean(dir) && dir != "" && !IsSpace(dir[0]) && NamedAbove(dir)
    ensures var scope := Scope(["src"], [], false);
            Contains(glob, scope, "trivy.yaml") && !Contains(glob, Moved(dir, scope), dir + "/" + "trivy.yaml")
  {
    var scope := Scope(["src"], [], false);
    hide Contains, IsClean, NamedAbove, SparedChain, Normalize, Written;
    SrcIsWritten();
    SrcIsSelected();
    TrivyYaml();
    ContainsIsTheWalk(glob, scope, "trivy.yaml");
    ChainSplits(glob, scope, "trivy.yaml");
    WithinOrConfig("trivy.yaml", ["src"]);
    assert OnlyAsConfig(scope, "trivy.yaml") by { assert ["src"][0] == "src"; }
    MovedScopeContains(glob, dir, scope, "trivy.yaml");
  }

  lemma {:induction false} TrivyYaml()
    ensures "trivy.yaml" in ROOT_CONFIG && IsClean("trivy.yaml") && !Covers("src", "trivy.yaml")
  {
    assert ROOT_CONFIG[6] == "trivy.yaml";
    assert "trivy.yaml"[0] == 't' && "src"[0] == 's';
    RootConfigHasNoDirectory();
    SplitWhole("trivy.yaml", '/');
    OneOrdinarySegment("trivy.yaml");
  }

  lemma {:induction false} WithinOrConfig(f: string, keep: seq<string>)
    ensures WithinPaths(f, keep, false) <==> f in ROOT_CONFIG || Held(f, keep)
  {
    hide ROOT_CONFIG;
    if i :| 0 <= i < |keep| && (f == keep[i] || keep[i] + "/" <= f) { assert Covers(keep[i], f); }
  }

  ghost predicate Ignored(glob: Glob, patterns: seq<string>, f: string) {
    MatchesAny(glob, patterns, f, false) || exists d :: Above(d, f) && MatchesAny(glob, patterns, d, true)
  }

  lemma {:induction false} ChainSplits(glob: Glob, scope: Scope, f: string)
    ensures SparedChain(glob, scope, true, f) <==>
              (Selected(scope.paths) == [] || WithinPaths(f, Selected(scope.paths), false)) &&
                !Ignored(glob, scope.ignore, f)
  {
    var keep := Selected(scope.paths);
    if keep != [] && WithinPaths(f, keep, false) && !Ignored(glob, scope.ignore, f) {
      forall d | Above(d, f) ensures Spared(glob, scope, true, d, true) {
        AncestorsOfKeptAreKept(keep, d, f);
      }
    }
    if SparedChain(glob, scope, true, f) {
      forall d | Above(d, f) ensures !MatchesAny(glob, scope.ignore, d, true) {
        assert Spared(glob, scope, true, d, true);
      }
    }
  }

  lemma {:induction false} SelectionMoves(dir: string, scope: Scope, f: string)
    requires IsClean(dir) && dir != "" && !IsSpace(dir[0]) && NamedAbove(dir)
    requires forall i :: 0 <= i < |scope.paths| ==> LiteralEntry(scope.paths[i])
    ensures var moved := if scope.paths == [] then [dir] else UnderAll(dir, scope.paths);
            (Selected(moved) == [] || WithinPaths(dir + "/" + f, Selected(moved), false)) <==>
            (Selected(scope.paths) == [] || Held(f, Selected(scope.paths)))
  {
    if scope.paths == [] {
      DirectoryIsSelected(dir, f);
      NothingIsSelected();
    } else {
      PathsMove(dir, scope.paths, f);
    }
  }

  /** The entry for the directory alone selects what lies in it exactly when it names it or one above it. */
  lemma {:induction false} DirectoryIsSelected(dir: string, f: string)
    ensures Selected([dir]) == [] || WithinPaths(dir + "/" + f, Selected([dir]), false) <==> NamedAbove(dir)
  {
    OnlyEntry(dir);
    NormalizeIsShorter(dir);
    RootConfigHasNoDirectory();
    hide Normalize, Selected, ROOT_CONFIG;
    var n, g := Normalize(dir), dir + "/" + f;
    assert g[|dir|] == '/' && [n][0] == n;
    if n + "/" <= g {
      assert |n| == |dir| ==> n == g[..|n|] == dir;
      assert |n| < |dir| ==> n + "/" <= dir;
    }
  }

  lemma {:induction false} NormalizeIsShorter(p: string)
    ensures |Normalize(p)| <= |p|
  {
    hide IsSpace;
    TrimLeftIsEnd(p, IsSpace);
    TrimRightIsStart(TrimLeft(p, IsSpace), IsSpace);
    var q := TrimSuffix(TrimSuffix(TrimSpace(p), "/**"), "/*");
    TrimLeftIsEnd(q, c => c == '/');
    TrimRightIsStart(TrimLeft(q, c => c == '/'), c => c == '/');
  }

  lemma {:induction false} TrimLeftIsEnd(s: string, cut: char -> bool)
    ensures var t := TrimLeft(s, cut); |t| <= |s| && t == s[|s| - |t|..] && (t != "" ==> !cut(t[0]))
    ensures forall k :: 0 <= k < |s| - |TrimLeft(s, cut)| ==> cut(s[k])
  {
    if s != "" { TrimLeftIsEnd(s[1..], cut); }
  }

  lemma {:induction false} TrimRightIsStart(s: string, cut: char -> bool)
    ensures var t := TrimRight(s, cut); |t| <= |s| && t == s[..|t|] && (t != "" ==> !cut(t[|t| - 1]))
  {
    if s != "" { TrimRightIsStart(s[..|s| - 1], cut); }
  }

  lemma {:induction false} NothingIsSelected()
    ensures Selected([]) == []
  {
  }

  lemma {:induction false} MatchesMove(glob: Glob, dir: string, ignore: seq<string>, rel: string, isDir: bool)
    requires IsClean(dir) && dir != "" && !IsSpace(dir[0]) && IsClean(rel)
    requires forall i :: 0 <= i < |ignore| ==> PlainPattern(ignore[i])
    requires MovesWith(glob, dir, ignore)
    ensures MatchesAny(glob, UnderAll(dir, ignore), dir + "/" + rel, isDir) <==> MatchesAny(glob, ignore, rel, isDir)
  {
    hide MatchesPattern, PlainPattern, MovesWith, UnderOne, IsClean;
    forall i | 0 <= i < |ignore|
      ensures MatchesPattern(glob, UnderAll(dir, ignore)[i], dir + "/" + rel, isDir) <==>
        MatchesPattern(glob, ignore[i], rel, isDir)
    {
      PatternMoves(glob, dir, ignore, i, rel, isDir);
    }
  }

  /** A moved pattern that covers a directory above `dir/f` either covers one below `dir`, or covered every
      file as written. */
  lemma {:induction false} MovedMatchIgnores(glob: Glob, dir: string, ignore: seq<string>, d: string, f: string)
    requires IsClean(dir) && dir != "" && !IsSpace(dir[0]) && IsClean(f)
    requires forall i :: 0 <= i < |ignore| ==> PlainPattern(ignore[i])
    requires MovesWith(glob, dir, ignore)
    requires Above(d, dir + "/" + f) && MatchesAny(glob, UnderAll(dir, ignore), d, true)
    ensures Ignored(glob, ignore, f)
  {
    hide MatchesPattern, PlainPattern, MovesWith, UnderOne, IsClean;
    var g := dir + "/" + f;
    AboveLinear(d, dir, g);
    if Covers(d, dir) {
      var i :| 0 <= i < |ignore| && MatchesPattern(glob, UnderAll(dir, ignore)[i], d, true);
      PatternOverDirectory(glob, dir, ignore, i, d, f);
      assert MatchesAny(glob, ignore, f, false);
    } else {
      var e := d[|dir| + 1..];
      assert d == dir + "/" + e;
      PrefixMoves(dir + "/", e + "/", f);
      assert d + "/" == dir + "/" + (e + "/");
      AboveClean(e, f);
      MatchesMove(glob, dir, ignore, e, true);
    }
  }

  lemma {:induction false} IgnoresMove(glob: Glob, dir: string, ignore: seq<string>, f: string)
    requires IsClean(dir) && dir != "" && !IsSpace(dir[0]) && IsClean(f)
    requires forall i :: 0 <= i < |ignore| ==> PlainPattern(ignore[i])
    requires MovesWith(glob, dir, ignore)
    ensures Ignored(glob, UnderAll(dir, ignore), dir + "/" + f) <==> Ignored(glob, ignore, f)
  {
    hide MatchesAny, PlainPattern, MovesWith, UnderAll, IsClean, TrimSpace;
    var moved, g := UnderAll(dir, ignore), dir + "/" + f;
    MatchesMove(glob, dir, ignore, f, false);
    if d :| Above(d, g) && MatchesAny(glob, moved, d, true) {
      MovedMatchIgnores(glob, dir, ignore, d, f);
    }
    forall e | Above(e, f) && MatchesAny(glob, ignore, e, true)
      ensures Above(dir + "/" + e, g) && MatchesAny(glob, moved, dir + "/" + e, true)
    {
      PrefixMoves(dir + "/", e + "/", f);
      assert dir + "/" + e + "/" == dir + "/" + (e + "/");
      AboveClean(e, f);
      MatchesMove(glob, dir, ignore, e, true);
    }
  }

  // ---- the descriptor's own glob ----

  lemma {:induction false} PatternStarts(p: string)
    requires PlainPattern(p)
    ensures p != "" && p[0] != '/'
  {
    CleanFixesClean(TrimSuffix(p, "/"));
  }

  /** The descriptor's glob moves with every steady directory, whatever the patterns. */
  lemma {:induction false} GlobMovesWith(dir: string, patterns: seq<string>)
    requires IsClean(dir) && Globs.Steady(dir)
    requires forall i :: 0 <= i < |patterns| ==> PlainPattern(patterns[i])
    ensures MovesWith(Globs.GlobMatch, dir, patterns)
  {
    hide Globs.GlobMatch, PlainPattern, Globs.Steady;
    CleanFixesClean(dir);
    forall f | IsClean(f) ensures f != "" && f[0] != '/' {
      CleanFixesClean(f);
    }
    hide IsClean;
    forall i, f | 0 <= i < |patterns| && IsClean(f)
      ensures Globs.GlobMatch(dir + "/" + patterns[i], dir + "/" + f) <==> Globs.GlobMatch(patterns[i], f)
    {
      PatternStarts(patterns[i]);
      Globs.GlobMoves(dir, patterns[i], f);
    }
    forall i, d | 0 <= i < |patterns| && Covers(d, dir) && Globs.GlobMatch(dir + "/" + patterns[i], d)
      ensures d == dir && forall f :: IsClean(f) ==> Globs.GlobMatch(patterns[i], f)
    {
      PatternStarts(patterns[i]);
      Globs.MovedOverDirectory(dir, patterns[i], d);
    }
  }

  /** Every scope of literal paths and clean patterns keeps its files when moved under `dir`, but for those
      kept only as root configuration. */
  ghost predicate ScopesMove(dir: string) {
    forall scope, f :: Written(scope) && IsClean(f) ==>
      (Contains(Globs.GlobMatch, Moved(dir, scope), dir + "/" + f) <==>
        Contains(Globs.GlobMatch, scope, f) && !OnlyAsConfig(scope, f))
  }

  /** With the program's own matcher, a directory's scopes all move under the root unchanged exactly when its
      path begins with no blank, names itself or a directory above it as a path entry, and holds no `[`, no
      backslash and no `**`. Only a path that holds a lone `*` beside a `[` or a backslash is left out. */
  lemma {:induction false} ScopesMoveExactly(dir: string)
    requires IsClean(dir) && dir != ""
    requires Globs.DoubleStar(dir) < |dir| || '*' !in dir || ('[' !in dir && '\\' !in dir)
    ensures ScopesMove(dir) <==> !IsSpace(dir[0]) && NamedAbove(dir) && Globs.Steady(dir)
  {
    hide Contains, Written, Moved, OnlyAsConfig, NamedAbove, IsClean;
    if IsSpace(dir[0]) {
      LeadingBlankLosesSrc(dir);
    } else if !NamedAbove(dir) {
      UnnamedLosesAll(dir);
    } else if !Globs.Steady(dir) {
      var f := VendorDoesNotMove(dir);
    } else {
      forall scope, f | Written(scope) && IsClean(f)
        ensures Contains(Globs.GlobMatch, Moved(dir, scope), dir + "/" + f) <==>
          Contains(Globs.GlobMatch, scope, f) && !OnlyAsConfig(scope, f)
      {
        PatternsOf(scope);
        GlobMovesWith(dir, scope.ignore);
        MovedScopeContains(Globs.GlobMatch, dir, scope, f);
      }
    }
  }

  /** No scope moved under `dir` holds anything else of the repository, but for its root configuration. */
  ghost predicate NothingElse(dir: string) {
    forall scope, g :: Written(scope) && IsClean(g) && Contains(Globs.GlobMatch, Moved(dir, scope), g) ==>
      g in ROOT_CONFIG || Covers(dir, g)
  }

  /** A directory's scopes all mean under the root what they were written to mean, no file of the directory
      lost and none beside it taken in, exactly when as a path entry the directory names itself and its path
      holds no `[`, no backslash and no `**`. */
  lemma {:induction false} ScopesKeepTheirMeaning(dir: string)
    requires IsClean(dir) && dir != ""
    requires Globs.DoubleStar(dir) < |dir| || '*' !in dir || ('[' !in dir && '\\' !in dir)
    ensures ScopesMove(dir) && NothingElse(dir) <==> Normalize(dir) == dir && Globs.Steady(dir)
  {
    ScopesMoveExactly(dir);
    if Normalize(dir) == dir { NamesItself(dir); }
    hide ScopesMove, NothingElse, Globs.Steady, Normalize, IsClean;
    if !IsSpace(dir[0]) && NamedAbove(dir) { NothingElseExactly(dir); }
  }

  lemma {:induction false} NamesItself(dir: string)
    requires dir != "" && Normalize(dir) == dir
    ensures !IsSpace(dir[0]) && NamedAbove(dir)
  {
    var t := TrimSpace(dir);
    var q := TrimSuffix(TrimSuffix(t, "/**"), "/*");
    TrimSpaceIsShorter(dir);
    TrimLeftIsEnd(q, c => c == '/');
    TrimRightIsStart(TrimLeft(q, c => c == '/'), c => c == '/');
    assert t == dir;
    TrimSpaceEnds(dir);
  }

  lemma {:induction false} TrimSpaceIsShorter(p: string)
    ensures |TrimSpace(p)| <= |p| && (|TrimSpace(p)| == |p| ==> TrimSpace(p) == p)
  {
    hide IsSpace;
    TrimLeftIsEnd(p, IsSpace);
    TrimRightIsStart(TrimLeft(p, IsSpace), IsSpace);
  }

  lemma {:induction false} NothingElseExactly(dir: string)
    requires IsClean(dir) && dir != "" && !IsSpace(dir[0]) && NamedAbove(dir)
    ensures NothingElse(dir) <==> Normalize(dir) == dir
  {
    if Normalize(dir) == dir {
      forall scope, g | Written(scope) && IsClean(g) && Contains(Globs.GlobMatch, Moved(dir, scope), g)
        ensures g in ROOT_CONFIG || Covers(dir, g)
      {
        MovedStaysInside(Globs.GlobMatch, dir, scope, g);
      }
    } else {
      var g := TakenBeside(dir);
      NothingWritten(Scope([], [], false));
    }
  }

  /** A moved scope's paths lie in a directory that names itself. */
  lemma {:induction false} MovedStaysInside(glob: Glob, dir: string, scope: Scope, g: string)
    requires IsClean(dir) && dir != "" && !IsSpace(dir[0]) && Normalize(dir) == dir
    requires Written(scope) && IsClean(g) && Contains(glob, Moved(dir, scope), g)
    ensures g in ROOT_CONFIG || Covers(dir, g)
  {
    var moved := Moved(dir, scope);
    var keep := Selected(moved.paths);
    CleanFixesClean(dir);
    CleanNeverClimbs(dir);
    hide Contains, IsClean, Normalize, LiteralEntry, ROOT_CONFIG;
    ContainsIsTheWalk(glob, moved, g);
    ChainSplits(glob, moved, g);
    WithinOrConfig(g, keep);
    if scope.paths == [] {
      OnlyEntry(dir);
      assert moved.paths == [dir];
    } else {
      KeptLieInside(dir, scope.paths);
    }
    if g !in ROOT_CONFIG {
      assert keep != [];
      var i :| 0 <= i < |keep| && Covers(keep[i], g);
      assert Covers(dir, keep[i]);
    }
  }

  lemma {:induction false} KeptLieInside(dir: string, paths: seq<string>)
    requires IsClean(dir) && dir != "" && !IsSpace(dir[0])
    requires paths != [] && forall i :: 0 <= i < |paths| ==> LiteralEntry(paths[i])
    ensures var keep := Selected(UnderAll(dir, paths));
            keep != [] && forall i :: 0 <= i < |keep| ==> Above(dir, keep[i])
  {
    hide Normalize, NamesRoot, LiteralEntry, UnderOne;
    var moved := UnderAll(dir, paths);
    forall i | 0 <= i < |paths| ensures !NamesRoot(moved[i]) && Above(dir, Normalize(moved[i])) {
      MoveLiteral(dir, paths[i]);
      NormalizeLiteral(moved[i]);
    }
  }

  /** A file beside a directory whose entry names more than it, and which its whole scope takes in. */
  lemma {:induction false} TakenBeside(dir: string) returns (g: string)
    requires IsClean(dir) && NamedAbove(dir) && Normalize(dir) != dir
    ensures IsClean(g) && g !in ROOT_CONFIG && !Covers(dir, g)
    ensures Contains(Globs.GlobMatch, Moved(dir, Scope([], [], false)), g)
  {
    TwoNames();
    CleanFixesClean(dir);
    hide Contains, IsClean, Normalize, ROOT_CONFIG, NamedAbove;
    if NamesRoot(dir) {
      g := OneBeside(dir, "");
      assert "" + "o" == "o" && "" + "p" == "p";
    } else {
      var n := Normalize(dir);
      assert Above(n, dir) by { NamedIsAbove(dir); }
      g := OneBeside(dir, n + "/");
      AboveClean(n, dir);
      CleanConcat(n, "o");
      CleanConcat(n, "p");
      HasADirectory(n, "o");
      HasADirectory(n, "p");
    }
    InMovedWhole(dir, g);
  }

  lemma {:induction false} NamedIsAbove(dir: string)
    requires NamedAbove(dir) && !NamesRoot(dir) && Normalize(dir) != dir
    ensures Above(Normalize(dir), dir)
  {
    hide Normalize;
  }

  lemma {:induction false} HasADirectory(n: string, name: string)
    ensures n + "/" + name !in ROOT_CONFIG && Covers(n, n + "/" + name)
  {
    RootConfigHasNoDirectory();
    hide ROOT_CONFIG;
    assert (n + "/" + name)[|n|] == '/';
  }

  /** Of two names in one place a directory below it is at most one, and holds neither. */
  lemma {:induction false} OneBeside(dir: string, pre: string) returns (g: string)
    requires |dir| >= |pre|
    ensures g in {pre + "o", pre + "p"} && !Covers(dir, g)
  {
    g := if dir == pre + "o" then pre + "p" else pre + "o";
    AboveIsShorter(dir, pre, "o");
    AboveIsShorter(dir, pre, "p");
    assert (pre + "o")[|pre|] == 'o' && (pre + "p")[|pre|] == 'p';
  }

  lemma {:induction false} InMovedWhole(dir: string, g: string)
    requires dir != "" && IsClean(g) && (NamesRoot(dir) || Covers(Normalize(dir), g))
    ensures Contains(Globs.GlobMatch, Moved(dir, Scope([], [], false)), g)
  {
    var moved := Moved(dir, Scope([], [], false));
    hide Contains, IsClean, Normalize, ROOT_CONFIG, SparedChain;
    OnlyEntry(dir);
    assert moved.paths == [dir] && [Normalize(dir)][0] == Normalize(dir);
    WithinOrConfig(g, Selected([dir]));
    ContainsIsTheWalk(Globs.GlobMatch, moved, g);
    ChainSplits(Globs.GlobMatch, moved, g);
  }

  lemma {:induction false} TwoNames()
    ensures IsClean("o") && IsClean("p") && "o" !in ROOT_CONFIG && "p" !in ROOT_CONFIG
  {
    assert "o"[0] == 'o' && "p"[0] == 'p' && '/' !in "o" && '/' !in "p";
    SplitWhole("o", '/');
    SplitWhole("p", '/');
    OneOrdinarySegment("o");
    OneOrdinarySegment("p");
  }

  lemma {:induction false} AboveIsShorter(dir: string, pre: string, name: string)
    requires |name| == 1 && name[0] != '/'
    ensures Above(dir, pre + name) ==> |dir| < |pre|
  {
    var g := pre + name;
    if Above(dir, g) { assert g[|dir|] == '/' && g[|pre|] == name[0]; }
  }

  lemma {:induction false} PatternsOf(scope: Scope)
    requires Written(scope)
    ensures forall i :: 0 <= i < |scope.ignore| ==> PlainPattern(scope.ignore[i])
  {
  }

  /** The scope that ignores `vendor`. */
  const NO_VENDOR := Scope([], ["vendor"], false)

  lemma {:induction false} VendorIsWritten()
    ensures Written(NO_VENDOR) && IsClean("vendor") && "vendor" !in ROOT_CONFIG && IsClean("x") && "x" !in ROOT_CONFIG
  {
    hide IsClean, TrimSpace, LiteralEntry, TrimSuffix;
    VendorIsTrimmed();
    NotRootConfig();
    VendorIsClean();
    assert NO_VENDOR.ignore == ["vendor"] && NO_VENDOR.paths == [];
  }

  lemma {:induction false} VendorIsClean()
    ensures IsClean("vendor") && IsClean("x")
  {
    assert "vendor"[0] == 'v' && "x"[0] == 'x' && '/' !in "vendor" && '/' !in "x";
    SplitWhole("vendor", '/');
    SplitWhole("x", '/');
    OneOrdinarySegment("vendor");
    OneOrdinarySegment("x");
  }

  lemma {:induction false} NotRootConfig()
    ensures "vendor" !in ROOT_CONFIG && "x" !in ROOT_CONFIG
  {
  }

  lemma {:induction false} VendorIsTrimmed()
    ensures TrimSpace("vendor") == "vendor" && !HasSuffix("vendor", "/") && TrimSuffix("vendor", "/") == "vendor"
  {
    assert "vendor"[5] == 'r';
    EndsOtherwise("vendor", "/");
    TrimSpaceStops("v", "endor");
    assert "v" + "endor" == "vendor";
  }

  lemma {:induction false} VendorOrX(rel: string, isDir: bool)
    requires rel == "vendor" || (rel != "" && rel[0] == 'x')
    ensures MatchesAny(Globs.GlobMatch, ["vendor"], rel, isDir) <==> rel == "vendor"
  {
    hide Globs.GlobMatch, FirstSegments;
    VendorIsTrimmed();
    assert ["vendor"][0] == "vendor" && '/' !in "vendor";
    NoSlashNoCount("vendor");
    if rel == "vendor" {
      Globs.PlainMatchesItself(rel);
    } else {
      FirstStartsAlike(rel);
      VendorIsNotX(rel);
      VendorIsNotX(FirstSegments(rel, 1));
    }
  }

  lemma {:induction false} FirstStartsAlike(rel: string)
    requires rel != "" && rel[0] != '/'
    ensures FirstSegments(rel, 1) != "" && FirstSegments(rel, 1)[0] == rel[0]
  {
    if |Segments(rel)| > 1 { SegmentPrefixIsAbove(rel, 1); }
  }

  lemma {:induction false} SlashAfter(d: string, rel: string)
    requires Above(d, rel)
    ensures '/' in rel
  {
    assert rel[|d|] == '/';
  }

  lemma {:induction false} NothingAboveOne(rel: string)
    requires '/' !in rel
    ensures forall d :: !Above(d, rel)
  {
    forall d ensures Above(d, rel) ==> '/' in rel {
      if Above(d, rel) { SlashAfter(d, rel); }
    }
  }

  /** Where only the pattern `vendor` stands, what starts otherwise is in the scope, and `vendor` is not. */
  lemma {:induction false} InNoVendor(f: string)
    requires IsClean(f) && (f == "vendor" || (f != "" && f[0] == 'x'))
    ensures Contains(Globs.GlobMatch, NO_VENDOR, f) <==> f != "vendor"
    ensures !OnlyAsConfig(NO_VENDOR, f)
  {
    hide Globs.GlobMatch, MatchesAny, Contains, SparedChain, IsClean;
    ContainsIsTheWalk(Globs.GlobMatch, NO_VENDOR, f);
    ChainSplits(Globs.GlobMatch, NO_VENDOR, f);
    NothingIsSelected();
    VendorOrX(f, false);
    if f == "vendor" {
      NothingAboveOne(f);
    } else {
      forall d | Above(d, f) ensures !MatchesAny(Globs.GlobMatch, ["vendor"], d, true) {
        AboveClean(d, f);
        CleanFixesClean(d);
        assert "vendor"[0] != 'x';
        VendorOrX(d, true);
      }
    }
  }

  lemma {:induction false} OtherStart(chunk: string, s: string)
    requires chunk != "" && s != "" && chunk[0] !in {'[', '?', '\\'} && chunk[0] != s[0]
    ensures Globs.MatchChunk(chunk, s).None?
  {
  }

  lemma {:induction false} VendorIsNotX(rel: string)
    requires rel != "" && rel[0] == 'x'
    ensures !Globs.GlobMatch("vendor", rel)
  {
    hide Globs.GlobMatch, Globs.MatchChunk;
    assert "vendor"[0] == 'v' && '*' !in "vendor";
    NotByOneChunk("vendor", rel);
    OtherStart("vendor", rel);
  }

  /** The moved pattern, met with a directory above `dir/f` or with the file. */
  lemma {:induction false} MovedVendor(dir: string, rel: string, isDir: bool)
    requires IsClean(dir) && dir != "" && !IsSpace(dir[0])
    ensures Globs.GlobMatch(dir + "/vendor", rel) ==> MatchesAny(Globs.GlobMatch, UnderAll(dir, ["vendor"]), rel, isDir)
    ensures Count(rel, '/') <= Count(dir, '/') + 1 ==>
      (MatchesAny(Globs.GlobMatch, UnderAll(dir, ["vendor"]), rel, isDir) <==> Globs.GlobMatch(dir + "/vendor", rel))
  {
    hide Globs.GlobMatch, IsClean, TrimSpace, UnderOne, PlainPattern;
    VendorIsWritten();
    PatternsOf(NO_VENDOR);
    assert NO_VENDOR.ignore[0] == "vendor";
    MovedPattern(dir, "vendor");
    var moved := dir + "/vendor";
    assert dir + "/" + "vendor" == moved;
    VendorIsTrimmed();
    CountUnder(dir, "vendor");
    NoSlashNoCount("vendor");
    SplitLength(rel, '/');
    assert UnderAll(dir, ["vendor"])[0] == moved;
  }

  lemma {:induction false} NoSlashNoCount(s: string)
    requires '/' !in s
    ensures Count(s, '/') == 0
  {
    if s != "" { NoSlashNoCount(s[1..]); }
  }

  lemma {:induction false} CountOfPrefix(d: string, s: string)
    requires d <= s
    ensures Count(d, '/') <= Count(s, '/')
  {
    CountConcat(d, s[|d|..], '/');
    assert d + s[|d|..] == s;
  }

  /** What the moved scope holds of a name in the directory. */
  lemma {:induction false} InMovedNoVendor(dir: string, f: string)
    requires IsClean(dir) && dir != "" && !IsSpace(dir[0]) && NamedAbove(dir) && IsClean(f)
    ensures Contains(Globs.GlobMatch, Moved(dir, NO_VENDOR), dir + "/" + f) <==>
            !Ignored(Globs.GlobMatch, UnderAll(dir, ["vendor"]), dir + "/" + f)
  {
    VendorIsWritten();
    hide Globs.GlobMatch, MatchesAny, Contains, SparedChain, IsClean, Ignored, UnderAll, NamedAbove;
    CleanConcat(dir, f);
    ContainsIsTheWalk(Globs.GlobMatch, Moved(dir, NO_VENDOR), dir + "/" + f);
    ChainSplits(Globs.GlobMatch, Moved(dir, NO_VENDOR), dir + "/" + f);
    hide Written;
    SelectionMoves(dir, NO_VENDOR, f);
    NothingIsSelected();
  }

  predicate TakesAbove(dir: string, d: string) { Covers(d, dir) && Globs.GlobMatch(dir + "/vendor", d) }

  /** In a directory whose path holds a class, an escape or a `**`, the scope without `vendor` does not move:
      the moved pattern misses `vendor`, or it takes the whole directory, or a `vendor` further down. */
  lemma {:induction false} VendorDoesNotMove(dir: string) returns (f: string)
    requires IsClean(dir) && dir != "" && !IsSpace(dir[0]) && NamedAbove(dir)
    requires Globs.DoubleStar(dir) < |dir| || ('*' !in dir && ('[' in dir || '\\' in dir))
    ensures Written(NO_VENDOR) && IsClean(f) && !OnlyAsConfig(NO_VENDOR, f)
    ensures Contains(Globs.GlobMatch, Moved(dir, NO_VENDOR), dir + "/" + f) != Contains(Globs.GlobMatch, NO_VENDOR, f)
    ensures '*' !in dir && (forall d :: !TakesAbove(dir, d)) ==> f == "vendor"
  {
    hide Globs.GlobMatch, Contains, IsClean, Written, Ignored, Moved, OnlyAsConfig, NamedAbove;
    VendorIsWritten();
    var g := dir + "/vendor";
    if d :| TakesAbove(dir, d) {
      f := "x";
      TakenWhole(dir, d, f);
    } else if Globs.GlobMatch(g, g) {
      if '*' !in dir { Globs.NotItself(g); }
      f := FarVendor(dir);
      MovedVendor(dir, dir + "/" + f, false);
      hide MatchesAny;
      assert Ignored(Globs.GlobMatch, UnderAll(dir, ["vendor"]), dir + "/" + f) by { IgnoredItself(dir, f); }
    } else {
      f := "vendor";
      VendorMissed(dir);
    }
    InNoVendor(f);
    InMovedNoVendor(dir, f);
  }

  lemma {:induction false} IgnoredItself(dir: string, f: string)
    requires MatchesAny(Globs.GlobMatch, UnderAll(dir, ["vendor"]), dir + "/" + f, false)
    ensures Ignored(Globs.GlobMatch, UnderAll(dir, ["vendor"]), dir + "/" + f)
  {
  }

  /** A `vendor` further down that the moved pattern takes with the one in the directory. */
  lemma {:induction false} FarVendor(dir: string) returns (f: string)
    requires IsClean(dir) && Globs.DoubleStar(dir) < |dir| && Globs.GlobMatch(dir + "/vendor", dir + "/vendor")
    ensures IsClean(f) && f != "" && f[0] == 'x' && Globs.GlobMatch(dir + "/vendor", dir + "/" + f)
  {
    hide Globs.GlobMatch, IsClean;
    VendorIsClean();
    assert dir + "/" + "vendor" == dir + "/vendor";
    CleanConcat(dir, "vendor");
    var rest := Globs.MatchesDeeper(dir, "/vendor");
    var head := (dir + "/vendor")[..|dir + "/vendor"| - |rest|];
    if head != "" {
      var up := head[..|head| - 1];
      assert dir + "/vendor" == up + "/" + rest;
      CleanConcat(up, rest);
    } else {
      assert rest == dir + "/vendor";
    }
    f := "x/" + rest;
    assert f == "x" + "/" + rest && dir + "/" + f == dir + "/x/" + rest;
    CleanConcat("x", rest);
  }

  lemma {:induction false} TakenWhole(dir: string, d: string, f: string)
    requires IsClean(dir) && dir != "" && !IsSpace(dir[0]) && TakesAbove(dir, d) && '/' !in f
    ensures Ignored(Globs.GlobMatch, UnderAll(dir, ["vendor"]), dir + "/" + f)
  {
    hide Globs.GlobMatch, IsClean, MatchesAny, UnderAll;
    MovedVendor(dir, d, true);
  }

  lemma {:induction false} VendorMissed(dir: string)
    requires IsClean(dir) && dir != "" && !IsSpace(dir[0]) && !Globs.GlobMatch(dir + "/vendor", dir + "/vendor")
    requires forall d :: !TakesAbove(dir, d)
    ensures !Ignored(Globs.GlobMatch, UnderAll(dir, ["vendor"]), dir + "/" + "vendor")
  {
    hide Globs.GlobMatch, IsClean, MatchesAny, UnderAll;
    var g := dir + "/" + "vendor";
    assert g == dir + "/vendor";
    CountUnder(dir, "vendor");
    NoSlashNoCount("vendor");
    MovedVendor(dir, g, false);
    forall d | Above(d, g) ensures !MatchesAny(Globs.GlobMatch, UnderAll(dir, ["vendor"]), d, true) {
      AboveIsOverDirectory(dir, "vendor", d);
      CountOfPrefix(d, g);
      MovedVendor(dir, d, true);
      assert !TakesAbove(dir, d);
    }
  }

  lemma {:induction false} AboveIsOverDirectory(dir: string, name: string, d: string)
    requires '/' !in name && Above(d, dir + "/" + name)
    ensures Covers(d, dir)
  {
    AboveLinear(d, dir, dir + "/" + name);
    if Above(dir, d) { BelowIsInName(dir, name, d); }
  }

  lemma {:induction false} BelowIsInName(dir: string, name: string, d: string)
    requires Above(dir, d) && Above(d, dir + "/" + name)
    ensures '/' in name
  {
    var g := dir + "/" + name;
    assert g[|d|] == '/' && g[|d|] == name[|d| - |dir| - 1];
  }

  // ---- a directory that is no entry for itself ----

  /** A scope of the whole directory loses it where its entry names neither it nor a directory above it. */
  lemma {:induction false} UnnamedLosesAll(dir: string)
    requires IsClean(dir) && !NamedAbove(dir)
    ensures !ScopesMove(dir)
  {
    var scope := Scope([], [], false);
    VendorIsWritten();
    NothingIsSelected();
    hide Contains, Written, SparedChain, Selected, WithinPaths, IsClean, NamedAbove;
    CleanConcat(dir, "x");
    ContainsIsTheWalk(Globs.GlobMatch, scope, "x");
    ChainSplits(Globs.GlobMatch, scope, "x");
    ContainsIsTheWalk(Globs.GlobMatch, Moved(dir, scope), dir + "/" + "x");
    ChainSplits(Globs.GlobMatch, Moved(dir, scope), dir + "/" + "x");
    DirectoryIsSelected(dir, "x");
    CleanFixesClean(dir);
    assert Written(scope) by { NothingWritten(scope); }
    assert !OnlyAsConfig(scope, "x");
  }

  lemma {:induction false} NothingWritten(scope: Scope)
    requires scope.paths == [] && scope.ignore == []
    ensures Written(scope)
  {
  }

  /** A scope of `src` loses it where the directory's path begins with a blank, which its entry does not. */
  lemma {:induction false} LeadingBlankLosesSrc(dir: string)
    requires IsClean(dir) && dir != "" && IsSpace(dir[0])
    ensures !ScopesMove(dir)
  {
    var scope := Scope(["src"], [], false);
    SrcIsWritten();
    var x := dir + "/" + "src";
    hide Contains, Written, SparedChain, WithinPaths, IsClean, Normalize, IsSpace;
    SrcIsSelected();
    assert Held("src", ["src"]) by { assert ["src"][0] == "src"; }
    CleanConcat(dir, "src");
    ContainsIsTheWalk(Globs.GlobMatch, scope, "src");
    ChainSplits(Globs.GlobMatch, scope, "src");
    WithinOrConfig("src", ["src"]);
    ContainsIsTheWalk(Globs.GlobMatch, Moved(dir, scope), x);
    ChainSplits(Globs.GlobMatch, Moved(dir, scope), x);
    JoinWithSlash(dir, "src");
    assert UnderAll(dir, ["src"]) == [x];
    CleanFixesClean(dir);
    OnlyEntry(x);
    EntryLosesItsBlank(dir);
    WithinOrConfig(x, [Normalize(x)]);
    RootConfigHasNoDirectory();
    assert x[|dir|] == '/';
    hide Selected, OnlyAsConfig;
    assert !OnlyAsConfig(scope, "src") by { HeldIsNoConfig(scope, "src"); }
  }

  lemma {:induction false} HeldIsNoConfig(scope: Scope, f: string)
    requires Held(f, Selected(scope.paths))
    ensures !OnlyAsConfig(scope, f)
  {
  }

  lemma {:induction false} SrcIsWritten()
    ensures Written(Scope(["src"], [], false)) && IsClean("src") && TrimSuffix("src", "/") == "src"
  {
    assert "src"[0] == 's' && "src"[2] == 'c' && '/' !in "src";
    SplitWhole("src", '/');
    OneOrdinarySegment("src");
    EndsOtherwise("src", "/");
    TrimSpaceStops("s", "rc");
    assert "s" + "rc" == "src";
    StemOf("src", "");
    assert "src" + "" == "src" && ["src"][0] == "src";
  }

  lemma {:induction false} EntryLosesItsBlank(dir: string)
    requires dir != "" && IsSpace(dir[0])
    ensures var x := dir + "/" + "src"; var n := Normalize(x); n != "" && n != "." && !Covers(n, x)
  {
    hide IsSpace;
    var x := dir + "/" + "src";
    assert x[|x| - 1] == 'c' && x[0] == dir[0];
    assert !IsSpace('c') by { PlainLetter(); }
    var t := TrimLeft(x, IsSpace);
    TrimLeftIsEnd(x, IsSpace);
    LastStays(x, IsSpace);
    assert TrimSpace(x) == t;
    EndsOtherwise(t, "/**");
    EndsOtherwise(t, "/*");
    var slash := c => c == '/';
    TrimLeftIsEnd(t, c => c == '/');
    LastStays(t, c => c == '/');
    var n := TrimLeft(t, c => c == '/');
    assert Normalize(x) == n;
    var m := |x| - |n|;
    assert n == x[m..];
    if n + "/" <= x {
      forall i | 0 <= i < m ensures IsSpace(x[i]) || x[i] == '/' {
        if i >= |x| - |t| { assert x[i] == t[i - (|x| - |t|)]; }
      }
      Repeats(x, m, |x| - 1);
    }
  }

  lemma {:induction false} PlainLetter()
    ensures !IsSpace('c')
  {
  }

  /** A string whose last character stays is trimmed on its left alone. */
  lemma {:induction false} LastStays(s: string, cut: char -> bool)
    requires s != "" && !cut(s[|s| - 1])
    ensures var t := TrimLeft(s, cut); t != "" && t[|t| - 1] == s[|s| - 1] && TrimRight(t, cut) == t
  {
    if cut(s[0]) {
      assert |s| > 1 && s[1..][|s| - 2] == s[|s| - 1];
      LastStays(s[1..], cut);
    }
  }

  /** A string that is its own end moved up is blanks and slashes if its beginning is. */
  lemma {:induction false} Repeats(x: string, m: nat, i: nat)
    requires 0 < m <= |x| && x[m..] <= x && i < |x|
    requires forall k :: 0 <= k < m ==> IsSpace(x[k]) || x[k] == '/'
    ensures IsSpace(x[i]) || x[i] == '/'
  {
    hide IsSpace;
    if i >= m {
      Repeats(x, m, i - m);
      assert x[i] == x[m..][i - m] == x[i - m];
    }
  }

  const STAR_IN_S := "s/*"

  /** A directory that loses nothing and takes its siblings in: the entry of a star below `s` says
      all of `s`. */
  lemma {:induction false} SiblingTakenIn()
    ensures ScopesMove(STAR_IN_S) && !Covers(STAR_IN_S, "s/o")
    ensures Contains(Globs.GlobMatch, Moved(STAR_IN_S, Scope([], [], false)), "s/o")
  {
    var scope := Scope([], [], false);
    StarInSIsSteady();
    StarInSNamesS();
    hide Contains, IsClean, Normalize, Globs.Steady, ScopesMove;
    ScopesMoveExactly(STAR_IN_S);
    OnlyEntry(STAR_IN_S);
    assert "s/o"[2] == 'o' && "s/" <= "s/o" && ["s"][0] == "s" && Covers("s", "s/o");
    WithinOrConfig("s/o", ["s"]);
    ContainsIsTheWalk(Globs.GlobMatch, Moved(STAR_IN_S, scope), "s/o");
    ChainSplits(Globs.GlobMatch, Moved(STAR_IN_S, scope), "s/o");
  }

  lemma {:induction false} StarInSIsSteady()
    ensures IsClean(STAR_IN_S) && IsClean("s/o") && Globs.Steady(STAR_IN_S)
  {
    assert "s"[0] == 's' && "o"[0] == 'o' && "*"[0] == '*' && '/' !in "s" && '/' !in "o" && '/' !in "*";
    SplitWhole("s", '/');
    SplitWhole("o", '/');
    SplitWhole("*", '/');
    OneOrdinarySegment("s");
    OneOrdinarySegment("o");
    OneOrdinarySegment("*");
    assert "s" + "/" + "o" == "s/o" && "s" + "/" + "*" == STAR_IN_S;
    CleanConcat("s", "o");
    CleanConcat("s", "*");
    assert STAR_IN_S[0] == 's' && STAR_IN_S[1] == '/' && STAR_IN_S[2] == '*' && |STAR_IN_S| == 3;
    Globs.NoStarPair(STAR_IN_S);
  }

  lemma {:induction false} StarInSNamesS()
    ensures Normalize(STAR_IN_S) == "s" && NamedAbove(STAR_IN_S) && !IsSpace(STAR_IN_S[0])
  {
    assert STAR_IN_S[0] == 's' && STAR_IN_S[1] == '/' && STAR_IN_S[2] == '*' && |STAR_IN_S| == 3;
    TrimSpaceStops("s", "/*");
    assert "s" + "/*" == STAR_IN_S;
    OneStarIsNotTwo("s");
    TrimsItsSuffix("s", "/*");
    assert TrimSlashes("s") == "s";
  }

  const APP_1 := "app[1]"

  lemma {:induction false} AppOneIsClean()
    ensures IsClean(APP_1) && '*' !in APP_1 && '[' in APP_1 && '/' !in APP_1 && TrimSpace(APP_1) == APP_1
  {
    assert APP_1[3] == '[';
    assert '/' !in APP_1 && '*' !in APP_1;
    SplitWhole(APP_1, '/');
    OneOrdinarySegment(APP_1);
    TrimSpaceStops("a", "pp[1]");
    assert "a" + "pp[1]" == APP_1;
  }

  /** Such a directory: `vendor` is ignored in `app[1]`, and no longer once its scope is moved. */
  lemma {:induction false} AppOneDoesNotMove()
    ensures Contains(Globs.GlobMatch, Moved(APP_1, NO_VENDOR), APP_1 + "/" + "vendor") &&
      !Contains(Globs.GlobMatch, NO_VENDOR, "vendor")
  {
    hide Contains, Globs.GlobMatch, IsClean, TrimSpace, Moved, Written, Normalize, NamesRoot;
    AppOneIsClean();
    VendorIsWritten();
    AppOneIsNamed();
    NothingAboveOne(APP_1);
    AppOnePattern();
    assert forall d :: !TakesAbove(APP_1, d);
    InNoVendor("vendor");
    var f := VendorDoesNotMove(APP_1);
  }

  lemma {:induction false} AppOneIsNamed()
    ensures NamedAbove(APP_1) && APP_1 != "" && !IsSpace(APP_1[0])
  {
    hide IsClean, Normalize, TrimSpace;
    AppOneIsClean();
    assert APP_1[0] == 'a' && APP_1[5] == ']' && |APP_1| == 6;
    EndsOtherwise(APP_1, "/");
    StemOf(APP_1, "");
    assert APP_1 + "" == APP_1;
    NormalizeLiteral(APP_1);
  }

  lemma {:induction false} AppOnePattern()
    ensures !Globs.GlobMatch(APP_1 + "/vendor", APP_1)
  {
    hide Globs.GlobMatch, Globs.PathMatch, Globs.MatchChunk, Globs.ClassRanges;
    var p := "app[1]/vendor";
    assert APP_1 + "/vendor" == p;
    assert '*' !in p && |p| == 13 && p[0] == 'a';
    NotByOneChunk(p, APP_1);
    assert p == "app" + "[1]/vendor" && APP_1 == "app" + "[1]";
    Globs.MatchAcross("app", "[1]/vendor", "[1]");
    ClassMisses();
  }

  lemma {:induction false} NotByOneChunk(p: string, name: string)
    requires '*' !in p && p != ""
    ensures Globs.MatchChunk(p, name).None? ==> !Globs.GlobMatch(p, name)
  {
    hide Globs.PathMatch, Globs.MatchChunk, Globs.ChunkEnd, Globs.DoubleStar;
    Globs.OneChunk(p);
    Globs.PathMatchOnChunk(p, |p|, name);
    assert p[..|p|] == p;
  }

  lemma {:induction false} ClassMisses()
    ensures Globs.MatchChunk("[1]/vendor", "[1]").None?
  {
    var chunk := "[1]/vendor";
    assert chunk[1..] == "1]/vendor" && "1]/vendor"[1..] == "]/vendor" && "]/vendor"[1..] == "/vendor";
    assert Globs.ClassChar("1]/vendor") == Common.Some(('1', "]/vendor"));
    assert Globs.ClassRanges("]/vendor", '[', true, false) == Common.Some((false, "/vendor"));
    assert Globs.ClassRanges("1]/vendor", '[', false, false) == Common.Some((false, "/vendor"));
  }

  /** An entry that is a bare wildcard is not literal, and changes its meaning when moved: as written it names
      a file called so, and moved it names the whole directory. */
  lemma {:induction false} BareWildcardChanges(dir: string, e: string)
    requires IsClean(dir) && '*' !in dir && TrimSpace(dir) == dir && Star(e)
    ensures Selected([e]) == [e] && Selected(UnderAll(dir, [e])) == [dir]
  {
    StarNormalizes(e);
    MovedStar(dir, e);
    CleanFixesClean(dir);
    CleanNeverClimbs(dir);
    OnlyEntry(e);
    OnlyEntry(UnderOne(dir, e));
    assert UnderAll(dir, [e]) == [UnderOne(dir, e)];
  }

  lemma {:induction false} OnlyEntry(e: string)
    ensures Selected([e]) == if Normalize(e) == "" || Normalize(e) == "." then [] else [Normalize(e)]
  {
    hide Normalize;
    assert [e][0] == e;
    assert NormalizeAll([e]) == [Normalize(e)] by { assert [e][1..] == []; }
  }

  /** A bare wildcard. */
  predicate Star(e: string) { e == ['*'] || e == ['*', '*'] }

  lemma {:induction false} StarIsASegment(e: string)
    requires Star(e)
    ensures '/' !in e && IsClean(e) && !IsSpace(e[|e| - 1]) && TrimSuffix(e, "/") == e
  {
    assert e[0] == '*' && e[|e| - 1] == '*' && forall i :: 0 <= i < |e| ==> e[i] == '*';
    hide Star;
    EndsOtherwise(e, "/");
    StarIsOrdinary(e);
    SplitWhole(e, '/');
    OneOrdinarySegment(e);
  }

  lemma {:induction false} StarIsOrdinary(e: string)
    requires e != "" && e[0] == '*'
    ensures OrdinarySegment(e)
  {
    assert "."[0] == '.' && ".."[0] == '.';
  }

  lemma {:induction false} StarCloses(e: string)
    requires Star(e)
    ensures "/" + e == "/*" || "/" + e == "/**"
  {
  }

  lemma {:induction false} MovedStar(dir: string, e: string)
    requires IsClean(dir) && '*' !in dir && TrimSpace(dir) == dir && Star(e)
    ensures Normalize(UnderOne(dir, e)) == dir
  {
    hide IsClean, Normalize, TrimSpace, UnderOne, Stem, TrimSuffix, IsSpace, Star;
    StarIsASegment(e);
    StarCloses(e);
    JoinWithSlash(dir, e);
    CleanFixesClean(dir);
    TrimSpaceEnds(dir);
    TrimSpaceStops(dir, "/" + e);
    assert dir + ("/" + e) == dir + "/" + e;
    StemOf(dir, "/" + e);
    NormalizeLiteral(dir + "/" + e);
  }

  lemma {:induction false} StarNormalizes(e: string)
    requires Star(e)
    ensures Normalize(e) == e && e != "" && e != "."
  {
    assert e[0] == '*' && e[|e| - 1] == '*' && (|e| == 2 ==> e[0] != '/');
    assert !HasSuffix(e, "/**") && !HasSuffix(e, "/*");
    assert TrimSpace(e) == e;
  }
}

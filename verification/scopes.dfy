/** Which files of a repository a scope keeps: the per-file test `Contains`, the tests the pruning
    walk makes entry by entry, and what sparse checkout materializes. */
module Scopes {
  import opened Text
  import opened Paths

  /** `saga.GlobMatch`, pattern first. */
  type Glob = (string, string) -> bool

  datatype Scope = Scope(paths: seq<string>, ignore: seq<string>, history: bool)

  const ROOT_CONFIG: seq<string> := [
    ".gitleaks.toml", ".gitleaksignore", ".grype.yaml", ".semgrepignore",
    ".trivyignore", ".trivyignore.yaml", "trivy.yaml"
  ]

  // ---- selected ----

  function Normalize(p: string): string {
    TrimSlashes(TrimSuffix(TrimSuffix(TrimSpace(p), "/**"), "/*"))
  }

  predicate NamesRoot(p: string) { Normalize(p) == "" || Normalize(p) == "." }

  function NormalizeAll(paths: seq<string>): (r: seq<string>)
    ensures |r| == |paths| && forall i :: 0 <= i < |paths| ==> r[i] == Normalize(paths[i])
  {
    if paths == [] then [] else [Normalize(paths[0])] + NormalizeAll(paths[1..])
  }

  /** The entries a scoped checkout keeps; empty stands for the whole repository. */
  function Selected(paths: seq<string>): seq<string> {
    if exists i :: 0 <= i < |paths| && NamesRoot(paths[i]) then [] else NormalizeAll(paths)
  }

  /** An entry that names the root selects the whole repository, and otherwise each selects what it normalizes to. */
  lemma {:induction false} SelectedIs(paths: seq<string>)
    ensures if exists p :: p in paths && NamesRoot(p) then Selected(paths) == []
            else |Selected(paths)| == |paths| &&
                 forall i :: 0 <= i < |paths| ==> Selected(paths)[i] == Normalize(paths[i])
  {
    hide NamesRoot, Normalize;
    if p :| p in paths && NamesRoot(p) {
      var i :| 0 <= i < |paths| && paths[i] == p;
    } else {
      assert forall i :: 0 <= i < |paths| ==> paths[i] in paths;
    }
  }

  method SelectPaths(paths: seq<string>) returns (out: seq<string>)
    ensures out == Selected(paths)
  {
    out := [];
    for i := 0 to |paths|
      invariant |out| == i && forall j :: 0 <= j < i ==> out[j] == Normalize(paths[j])
      invariant forall j :: 0 <= j < i ==> !NamesRoot(paths[j])
    {
      if NamesRoot(paths[i]) {
        return [];
      }
      out := out + [Normalize(paths[i])];
    }
  }

  // ---- sparse checkout ----

  method SparsePatterns(keep: seq<string>) returns (out: seq<string>)
    ensures out == seq(|keep|, i requires 0 <= i < |keep| => "/" + keep[i])
                 + seq(|ROOT_CONFIG|, i requires 0 <= i < |ROOT_CONFIG| => "/" + ROOT_CONFIG[i])
  {
    out := [];
    for i := 0 to |keep|
      invariant out == seq(i, j requires 0 <= j < i => "/" + keep[j])
    {
      out := out + ["/" + keep[i]];
    }
    ghost var named := out;
    for i := 0 to |ROOT_CONFIG|
      invariant out == named + seq(i, j requires 0 <= j < i => "/" + ROOT_CONFIG[j])
    {
      out := out + ["/" + ROOT_CONFIG[i]];
    }
  }

  /** What `sparse-checkout set --no-cone` materializes for anchored literal patterns: the path one
      names, and everything beneath it. */
  predicate Materializes(patterns: seq<string>, f: string) {
    exists i :: 0 <= i < |patterns| && (patterns[i] == "/" + f || patterns[i] + "/" <= "/" + f)
  }

  // ---- the tests ----

  predicate WithinPaths(rel: string, keep: seq<string>, isDir: bool) {
    || (!isDir && rel in ROOT_CONFIG)
    || exists i :: 0 <= i < |keep| &&
         (rel == keep[i] || keep[i] + "/" <= rel || (isDir && rel + "/" <= keep[i] + "/"))
  }

  function FirstSegments(rel: string, n: nat): string {
    var seg := Segments(rel);
    if |seg| <= n then rel else Join(seg[..n], '/')
  }

  predicate MatchesPattern(glob: Glob, pattern: string, rel: string, isDir: bool) {
    var p := TrimSpace(pattern);
    if p == "" then false
    else if HasSuffix(p, "/") then isDir && (rel == TrimSuffix(p, "/") || p <= rel)
    else glob(p, rel) || glob(p, FirstSegments(rel, Count(p, '/') + 1))
  }

  predicate MatchesAny(glob: Glob, patterns: seq<string>, rel: string, isDir: bool) {
    exists i :: 0 <= i < |patterns| && MatchesPattern(glob, patterns[i], rel, isDir)
  }

  predicate Contains(glob: Glob, scope: Scope, path: string) {
    var rel := TrimSlashes(Clean(path));
    var keep := Selected(scope.paths);
    var segs := Segments(rel);
    && rel != "" && rel != "." && rel != ".." && !("../" <= rel)
    && (keep == [] || WithinPaths(rel, keep, false))
    && (forall i :: 1 <= i < |segs| ==> !MatchesAny(glob, scope.ignore, Join(segs[..i], '/'), true))
    && !MatchesAny(glob, scope.ignore, rel, false)
  }

  /** The walk's test of one entry: it is left standing. */
  predicate Spared(glob: Glob, scope: Scope, enforcePaths: bool, rel: string, isDir: bool) {
    var keep := Selected(scope.paths);
    && (enforcePaths && keep != [] ==> WithinPaths(rel, keep, isDir))
    && !MatchesAny(glob, scope.ignore, rel, isDir)
  }

  /** The walk spares a file and every directory it passes on the way down to it. */
  ghost predicate SparedChain(glob: Glob, scope: Scope, enforcePaths: bool, f: string) {
    && Spared(glob, scope, enforcePaths, f, false)
    && forall d :: Above(d, f) ==> Spared(glob, scope, enforcePaths, d, true)
  }

  // ---- agreement ----

  lemma {:induction false} RootConfigHasNoDirectory()
    ensures forall c :: c in ROOT_CONFIG ==> '/' !in c
  {
  }

  /** Every directory above a kept file is itself kept, so a walk that dooms directories whole never
      takes a file the paths select. */
  lemma {:induction false} AncestorsOfKeptAreKept(keep: seq<string>, d: string, f: string)
    requires WithinPaths(f, keep, false) && Above(d, f)
    ensures WithinPaths(d, keep, true)
  {
    RootConfigHasNoDirectory();
    assert f[|d|] == '/';
    var i :| 0 <= i < |keep| && (f == keep[i] || keep[i] + "/" <= f);
    if f == keep[i] {
      assert d + "/" <= keep[i] + "/";
    } else {
      AboveLinear(d, keep[i], f);
      assert d == keep[i] || d + "/" <= keep[i] + "/" || keep[i] + "/" <= d;
    }
  }

  /** The walk that dooms whole directories agrees with the per-file test. */
  lemma {:induction false} ContainsIsTheWalk(glob: Glob, scope: Scope, f: string)
    requires IsClean(f)
    ensures Contains(glob, scope, f) <==> SparedChain(glob, scope, true, f)
  {
    CleanFixesClean(f);
    var segs := Segments(f);
    JoinSplit(f, '/');
    CleanNeverClimbs(f);
    if Contains(glob, scope, f) {
      forall d | Above(d, f) ensures Spared(glob, scope, true, d, true) {
        var i := AboveIsSegmentPrefix(d, f);
        if Selected(scope.paths) != [] { AncestorsOfKeptAreKept(Selected(scope.paths), d, f); }
      }
    }
    if SparedChain(glob, scope, true, f) {
      forall i | 1 <= i < |segs| ensures !MatchesAny(glob, scope.ignore, Join(segs[..i], '/'), true) {
        SegmentPrefixIsAbove(f, i);
      }
    }
  }

  // ---- what a scope holds ----

  /** A trimmed ignore pattern takes a file out: with a closing slash it takes all that lies beneath the
      directory it names, and otherwise what it matches, itself or by a directory above it. */
  ghost predicate TakesOut(glob: Glob, p: string, f: string) {
    if p == "" then false
    else if p[|p| - 1] == '/' then p <= f
    else exists e :: Covers(e, f) && glob(p, e)
  }

  lemma {:induction false} FirstSegmentsCovers(rel: string, n: nat)
    requires n >= 1
    ensures Covers(FirstSegments(rel, n), rel)
  {
    if n < |Segments(rel)| { SegmentPrefixIsAbove(rel, n); }
  }

  /** The walk stops at a file or at a directory above it by a pattern exactly when the pattern takes it out. */
  lemma {:induction false} StoppedByPattern(glob: Glob, pattern: string, f: string)
    requires IsClean(f)
    ensures TakesOut(glob, TrimSpace(pattern), f) <==>
      MatchesPattern(glob, pattern, f, false) || exists d :: Above(d, f) && MatchesPattern(glob, pattern, d, true)
  {
    hide TrimSpace, IsClean, FirstSegments;
    var p := TrimSpace(pattern);
    if p == "" {
    } else if p[|p| - 1] == '/' {
      var dir := p[..|p| - 1];
      assert p == dir + "/";
      if p <= f { assert Above(dir, f) && MatchesPattern(glob, pattern, dir, true); }
      forall d | Above(d, f) && MatchesPattern(glob, pattern, d, true) ensures p <= f {
        assert d == dir || p <= d;
      }
    } else {
      forall e | Covers(e, f) && glob(p, e)
        ensures MatchesPattern(glob, pattern, e, e != f)
      {
      }
      forall d, isDir | Covers(d, f) && MatchesPattern(glob, pattern, d, isDir) ensures TakesOut(glob, p, f) {
        var first := FirstSegments(d, Count(p, '/') + 1);
        FirstSegmentsCovers(d, Count(p, '/') + 1);
        assert Covers(first, f);
        assert glob(p, d) || glob(p, first);
      }
      assert TakesOut(glob, p, f) ==> exists e :: Covers(e, f) && glob(p, e);
      assert Covers(f, f);
    }
  }

  /** What a scope holds, told by its entries and patterns alone: a file no pattern takes out, of the whole
      repository where no path is selected, and else one a selected path names or lies above, or a root
      configuration file. */
  lemma {:induction false} ContainsExactly(glob: Glob, scope: Scope, f: string)
    requires IsClean(f)
    ensures Contains(glob, scope, f) <==>
      && (Selected(scope.paths) == [] || f in ROOT_CONFIG || exists k :: k in Selected(scope.paths) && Covers(k, f))
      && forall p :: p in scope.ignore ==> !TakesOut(glob, TrimSpace(p), f)
  {
    ContainsIsTheWalk(glob, scope, f);
    hide Contains, Selected, TakesOut, MatchesPattern, IsClean, ROOT_CONFIG;
    var keep := Selected(scope.paths);
    forall p | p in scope.ignore
      ensures TakesOut(glob, TrimSpace(p), f) <==>
        MatchesPattern(glob, p, f, false) || exists d :: Above(d, f) && MatchesPattern(glob, p, d, true)
    {
      StoppedByPattern(glob, p, f);
    }
    if keep != [] && WithinPaths(f, keep, false) {
      forall d | Above(d, f) ensures WithinPaths(d, keep, true) { AncestorsOfKeptAreKept(keep, d, f); }
    }
    WithinIs(keep, f);
    hide WithinPaths;
    assert forall p :: p in scope.ignore <==> exists i :: 0 <= i < |scope.ignore| && scope.ignore[i] == p;
  }

  lemma {:induction false} WithinIs(keep: seq<string>, f: string)
    ensures WithinPaths(f, keep, false) <==> f in ROOT_CONFIG || exists k :: k in keep && Covers(k, f)
  {
    hide ROOT_CONFIG;
    if k :| k in keep && Covers(k, f) {
      var i :| 0 <= i < |keep| && keep[i] == k;
      assert f == keep[i] || keep[i] + "/" <= f;
    }
    if WithinPaths(f, keep, false) && f !in ROOT_CONFIG {
      var i :| 0 <= i < |keep| && (f == keep[i] || keep[i] + "/" <= f);
      assert keep[i] in keep && Covers(keep[i], f);
    }
  }

  /** Any path is read as what is left once it is cleaned and its outer slashes are gone, and is in no scope unless
      that is a clean path. */
  lemma {:induction false} ContainsReadsCleaned(glob: Glob, scope: Scope, path: string)
    ensures var rel := TrimSlashes(Clean(path));
            Contains(glob, scope, path) <==> IsClean(rel) && Contains(glob, scope, rel)
  {
    var rel := TrimSlashes(Clean(path));
    CleanedRel(path);
    if IsClean(rel) {
      CleanFixesClean(rel);
      CleanNeverClimbs(rel);
    }
    hide Clean, IsClean, TrimSlashes, Selected, MatchesAny, WithinPaths;
  }

  lemma {:induction false} CleanedRel(path: string)
    ensures var rel := TrimSlashes(Clean(path));
            rel != "" && rel != "." && rel != ".." && !("../" <= rel) ==> IsClean(rel)
  {
    var c := Clean(path);
    if path != "" && path[0] == '/' {
      RootedIsClean(path);
      hide Clean, IsClean, TrimSlashes;
      if c == "/" {
        RootTrims();
      } else {
        CleanFixesClean(c[1..]);
        Trimmed("/", c[1..], "");
        assert "/" + c[1..] + "" == c;
      }
    } else {
      RelativeStays(path);
      hide Clean, IsClean, TrimSlashes;
      if c != "." && c != ".." && !("../" <= c) {
        CleanStaysInside(path);
        CleanFixesClean(c);
      } else {
        ClimbTrims(c);
      }
    }
  }

  lemma {:induction false} RootTrims()
    ensures TrimSlashes("/") == ""
  {
  }

  /** What climbs still does once its outer slashes are gone. */
  lemma {:induction false} ClimbTrims(c: string)
    requires c == "." || c == ".." || ("../" <= c && c[|c| - 1] != '/')
    ensures TrimSlashes(c) == c
  {
    Trimmed("", c, "");
    assert "" + c + "" == c;
  }

  /** One pattern more, naming a directory: the scope loses what lies beneath it and nothing else. */
  lemma {:induction false} IgnoringADirectory(glob: Glob, scope: Scope, d: string, f: string)
    requires IsClean(f) && TrimSpace(d + "/") == d + "/"
    ensures Contains(glob, scope.(ignore := scope.ignore + [d + "/"]), f) <==>
      Contains(glob, scope, f) && !Above(d, f)
  {
    var more := scope.(ignore := scope.ignore + [d + "/"]);
    ContainsExactly(glob, scope, f);
    ContainsExactly(glob, more, f);
    hide Contains, Selected, IsClean, TrimSpace, ROOT_CONFIG;
    assert forall p :: p in more.ignore <==> p in scope.ignore || p == d + "/";
  }

  lemma {:induction false} CleanNeverClimbs(f: string)
    requires IsClean(f)
    ensures f != "." && f != ".." && !("../" <= f)
  {
    SplitWhole(".", '/');
    SplitWhole("..", '/');
    assert "." in Segments(".") && ".." in Segments("..");
    assert "../" <= f ==> Above("..", f);
    if Above("..", f) { AboveClean("..", f); assert false; }
  }

  /** Sparse checkout materializes exactly what the walk keeps, except beneath a directory that
      carries the name of a root configuration file, which only sparse checkout takes. */
  lemma {:induction false} SparseIsWithin(keep: seq<string>, patterns: seq<string>, f: string)
    requires patterns == seq(|keep|, i requires 0 <= i < |keep| => "/" + keep[i])
                       + seq(|ROOT_CONFIG|, i requires 0 <= i < |ROOT_CONFIG| => "/" + ROOT_CONFIG[i])
    ensures Materializes(patterns, f) <==>
            WithinPaths(f, keep, false) || exists c :: c in ROOT_CONFIG && Above(c, f)
  {
    AnchoredExactly(keep, patterns, f);
    hide Materializes, ROOT_CONFIG;
    if f in ROOT_CONFIG {
      var i :| 0 <= i < |ROOT_CONFIG| && ROOT_CONFIG[i] == f;
      assert Covers(ROOT_CONFIG[i], f);
    }
  }

  lemma {:induction false} AnchoredExactly(keep: seq<string>, patterns: seq<string>, f: string)
    requires patterns == seq(|keep|, i requires 0 <= i < |keep| => "/" + keep[i])
                       + seq(|ROOT_CONFIG|, i requires 0 <= i < |ROOT_CONFIG| => "/" + ROOT_CONFIG[i])
    ensures Materializes(patterns, f) <==>
            (exists i :: 0 <= i < |keep| && Covers(keep[i], f)) ||
            (exists i :: 0 <= i < |ROOT_CONFIG| && Covers(ROOT_CONFIG[i], f))
  {
    hide ROOT_CONFIG;
    var n := |keep|;
    forall i | 0 <= i < |patterns|
      ensures var entry := if i < n then keep[i] else ROOT_CONFIG[i - n];
              (patterns[i] == "/" + f || patterns[i] + "/" <= "/" + f) <==> Covers(entry, f)
    {
      Anchored(if i < n then keep[i] else ROOT_CONFIG[i - n], f);
    }
    if i :| 0 <= i < |keep| && Covers(keep[i], f) { assert patterns[i] == "/" + keep[i]; }
    if i :| 0 <= i < |ROOT_CONFIG| && Covers(ROOT_CONFIG[i], f) { assert patterns[n + i] == "/" + ROOT_CONFIG[i]; }
  }

  lemma {:induction false} Anchored(k: string, f: string)
    ensures ("/" + k == "/" + f || "/" + k + "/" <= "/" + f) <==> Covers(k, f)
  {
    assert ("/" + k)[1..] == k && ("/" + f)[1..] == f && "/" + k + "/" == "/" + (k + "/");
    assert ("/" + (k + "/"))[1..] == k + "/";
    if "/" + k + "/" <= "/" + f { assert ("/" + f)[1..|k| + 2] == k + "/"; }
  }

  /** A file only sparse checkout takes: beneath a directory that carries a root configuration file's name,
      selected by no path, and spared by the ignore walk. */
  ghost predicate OnlySparse(glob: Glob, scope: Scope, f: string) {
    && (exists c :: c in ROOT_CONFIG && Above(c, f))
    && !WithinPaths(f, Selected(scope.paths), false)
    && SparedChain(glob, scope, false, f)
  }

  /** Sparse checkout followed by the ignore walk keeps the files `Contains` holds of, and those only sparse
      checkout takes: the routes agree on a file exactly when it is none of these. */
  lemma {:induction false} RoutesAgree(glob: Glob, scope: Scope, patterns: seq<string>, f: string)
    requires IsClean(f) && Selected(scope.paths) != []
    requires patterns ==
      seq(|Selected(scope.paths)|, i requires 0 <= i < |Selected(scope.paths)| => "/" + Selected(scope.paths)[i])
                       + seq(|ROOT_CONFIG|, i requires 0 <= i < |ROOT_CONFIG| => "/" + ROOT_CONFIG[i])
    ensures Materializes(patterns, f) && SparedChain(glob, scope, false, f) <==>
      Contains(glob, scope, f) || OnlySparse(glob, scope, f)
    ensures (Materializes(patterns, f) && SparedChain(glob, scope, false, f) <==> Contains(glob, scope, f)) <==>
      !OnlySparse(glob, scope, f)
  {
    var keep := Selected(scope.paths);
    SparseIsWithin(keep, patterns, f);
    ContainsIsTheWalk(glob, scope, f);
    hide Contains, Materializes, MatchesAny, Selected;
    if WithinPaths(f, keep, false) && SparedChain(glob, scope, false, f) {
      forall d | Above(d, f) ensures Spared(glob, scope, true, d, true) {
        AncestorsOfKeptAreKept(keep, d, f);
        assert Spared(glob, scope, false, d, true);
      }
    }
    if SparedChain(glob, scope, true, f) {
      forall d | Above(d, f) ensures Spared(glob, scope, false, d, true) {
        assert Spared(glob, scope, true, d, true);
      }
    }
  }

  /** Such a file: with only `src` selected, sparse checkout takes `trivy.yaml/x`, which the scope does not
      contain. */
  lemma {:induction false} DirectoryNamedAsConfig(glob: Glob)
    ensures var scope := Scope(["src"], [], false);
            Selected(scope.paths) == ["src"] && OnlySparse(glob, scope, "trivy.yaml/x") &&
              !Contains(glob, scope, "trivy.yaml/x")
  {
    var scope, f := Scope(["src"], [], false), "trivy.yaml/x";
    SrcIsSelected();
    ConfigNamesAreFiles();
    BelowConfigName();
    assert !WithinPaths(f, ["src"], false) by { NotBelowSrc(f); }
    hide Contains, Selected, WithinPaths, IsClean;
    ContainsIsTheWalk(glob, scope, f);
    assert SparedChain(glob, scope, false, f);
  }

  lemma {:induction false} BelowConfigName()
    ensures "trivy.yaml" in ROOT_CONFIG && Above("trivy.yaml", "trivy.yaml/x") && IsClean("trivy.yaml/x")
  {
    assert ROOT_CONFIG[6] == "trivy.yaml";
    assert "trivy.yaml" + "/" + "x" == "trivy.yaml/x";
    assert "trivy.yaml"[0] == 't' && "x"[0] == 'x' && '/' !in "trivy.yaml" && '/' !in "x";
    SplitWhole("trivy.yaml", '/');
    SplitWhole("x", '/');
    assert IsClean("trivy.yaml") && IsClean("x") by { OneOrdinarySegment("trivy.yaml"); OneOrdinarySegment("x"); }
    CleanConcat("trivy.yaml", "x");
  }

  lemma {:induction false} ConfigNamesAreFiles()
    ensures forall f :: '/' in f ==> f !in ROOT_CONFIG
  {
    RootConfigHasNoDirectory();
  }

  lemma {:induction false} NotBelowSrc(f: string)
    requires f != "" && f[0] != 's' && '/' in f
    ensures !WithinPaths(f, ["src"], false)
  {
    ConfigNamesAreFiles();
    assert "src"[0] == 's' && ("src" + "/")[0] == 's';
  }

  lemma {:induction false} SrcIsSelected()
    ensures Selected(["src"]) == ["src"]
  {
    SrcIsNormal();
    hide Normalize;
    assert ["src"][0] == "src" && ["src"][1..] == [];
  }

  lemma {:induction false} SrcIsNormal()
    ensures Normalize("src") == "src"
  {
    assert "src"[0] == 's' && "src"[2] == 'c';
    assert !HasSuffix("src", "/**") && !HasSuffix("src", "/*");
    assert TrimSpace("src") == "src" && TrimSlashes("src") == "src";
  }

  /** With no path selected, only the ignore patterns decide, whether or not paths are enforced. */
  lemma {:induction false} WholeRepositoryRoute(glob: Glob, scope: Scope, enforcePaths: bool, f: string)
    requires IsClean(f) && Selected(scope.paths) == []
    ensures SparedChain(glob, scope, enforcePaths, f) <==> Contains(glob, scope, f)
  {
    ContainsIsTheWalk(glob, scope, f);
    assert forall d, isDir ::
        Spared(glob, scope, enforcePaths, d, isDir) <==> Spared(glob, scope, true, d, isDir);
  }
}

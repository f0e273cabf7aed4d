/** The temporary tree a checkout works on, the walk that prunes it, and the routes by which a
    checkout and a working-tree copy reach the same files. Git appears by its effect on a set of
    file paths, and each command may fail. */
module Checkouts {
  import opened Text
  import opened Paths
  import opened Scopes

  function Dirs(files: set<string>): set<string> {
    set f, i | f in files && 0 <= i < |f| && f[i] == '/' :: f[..i]
  }

  lemma {:induction false} DirsAreAbove(files: set<string>)
    ensures forall d :: d in Dirs(files) <==> exists f :: f in files && Above(d, f)
  {
    forall d ensures d in Dirs(files) <==> exists f :: f in files && Above(d, f) {
      if d in Dirs(files) {
        var f, i :| f in files && 0 <= i < |f| && f[i] == '/' && f[..i] == d;
        assert Above(d, f);
      }
      if f :| f in files && Above(d, f) {
        assert f[|d|] == '/' && f[..|d|] == d;
      }
    }
  }

  predicate Covered(doomed: seq<string>, f: string) {
    exists i :: 0 <= i < |doomed| && Covers(doomed[i], f)
  }

  /** A tree git or the copy can leave: no path is both a file and a directory, every path is clean, and
      none is git's own metadata. */
  ghost predicate IsTree(files: set<string>) {
    && files !! Dirs(files)
    && (forall f :: f in files ==> IsClean(f) && f != ".git" && !Above(".git", f))
  }

  ghost function Kept(glob: Glob, scope: Scope, files: set<string>): set<string> {
    set f | f in files && Contains(glob, scope, f)
  }

  /** What only sparse checkout takes of a tree. */
  ghost function Extra(glob: Glob, scope: Scope, files: set<string>): set<string> {
    set f | f in files && OnlySparse(glob, scope, f)
  }

  predicate Shortest(e: string, s: set<string>) { e in s && forall a :: a in s ==> |e| <= |a| }

  lemma {:induction false} ShortestExists(s: set<string>)
    requires s != {}
    ensures exists e :: Shortest(e, s)
  {
    var x :| x in s;
    var rest := s - {x};
    assert forall a :: a in s ==> a == x || a in rest;
    if rest == {} {
      assert Shortest(x, s);
    } else {
      ShortestExists(rest);
      var e :| Shortest(e, rest);
      assert Shortest(if |x| <= |e| then x else e, s);
    }
  }

  /** An entry whose directories have all been met. */
  predicate Topmost(e: string, s: set<string>) { e in s && forall a :: a in s ==> !Above(a, e) }

  lemma {:induction false} TopmostExists(s: set<string>)
    requires s != {}
    ensures exists e :: Topmost(e, s)
  {
    ShortestExists(s);
    var e :| Shortest(e, s);
    assert forall a :: Above(a, e) ==> |a| < |e|;
    assert Topmost(e, s);
  }

  class WorkDir {
    var files: set<string>

    constructor (files: set<string>)
      ensures this.files == files
    {
      this.files := files;
    }

    /** `os.RemoveAll`. */
    method RemoveAll(p: string)
      modifies this
      ensures files == set f | f in old(files) && !Covers(p, f)
    {
      files := set f | f in files && !Covers(p, f);
    }

    /** Dooms entry by entry, then removes what it doomed. */
    method Prune(glob: Glob, scope: Scope, enforcePaths: bool)
      requires files !! Dirs(files) && ".git" !in files
      modifies this
      ensures files == set f | f in old(files) &&
                             (Above(".git", f) || SparedChain(glob, scope, enforcePaths, f))
    {
      hide SparedChain, Dirs;
      var doomed := Walk(files, glob, scope, enforcePaths);
      for i := 0 to |doomed|
        invariant files == set f | f in old(files) && !Covered(doomed[..i], f)
      {
        RemoveAll(doomed[i]);
        assert doomed[..i + 1] == doomed[..i] + [doomed[i]];
        CoveredSnoc(doomed[..i], doomed[i]);
      }
      assert doomed[..|doomed|] == doomed;
    }
  }

  /** The walk: meets every entry, in any order that meets a directory before anything in it, passing over
      what lies beneath a doomed directory or `.git`. */
  method Walk(files: set<string>, glob: Glob, scope: Scope, enforcePaths: bool) returns (doomed: seq<string>)
    requires files !! Dirs(files) && ".git" !in files
    ensures forall f :: f in files ==>
      (Covered(doomed, f) <==> !Above(".git", f) && !SparedChain(glob, scope, enforcePaths, f))
  {
    hide Spared, Dirs;
    GitIsAnEntry(files);
    var dirs := Dirs(files);
    var entries := files + dirs;
    var todo := entries;
    doomed := [];
    while todo != {}
      invariant todo <= entries
      invariant OnlyUnspared(doomed, entries, dirs, glob, scope, enforcePaths)
      invariant forall e ::
        e in entries && e != ".git" && !Above(".git", e) && !Spared(glob, scope, enforcePaths, e, e in dirs) ==>
          e in todo || Covered(doomed, e)
      invariant ".git" in todo || forall e :: e in todo ==> !Above(".git", e)
      decreases todo
    {
      TopmostExists(todo);
      var e :| e in todo && Topmost(e, todo);
      todo := todo - {e};
      if e == ".git" {
        todo := set a | a in todo && !Above(".git", a);
      } else if !Spared(glob, scope, enforcePaths, e, e in dirs) {
        CoveredSnoc(doomed, e);
        doomed := doomed + [e];
        if e in dirs {
          todo := set a | a in todo && !Above(e, a);
        }
      }
    }
    CoveredIsNotSpared(glob, scope, enforcePaths, files, doomed);
  }

  ghost predicate OnlyUnspared(doomed: seq<string>, entries: set<string>, dirs: set<string>,
                               glob: Glob, scope: Scope, enforcePaths: bool) {
    forall d :: d in doomed ==>
      d in entries && d != ".git" && !Above(".git", d) && !Spared(glob, scope, enforcePaths, d, d in dirs)
  }

  lemma {:induction false} NothingAboveGit(d: string)
    ensures !Above(d, ".git")
  {
    assert (d + "/")[|d|] == '/' && forall i :: 0 <= i < |".git"| ==> ".git"[i] != '/';
  }

  lemma {:induction false} GitIsAnEntry(files: set<string>)
    ensures forall e :: e in files + Dirs(files) && Above(".git", e) ==> ".git" in Dirs(files)
  {
    DirsAreAbove(files);
    forall e | e in files + Dirs(files) && Above(".git", e) ensures ".git" in Dirs(files) {
      if e !in files {
        var f :| f in files && Above(e, f);
        AboveTransitive(".git", e, f);
      }
    }
  }

  lemma {:induction false} CoveredSnoc(doomed: seq<string>, p: string)
    ensures forall f :: Covered(doomed + [p], f) <==> Covered(doomed, f) || Covers(p, f)
  {
    var all := doomed + [p];
    forall f ensures Covered(all, f) <==> Covered(doomed, f) || Covers(p, f) {
      if Covered(doomed, f) {
        var i :| 0 <= i < |doomed| && Covers(doomed[i], f);
        assert all[i] == doomed[i];
      }
      if Covers(p, f) { assert all[|doomed|] == p; }
    }
  }

  /** What the walk doomed covers exactly the files it would not have spared, and nothing of git's. */
  lemma {:induction false} CoveredIsNotSpared(glob: Glob, scope: Scope, enforcePaths: bool, files: set<string>,
          doomed: seq<string>)
    requires files !! Dirs(files) && ".git" !in files
    requires OnlyUnspared(doomed, files + Dirs(files), Dirs(files), glob, scope, enforcePaths)
    requires forall e ::
      e in files + Dirs(files) && e != ".git" && !Above(".git", e) &&
        !Spared(glob, scope, enforcePaths, e, e in Dirs(files)) ==>
        Covered(doomed, e)
    ensures forall f :: f in files ==>
      (Covered(doomed, f) <==> !Above(".git", f) && !SparedChain(glob, scope, enforcePaths, f))
  {
    hide Spared, Dirs;
    DirsAreAbove(files);
    forall f | f in files
      ensures Covered(doomed, f) <==> !Above(".git", f) && !SparedChain(glob, scope, enforcePaths, f)
    {
      if Covered(doomed, f) {
        var i :| 0 <= i < |doomed| && Covers(doomed[i], f);
        assert doomed[i] in doomed;
        if Above(".git", f) && Above(doomed[i], f) {
          AboveLinear(".git", doomed[i], f);
          NothingAboveGit(doomed[i]);
        }
      }
      if !Above(".git", f) && !SparedChain(glob, scope, enforcePaths, f) &&
        Spared(glob, scope, enforcePaths, f, false) {
        var d :| Above(d, f) && !Spared(glob, scope, enforcePaths, d, true);
        assert d in Dirs(files);
        if Above(".git", d) { AboveTransitive(".git", d, f); }
        var i :| 0 <= i < |doomed| && Covers(doomed[i], d);
        if doomed[i] != d { AboveTransitive(doomed[i], d, f); }
        assert Covers(doomed[i], f);
      }
    }
  }

  // ---- routes ----

  /** How each git command of one checkout turns out. */
  datatype Git = Git(clones: bool, clonesPlain: bool, emptied: bool, checksOut: bool, checksOutPlain: bool,
    sparse: bool)

  datatype Outcome =
    | Tree(files: set<string>)
    | CloneFailed
    | RevisionFailed
    | SparseFailed
    | Missing(paths: seq<string>)

  predicate Present(files: set<string>, k: string) { k in files || k in Dirs(files) }

  function Absent(keep: seq<string>, files: set<string>): seq<string> {
    if keep == [] then [] else (if Present(files, keep[0]) then [] else [keep[0]]) + Absent(keep[1..], files)
  }

  lemma {:induction false} AbsentFirst(keep: seq<string>, i: nat, files: set<string>, before: seq<string>)
    requires i < |keep|
    ensures before + Absent(keep[i..], files) ==
            before + (if Present(files, keep[i]) then [] else [keep[i]]) + Absent(keep[i + 1..], files)
  {
    hide Present;
    assert keep[i..][1..] == keep[i + 1..];
  }

  lemma {:induction false} NothingAbsent(keep: seq<string>, files: set<string>)
    ensures Absent(keep[|keep|..], files) == [] && keep[0..] == keep
  {
  }

  method MissingPaths(keep: seq<string>, files: set<string>) returns (out: seq<string>)
    ensures out == Absent(keep, files)
  {
    out := [];
    NothingAbsent(keep, files);
    hide Absent, Present;
    for i := 0 to |keep|
      invariant out + Absent(keep[i..], files) == Absent(keep, files)
    {
      AbsentFirst(keep, i, files, out);
      if !Present(files, keep[i]) {
        out := out + [keep[i]];
      }
    }
  }

  /** `Checkout`: `treeAt` is the repository at each revision, "" its default branch, and `metadata`
      the files a clone leaves under `.git`. Whatever route is taken, a tree that comes back holds exactly
      the files the scope contains; and, where it was materialized sparsely, those only sparse checkout
      takes. */
  method Checkout(glob: Glob, treeAt: string -> set<string>, metadata: set<string>, revision: string,
                  scope: Scope, git: Git, debris: set<string>) returns (out: Outcome)
    requires IsTree(treeAt("")) && IsTree(treeAt(revision))
    requires forall f :: f in metadata ==> Above(".git", f)
    requires metadata !! Dirs(metadata)
    ensures out.Tree? ==> out.files == Kept(glob, scope, treeAt(revision)) + metadata +
                                       (if Selected(scope.paths) == [] || scope.history || !git.clones then {}
                                        else Extra(glob, scope, treeAt(revision)))
    ensures var keep := Selected(scope.paths);
            var sparse := keep != [] && !scope.history;
            var absent := Absent(keep, treeAt(revision));
            var plain := sparse && !git.clones;
            && (out.CloneFailed? <==> !git.clones && (!sparse || !git.emptied || !git.clonesPlain))
            && (out.RevisionFailed? <==>
                  !out.CloneFailed? && revision != "" && !(if plain then git.checksOutPlain else git.checksOut))
            && (out.Missing? <==> !out.CloneFailed? && !out.RevisionFailed? && absent != [])
            && (out.Missing? ==> out.paths == absent)
            && (out.SparseFailed? <==>
                  !out.CloneFailed? && !out.RevisionFailed? && !out.Missing? && sparse && !plain && !git.sparse)
  {
    hide Selected, Contains, SparedChain, Materializes, OnlySparse, IsTree, Dirs, Absent, Kept, Extra;
    var keep := SelectPaths(scope.paths);
    var sparse := keep != [] && !scope.history;
    var tree := treeAt(revision);
    MixedTree(tree, metadata);
    if !git.clones {
      if !sparse { return CloneFailed; }
      // The failed attempt's debris goes before the plain clone runs over it.
      var plain := new WorkDir(debris);
      if !git.emptied { return CloneFailed; }
      plain.files := {};
      if !git.clonesPlain { return CloneFailed; }
      plain.files := treeAt("") + metadata;
      if revision != "" {
        if !git.checksOutPlain { return RevisionFailed; }
        plain.files := tree + metadata;
      }
      var absent := MissingPaths(keep, tree);
      if absent != [] { return Missing(absent); }
      plain.Prune(glob, scope, true);
      PrunedIsKept(glob, scope, tree, metadata, true);
      return Tree(plain.files);
    }
    // A sparse clone starts at the root files; any other holds the whole tree.
    var dir := new WorkDir((if sparse then RootFiles(treeAt("")) else treeAt("")) + metadata);
    if revision != "" {
      if !git.checksOut { return RevisionFailed; }
      dir.files := (if sparse then RootFiles(tree) else tree) + metadata;
    }
    var absent := MissingPaths(keep, tree);
    if absent != [] { return Missing(absent); }
    ghost var taken := tree;
    if sparse {
      if !git.sparse { return SparseFailed; }
      var patterns := SparsePatterns(keep);
      dir.files := (set f | f in tree && Materializes(patterns, f)) + metadata;
      taken := set f | f in tree && Materializes(patterns, f);
      SparseIsKept(glob, scope, tree, metadata, patterns);
      SubsetIsTree(taken, tree);
      MixedTree(taken, metadata);
    }
    if scope.history && keep != [] {
      dir.Prune(glob, scope, true);
      PrunedIsKept(glob, scope, tree, metadata, true);
    } else if scope.ignore != [] {
      dir.Prune(glob, scope, false);
      if !sparse { PrunedIsKept(glob, scope, tree, metadata, false); }
    } else if !sparse {
      NothingToPrune(glob, scope, tree);
    }
    return Tree(dir.files);
  }

  function RootFiles(files: set<string>): set<string> { set f | f in files && '/' !in f }

  lemma {:induction false} SubsetIsTree(some: set<string>, files: set<string>)
    requires IsTree(files) && some <= files
    ensures IsTree(some)
  {
    DirsAreAbove(some);
    DirsAreAbove(files);
  }

  /** A tree beside git's metadata is still one no path of which is both a file and a directory. */
  lemma {:induction false} MixedTree(tree: set<string>, metadata: set<string>)
    requires IsTree(tree) && metadata !! Dirs(metadata)
    requires forall f :: f in metadata ==> Above(".git", f)
    ensures tree + metadata !! Dirs(tree + metadata) && ".git" !in tree + metadata
  {
    var both := tree + metadata;
    DirsAreAbove(tree);
    DirsAreAbove(metadata);
    DirsAreAbove(both);
    forall d | d in both ensures d !in Dirs(both) {
      forall f | f in both ensures !Above(d, f) {
        if Above(d, f) {
          NothingAboveGit(d);
          if f in metadata { AboveLinear(d, ".git", f); } else if d in metadata { AboveTransitive(".git", d, f); }
          assert false;
        }
      }
    }
  }

  /** A walk over the whole tree, whether or not it enforces paths the scope does not have. */
  lemma {:induction false} PrunedIsKept(glob: Glob, scope: Scope, tree: set<string>, metadata: set<string>,
          enforcePaths: bool)
    requires IsTree(tree) && forall f :: f in metadata ==> Above(".git", f)
    requires enforcePaths || Selected(scope.paths) == []
    ensures (set f | f in tree + metadata && (Above(".git", f) || SparedChain(glob, scope, enforcePaths, f)))
            == Kept(glob, scope, tree) + metadata
  {
    forall f | f in tree ensures SparedChain(glob, scope, enforcePaths, f) <==> Contains(glob, scope, f) {
      if enforcePaths {
        ContainsIsTheWalk(glob, scope, f);
      } else {
        WholeRepositoryRoute(glob, scope, enforcePaths, f);
      }
    }
  }

  lemma {:induction false} SparseThenIgnore(glob: Glob, scope: Scope, tree: set<string>, patterns: seq<string>)
    requires IsTree(tree) && Selected(scope.paths) != []
    requires patterns ==
      seq(|Selected(scope.paths)|, i requires 0 <= i < |Selected(scope.paths)| => "/" + Selected(scope.paths)[i])
                       + seq(|ROOT_CONFIG|, i requires 0 <= i < |ROOT_CONFIG| => "/" + ROOT_CONFIG[i])
    ensures forall f :: f in tree ==>
      (Materializes(patterns, f) && SparedChain(glob, scope, false, f) <==>
        Contains(glob, scope, f) || OnlySparse(glob, scope, f))
  {
    hide Contains, Materializes, SparedChain, OnlySparse;
    forall f | f in tree
      ensures Materializes(patterns, f) && SparedChain(glob, scope, false, f) <==>
        Contains(glob, scope, f) || OnlySparse(glob, scope, f)
    {
      RoutesAgree(glob, scope, patterns, f);
    }
  }

  /** What sparse checkout takes, the ignored then pruned, is what the scope holds and what only sparse
      checkout takes. */
  lemma {:induction false} SparseIsKept(glob: Glob, scope: Scope, tree: set<string>, metadata: set<string>,
          patterns: seq<string>)
    requires IsTree(tree) && Selected(scope.paths) != [] && forall f :: f in metadata ==> Above(".git", f)
    requires patterns ==
      seq(|Selected(scope.paths)|, i requires 0 <= i < |Selected(scope.paths)| => "/" + Selected(scope.paths)[i])
                       + seq(|ROOT_CONFIG|, i requires 0 <= i < |ROOT_CONFIG| => "/" + ROOT_CONFIG[i])
    ensures var taken := set f | f in tree && Materializes(patterns, f);
            var kept := Kept(glob, scope, tree) + metadata + Extra(glob, scope, tree);
            && (set f | f in taken + metadata && (Above(".git", f) || SparedChain(glob, scope, false, f))) == kept
            && (scope.ignore == [] ==> taken + metadata == kept)
  {
    SparseThenIgnore(glob, scope, tree, patterns);
    OutsideGit(tree);
    hide *;
    var taken := set f | f in tree && Materializes(patterns, f);
    var kept := Kept(glob, scope, tree) + metadata + Extra(glob, scope, tree);
    if scope.ignore == [] { NothingIgnored(glob, scope); }
    forall f
      ensures f in taken + metadata && (Above(".git", f) || SparedChain(glob, scope, false, f)) <==> f in kept
      ensures SparedChain(glob, scope, false, f) ==> (f in taken + metadata <==> f in kept)
    {
      SparsePart(glob, scope, tree, metadata, patterns, f);
    }
    Alike(taken + metadata, kept, glob, scope);
  }

  lemma {:induction false} Alike(left: set<string>, kept: set<string>, glob: Glob, scope: Scope)
    requires forall f :: f in left && (Above(".git", f) || SparedChain(glob, scope, false, f)) <==> f in kept
    requires forall f :: SparedChain(glob, scope, false, f) ==> (f in left <==> f in kept)
    ensures (set f | f in left && (Above(".git", f) || SparedChain(glob, scope, false, f))) == kept
    ensures (forall f :: SparedChain(glob, scope, false, f)) ==> left == kept
  {
    hide SparedChain;
  }

  /** One file of a sparse checkout, ignored or not. */
  lemma {:induction false} SparsePart(glob: Glob, scope: Scope, tree: set<string>, metadata: set<string>,
          patterns: seq<string>, f: string)
    requires (f in metadata ==> Above(".git", f)) && (f in tree ==> !Above(".git", f))
    requires f in tree ==>
      (Materializes(patterns, f) && SparedChain(glob, scope, false, f) <==>
        Contains(glob, scope, f) || OnlySparse(glob, scope, f))
    ensures var taken := set g | g in tree && Materializes(patterns, g);
            var kept := Kept(glob, scope, tree) + metadata + Extra(glob, scope, tree);
            && (f in taken + metadata && (Above(".git", f) || SparedChain(glob, scope, false, f)) <==> f in kept)
            && (SparedChain(glob, scope, false, f) ==> (f in taken + metadata <==> f in kept))
  {
    hide *;
    InParts(glob, scope, tree, f);
  }

  lemma {:induction false} InParts(glob: Glob, scope: Scope, tree: set<string>, f: string)
    ensures f in Kept(glob, scope, tree) <==> f in tree && Contains(glob, scope, f)
    ensures f in Extra(glob, scope, tree) <==> f in tree && OnlySparse(glob, scope, f)
  {
    hide Contains, OnlySparse;
  }

  lemma {:induction false} OutsideGit(tree: set<string>)
    requires IsTree(tree)
    ensures forall f :: f in tree ==> !Above(".git", f)
  {
    hide IsClean, Dirs;
  }

  lemma {:induction false} NothingIgnored(glob: Glob, scope: Scope)
    requires scope.ignore == []
    ensures forall f :: SparedChain(glob, scope, false, f)
  {
  }

  lemma {:induction false} NothingToPrune(glob: Glob, scope: Scope, tree: set<string>)
    requires IsTree(tree) && Selected(scope.paths) == [] && scope.ignore == []
    ensures Kept(glob, scope, tree) == tree
  {
    NothingIgnored(glob, scope);
    forall f | f in tree ensures Contains(glob, scope, f) {
      WholeRepositoryRoute(glob, scope, false, f);
    }
  }

  /** A tree that comes back holds something for every selected path, so a mistyped entry never
      narrows a checkout to nothing unnoticed. */
  lemma {:induction false} SelectedPathsArePresent(keep: seq<string>, files: set<string>)
    ensures Absent(keep, files) == [] <==> forall i :: 0 <= i < |keep| ==> exists f :: f in files && Covers(keep[i], f)
  {
    hide Dirs;
    DirsAreAbove(files);
    if keep != [] {
      SelectedPathsArePresent(keep[1..], files);
      assert Present(files, keep[0]) <==> exists f :: f in files && Covers(keep[0], f);
      assert forall i :: 1 <= i < |keep| ==> keep[i] == keep[1..][i - 1];
      assert forall i :: 0 <= i < |keep| - 1 ==> keep[1..][i] == keep[i + 1];
    }
  }

  // ---- the working tree ----

  datatype Copy = Scoped(files: set<string>) | Escapes(path: string) | NotThere(paths: seq<string>)

  /** Where joining a listed name to a root leads below it: a leading slash is none there. */
  function Landing(rel: string): string { Clean(TrimLeft(rel, c => c == '/')) }

  /** `containedPath` refuses it. */
  predicate Climbs(rel: string) { Landing(rel) == ".." || "../" <= Landing(rel) }

  /** The regular files a list of names leads to. */
  function Copied(listed: seq<string>, regular: set<string>): set<string> {
    if listed == [] then {}
    else
      var last := listed[|listed| - 1];
      Copied(listed[..|listed| - 1], regular) + if last != "" && Landing(last) in regular then {Landing(last)} else {}
  }

  /** `CheckoutWorkingTree`: copies what git lists, passing over an entry that is no regular file, and scopes
      the copy as a checkout is scoped. `regular` is the working tree's regular files beside git's own. */
  method CheckoutWorkingTree(glob: Glob, listed: seq<string>, regular: set<string>, scope: Scope) returns (out: Copy)
    requires IsTree(regular)
    ensures out.Escapes? <==> exists i :: 0 <= i < |listed| && listed[i] != "" && Climbs(listed[i])
    ensures out.Escapes? ==> exists i :: && 0 <= i < |listed| && listed[i] == out.path && Climbs(listed[i])
                                         && forall j :: 0 <= j < i ==> listed[j] == "" || !Climbs(listed[j])
    ensures var tree := Copied(listed, regular);
            && (out.Scoped? ==> out.files == Kept(glob, scope, tree) && Absent(Selected(scope.paths), tree) == [])
            && (out.NotThere? ==> out.paths == Absent(Selected(scope.paths), tree) && out.paths != [])
  {
    hide IsTree, Contains, Selected, Climbs, Dirs, SparedChain, Landing;
    var dir := new WorkDir({});
    for i := 0 to |listed|
      invariant dir.files == Copied(listed[..i], regular)
      invariant forall j :: 0 <= j < i ==> listed[j] == "" || !Climbs(listed[j])
    {
      assert listed[..i + 1][..i] == listed[..i];
      if listed[i] != "" {
        if Climbs(listed[i]) { return Escapes(listed[i]); }
        if Landing(listed[i]) in regular { dir.files := dir.files + {Landing(listed[i])}; }
      }
    }
    assert listed[..|listed|] == listed;
    ghost var tree := dir.files;
    CopiedAreRegular(listed, regular);
    SubsetIsTree(tree, regular);
    var keep := SelectPaths(scope.paths);
    var absent := MissingPaths(keep, dir.files);
    if absent != [] { return NotThere(absent); }
    if keep != [] || scope.ignore != [] {
      TreeIsSeparate(tree);
      dir.Prune(glob, scope, keep != []);
      PrunedIsKept(glob, scope, tree, {}, keep != []);
      assert tree + {} == tree;
    } else {
      NothingToPrune(glob, scope, tree);
    }
    return Scoped(dir.files);
  }

  lemma {:induction false} CopiedAreRegular(listed: seq<string>, regular: set<string>)
    ensures forall f :: f in Copied(listed, regular) <==>
              f in regular && exists rel :: rel in listed && rel != "" && Landing(rel) == f
  {
    hide Landing;
    if listed != [] {
      var n := |listed| - 1;
      CopiedAreRegular(listed[..n], regular);
      assert forall rel :: rel in listed <==> rel in listed[..n] || rel == listed[n];
    }
  }

  lemma {:induction false} RootedClimb(rel: string)
    requires IsClean(rel)
    ensures Landing("/../" + rel) == "../" + rel
  {
    var up := "../" + rel;
    assert "/../" + rel == "/" + up && ("/" + up)[1..] == up && up[0] == '.';
    assert TrimLeft("/" + up, c => c == '/') == TrimLeft(up, c => c == '/') == up;
    var segs := Segments(rel);
    SplitWhole("..", '/');
    SplitConcat("..", rel, '/');
    assert up == ".." + ['/'] + rel && Segments(up) == [".."] + segs;
    assert ([".."] + segs)[1..] == segs;
    ReduceFixesOrdinary(segs, false, [".."]);
    assert Reduce([".."] + segs, false, []) == [".."] + segs by { assert [] + [".."] == [".."]; }
    JoinSplit(up, '/');
  }

  /** A file listed by its own name is copied there, and a rooted name that climbs is refused. */
  lemma {:induction false} LandingOfClean(rel: string)
    requires IsClean(rel)
    ensures Landing(rel) == rel && !Climbs(rel) && Climbs("/../" + rel)
  {
    CleanFixesClean(rel);
    CleanNeverClimbs(rel);
    RootedClimb(rel);
  }

  lemma {:induction false} TreeIsSeparate(tree: set<string>)
    requires IsTree(tree)
    ensures tree !! Dirs(tree) && ".git" !in tree
  {
  }
}

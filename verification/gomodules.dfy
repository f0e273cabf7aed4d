/** Which Go modules a scope's files belong to, read from a repository's file list. */
module GoModules {
  import opened Text
  import opened Paths
  import opened Order

  function Depth(dir: string): nat { if dir == "." then 0 else Count(dir, '/') + 1 }

  /** A module directory holding a file. */
  predicate Holds(m: string, file: string) { m == "." || file == m || Above(m, file) }

  predicate OutsideBuild(f: string) { "vendor" in Segments(Dir(f)) || "testdata" in Segments(Dir(f)) }

  /** `m` holds the file, and every other listed module that does is a directory above `m`. */
  ghost predicate Innermost(m: string, file: string, modules: seq<string>) {
    && m in modules && Holds(m, file)
    && forall o :: o in modules && Holds(o, file) ==> o == m || o == "." || Above(o, m)
  }

  /** Of two modules holding one file, the deeper lies beneath the other; equal depth means the same
      module. */
  lemma {:induction false} DepthOrdersHolders(a: string, b: string, file: string)
    requires Holds(a, file) && Holds(b, file) && Depth(a) <= Depth(b)
    ensures a == b || a == "." || Above(a, b)
  {
    if a != "." && b != "." && a != b {
      AboveFile(a, file);
      AboveFile(b, file);
      AboveLinear(a, b, file + "/");
      if Above(b, a) { AboveIsShallower(b, a); }
    }
  }

  lemma {:induction false} AboveFile(m: string, file: string)
    requires m != "." && Holds(m, file)
    ensures Above(m, file + "/")
  {
  }

  lemma {:induction false} AboveIsShallower(a: string, b: string)
    requires Above(a, b)
    ensures Count(a, '/') < Count(b, '/')
  {
    var rest := b[|a| + 1..];
    assert b == a + "/" + rest;
    CountConcat(a + "/", rest, '/');
    CountConcat(a, "/", '/');
    assert Count("/", '/') == 1;
  }

  /** Whatever the order of the list, and however often a module is on it, at most one module is
      innermost. */
  lemma {:induction false} InnermostIsUnique(a: string, b: string, file: string, modules: seq<string>,
          others: seq<string>)
    requires forall m :: m in modules <==> m in others
    requires Innermost(a, file, modules) && Innermost(b, file, others)
    ensures a == b
  {
    if a != b && Above(a, b) && Above(b, a) {
      AboveIsShallower(a, b);
      AboveIsShallower(b, a);
    }
    assert a in others && b in modules;
    DotIsNotBeneath(a);
    DotIsNotBeneath(b);
  }

  lemma {:induction false} DotIsNotBeneath(m: string)
    ensures !Above(m, ".")
  {
    assert (m + "/")[|m|] == '/';
  }

  /** `InnermostModule`. */
  method InnermostModule(file: string, modules: seq<string>) returns (best: string, found: bool)
    ensures found <==> exists m :: m in modules && Holds(m, file)
    ensures found ==> Innermost(best, file, modules)
  {
    best, found := "", false;
    for i := 0 to |modules|
      invariant found <==> exists j :: 0 <= j < i && Holds(modules[j], file)
      invariant found ==> best in modules && Holds(best, file)
      invariant forall j :: 0 <= j < i && Holds(modules[j], file) ==> Depth(modules[j]) <= Depth(best)
    {
      var m := modules[i];
      if m != "." && file != m && !Above(m, file) {
        continue;
      }
      if !found || Depth(m) > Depth(best) {
        best, found := m, true;
      }
    }
    if found {
      forall o | o in modules && Holds(o, file) ensures o == best || o == "." || Above(o, best) {
        DepthOrdersHolders(o, best, file);
      }
    }
  }

  // ---- the roots of a scope ----

  predicate IsManifest(f: string, manifest: string) {
    f != "" && !OutsideBuild(f) && Base(f) == manifest
  }

  predicate IsSource(f: string, manifest: string) {
    f != "" && !OutsideBuild(f) && Base(f) != manifest && HasSuffix(f, ".go")
  }

  predicate SelectedBy(f: string, keep: seq<string>) {
    exists i :: 0 <= i < |keep| && (f == keep[i] || Above(keep[i], f))
  }

  function ModuleDirs(files: seq<string>, manifest: string): seq<string> {
    if files == [] then []
    else ModuleDirs(files[..|files| - 1], manifest) +
         if IsManifest(files[|files| - 1], manifest) then [Dir(files[|files| - 1])] else []
  }

  lemma {:induction false} ModuleDirsAreManifests(files: seq<string>, manifest: string)
    ensures forall d :: d in ModuleDirs(files, manifest) <==>
                        exists f :: f in files && IsManifest(f, manifest) && Dir(f) == d
  {
    if files != [] {
      hide IsManifest, Dir;
      assert files == files[..|files| - 1] + [files[|files| - 1]];
      ModuleDirsAreManifests(files[..|files| - 1], manifest);
    }
  }

  /** A directory holding a manifest the build does not leave out. */
  ghost predicate IsModule(d: string, files: seq<string>, manifest: string) {
    exists f :: f in files && IsManifest(f, manifest) && Dir(f) == d
  }

  /** What a scope's roots are: the module of each manifest a path names, and the innermost of the repository's
      modules that hold a selected Go file. */
  ghost predicate IsRoot(d: string, files: seq<string>, manifest: string, keep: seq<string>) {
    && IsModule(d, files, manifest)
    && (|| (exists p :: p in keep && Base(p) == manifest && Dir(p) == d)
        || (exists f :: f in files && IsSource(f, manifest) && SelectedBy(f, keep) && Holds(d, f) &&
                        forall o :: IsModule(o, files, manifest) && Holds(o, f) ==> o == d || o == "." || Above(o, d)))
  }

  /** The roots, told by the list of module directories. */
  lemma {:induction false} RootsByList(d: string, files: seq<string>, manifest: string, keep: seq<string>)
    ensures var modules := ModuleDirs(files, manifest);
            IsRoot(d, files, manifest, keep) <==>
              || (exists p :: p in keep && Base(p) == manifest && Dir(p) == d && d in modules)
              || (exists f :: f in files && IsSource(f, manifest) && SelectedBy(f, keep) && Innermost(d, f, modules))
  {
    hide IsManifest, Dir, Base, IsSource, SelectedBy, Holds, ModuleDirs;
    ModuleDirsAreManifests(files, manifest);
    var modules := ModuleDirs(files, manifest);
    assert forall o :: o in modules <==> IsModule(o, files, manifest);
  }

  /** `slices.Compact` after `slices.Sort`. */
  function Compact(s: seq<string>): seq<string> {
    if |s| <= 1 then s
    else if s[0] == s[1] then Compact(s[1..])
    else [s[0]] + Compact(s[1..])
  }

  lemma {:induction false} CompactStrictlySorts(s: seq<string>)
    requires Sorted(s)
    ensures StrictlySorted(Compact(s)) && forall x :: x in Compact(s) <==> x in s
  {
    if |s| > 1 {
      CompactStrictlySorts(s[1..]);
      assert s == [s[0]] + s[1..];
      if s[0] != s[1] {
        var rest := Compact(s[1..]);
        forall j | 0 <= j < |rest| ensures Less(s[0], rest[j]) {
          assert rest[j] in s[1..];
          var k :| 0 <= k < |s[1..]| && s[1..][k] == rest[j];
          assert s[k + 1] == rest[j];
          if rest[j] == s[0] { Antisymmetric(s[0], s[1]); }
        }
      } else {
        assert s[1] in s[1..];
      }
    }
  }

  /** `moduleRootsIn`. */
  method ModuleRootsIn(files: seq<string>, manifest: string, keep: seq<string>) returns (roots: seq<string>)
    ensures StrictlySorted(roots)
    ensures forall d :: d in roots <==> IsRoot(d, files, manifest, keep)
  {
    hide Dir, Base, OutsideBuild, Innermost, SelectedBy, HasSuffix;
    var modules, sources := [], [];
    for i := 0 to |files|
      invariant modules == ModuleDirs(files[..i], manifest)
      invariant forall f :: f in sources <==> f in files[..i] && IsSource(f, manifest)
    {
      var f := files[i];
      assert files[..i + 1] == files[..i] + [f] && files[..i + 1][..i] == files[..i];
      if f == "" || OutsideBuild(f) {
        continue;
      }
      if Base(f) == manifest {
        modules := modules + [Dir(f)];
      } else if HasSuffix(f, ".go") {
        sources := sources + [f];
      }
    }
    assert files[..|files|] == files;
    if modules == [] {
      NoModulesNoRoots(files, manifest, keep);
      return [];
    }
    roots := [];
    for i := 0 to |keep|
      invariant forall d :: d in roots <==>
        exists p :: p in keep[..i] && Base(p) == manifest && Dir(p) == d && d in modules
    {
      assert keep[..i + 1] == keep[..i] + [keep[i]];
      if Base(keep[i]) == manifest && Dir(keep[i]) in modules {
        roots := roots + [Dir(keep[i])];
      }
    }
    assert keep[..|keep|] == keep;
    ghost var named := roots;
    for i := 0 to |sources|
      invariant forall d :: d in roots <==>
        d in named || exists f :: f in sources[..i] && SelectedBy(f, keep) && Innermost(d, f, modules)
    {
      var f := sources[i];
      assert sources[..i + 1] == sources[..i] + [f];
      if SelectedBy(f, keep) {
        var m, ok := InnermostModule(f, modules);
        NoneHoldsNoneInnermost(f, modules);
        if ok {
          roots := roots + [m];
          forall d | Innermost(d, f, modules) ensures d == m { InnermostIsUnique(d, m, f, modules, modules); }
        }
      }
    }
    assert sources[..|sources|] == sources;
    SortSorts(roots);
    CompactStrictlySorts(Sort(roots));
    roots := Compact(Sort(roots));
    forall d ensures d in roots <==> IsRoot(d, files, manifest, keep) {
      RootsByList(d, files, manifest, keep);
    }
  }

  // ---- told by names ----

  function At(dir: string, name: string): string { if dir == "." then name else dir + "/" + name }

  /** A directory the build reads: none of its segments is `vendor` or `testdata`. */
  predicate InBuild(dir: string) { dir == "." || ("vendor" !in Segments(dir) && "testdata" !in Segments(dir)) }

  predicate IsDir(dir: string) { dir == "." || IsClean(dir) }

  predicate IsName(name: string) { IsClean(name) && '/' !in name }

  lemma {:induction false} LocatedAt(f: string) returns (dir: string, name: string)
    requires IsClean(f)
    ensures IsDir(dir) && IsName(name) && f == At(dir, name)
  {
    var i := LastSlash(f);
    if i < 0 {
      dir, name := ".", f;
    } else {
      dir, name := f[..i], f[i + 1..];
      assert f == dir + "/" + name;
      CleanConcat(dir, name);
      DotIsNotClean();
    }
  }

  lemma {:induction false} DotIsNotClean()
    ensures !IsClean(".")
  {
    SplitWhole(".", '/');
    assert "." in Segments(".");
  }

  lemma {:induction false} GoSuffix(dir: string, name: string)
    ensures HasSuffix(dir + "/" + name, ".go") <==> HasSuffix(name, ".go")
  {
    var f := dir + "/" + name;
    assert ".go"[0] == '.' && ".go"[1] == 'g' && ".go"[2] == 'o';
    if |name| >= 3 {
      assert f[|f| - 3..] == name[|name| - 3..];
    } else {
      assert |f| >= 3 ==> f[|f| - 3..][2 - |name|] == '/';
    }
  }

  /** A file by its directory and its name: where it lies, and whether it is a manifest or a source. */
  lemma {:induction false} FileIs(dir: string, name: string, manifest: string)
    requires IsDir(dir) && IsName(name)
    ensures var f := At(dir, name);
            && Dir(f) == dir && Base(f) == name
            && (IsManifest(f, manifest) <==> InBuild(dir) && name == manifest)
            && (IsSource(f, manifest) <==> InBuild(dir) && name != manifest && HasSuffix(name, ".go"))
  {
    CleanFixesClean(name);
    hide Dir, Base, IsClean, HasSuffix, Clean;
    if dir == "." {
      DirAndBase(name, name);
    } else {
      DirAndBase(dir, name);
      GoSuffix(dir, name);
    }
    FileFrom(At(dir, name), name, manifest);
  }

  lemma {:induction false} FileFrom(f: string, name: string, manifest: string)
    requires f != "" && Base(f) == name && (HasSuffix(f, ".go") <==> HasSuffix(name, ".go"))
    ensures IsManifest(f, manifest) <==> InBuild(Dir(f)) && name == manifest
    ensures IsSource(f, manifest) <==> InBuild(Dir(f)) && name != manifest && HasSuffix(name, ".go")
  {
    hide Dir, Base, HasSuffix;
    SplitWhole(".", '/');
    assert "vendor"[0] == 'v' && "testdata"[0] == 't' && "."[0] == '.';
  }

  ghost predicate IsModuleDir(d: string, files: seq<string>, manifest: string) {
    IsDir(d) && At(d, manifest) in files && InBuild(d)
  }

  /** The modules are the directories whose manifest is listed, outside `vendor` and `testdata`. */
  lemma {:induction false} ModulesAre(d: string, files: seq<string>, manifest: string)
    requires IsName(manifest) && forall f :: f in files ==> IsClean(f)
    ensures IsModule(d, files, manifest) <==> IsModuleDir(d, files, manifest)
  {
    hide IsClean, Dir, InBuild, OutsideBuild, Base;
    if IsModuleDir(d, files, manifest) { FileIs(d, manifest, manifest); }
    forall f | f in files && IsManifest(f, manifest) && Dir(f) == d ensures IsModuleDir(d, files, manifest) {
      var dir, name := LocatedAt(f);
      FileIs(dir, name, manifest);
    }
  }

  /** A selected source of the build, and the innermost of the modules that hold it. */
  ghost predicate HoldsSelected(d: string, dir: string, name: string, files: seq<string>, manifest: string,
                                keep: seq<string>) {
    var f := At(dir, name);
    && IsDir(dir) && IsName(name) && f in files && InBuild(dir) && name != manifest && HasSuffix(name, ".go")
    && (exists k :: k in keep && Covers(k, f))
    && Holds(d, f)
    && forall o :: IsModuleDir(o, files, manifest) && Holds(o, f) ==> o == d || o == "." || Above(o, d)
  }

  /** The roots told by the names of the files alone: the modules whose manifest is itself selected, and those that
      are the innermost to hold a selected Go source the build reads. */
  lemma {:induction false} RootsByName(d: string, files: seq<string>, manifest: string, keep: seq<string>)
    requires IsName(manifest) && forall f :: f in files || f in keep ==> IsClean(f)
    ensures IsRoot(d, files, manifest, keep) <==>
            IsModuleDir(d, files, manifest) &&
            (At(d, manifest) in keep || exists dir, name :: HoldsSelected(d, dir, name, files, manifest, keep))
  {
    hide IsClean, Dir, InBuild, OutsideBuild, Base, HasSuffix, Holds, IsManifest, IsModuleDir;
    forall o ensures IsModule(o, files, manifest) <==> IsModuleDir(o, files, manifest) {
      ModulesAre(o, files, manifest);
    }
    NamedRoot(d, files, manifest, keep);
    hide IsModule;
    forall f | f in files && IsSource(f, manifest) && SelectedBy(f, keep) && Holds(d, f) &&
        forall o :: IsModuleDir(o, files, manifest) && Holds(o, f) ==> o == d || o == "." || Above(o, d)
      ensures exists dir, name :: HoldsSelected(d, dir, name, files, manifest, keep)
    {
      var dir, name := LocatedAt(f);
      FileIs(dir, name, manifest);
      SelectedIs(f, keep);
      assert HoldsSelected(d, dir, name, files, manifest, keep);
    }
    forall dir, name | HoldsSelected(d, dir, name, files, manifest, keep)
      ensures var f := At(dir, name);
              f in files && IsSource(f, manifest) && SelectedBy(f, keep) && Holds(d, f)
    {
      FileIs(dir, name, manifest);
      SelectedIs(At(dir, name), keep);
    }
  }

  lemma {:induction false} SelectedIs(f: string, keep: seq<string>)
    ensures SelectedBy(f, keep) <==> exists k :: k in keep && Covers(k, f)
  {
    if k :| k in keep && Covers(k, f) {
      var i :| 0 <= i < |keep| && keep[i] == k;
    }
    if SelectedBy(f, keep) {
      var i :| 0 <= i < |keep| && (f == keep[i] || Above(keep[i], f));
      assert keep[i] in keep && Covers(keep[i], f);
    }
  }

  lemma {:induction false} NamedRoot(d: string, files: seq<string>, manifest: string, keep: seq<string>)
    requires IsName(manifest) && forall f :: f in keep ==> IsClean(f)
    ensures IsModuleDir(d, files, manifest) ==>
            ((exists p :: p in keep && Base(p) == manifest && Dir(p) == d) <==> At(d, manifest) in keep)
  {
    hide IsClean, Dir, InBuild, OutsideBuild, Base, HasSuffix, IsManifest;
    if IsModuleDir(d, files, manifest) {
      FileIs(d, manifest, manifest);
      forall p | p in keep && Base(p) == manifest && Dir(p) == d ensures p == At(d, manifest) {
        var dir, name := LocatedAt(p);
        FileIs(dir, name, manifest);
      }
    }
  }

  lemma {:induction false} NoneHoldsNoneInnermost(f: string, modules: seq<string>)
    ensures forall d :: Innermost(d, f, modules) ==> exists m :: m in modules && Holds(m, f)
  {
  }

  lemma {:induction false} NoModulesNoRoots(files: seq<string>, manifest: string, keep: seq<string>)
    requires ModuleDirs(files, manifest) == []
    ensures forall d :: !IsRoot(d, files, manifest, keep)
  {
    hide ModuleDirs;
    forall d ensures !IsRoot(d, files, manifest, keep) {
      RootsByList(d, files, manifest, keep);
    }
  }
}

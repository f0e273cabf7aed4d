/** Slash-separated paths: Go's `path.Clean`, `path.Join`, `path.Dir` and `path.Base`, and what it
    is for one path to lie above another. */
module Paths {
  import opened Text

  function Segments(p: string): seq<string> { Split(p, '/') }

  /** Drops empty and `.` segments and lets `..` take back the segment before it. */
  function Reduce(segs: seq<string>, rooted: bool, acc: seq<string>): seq<string> {
    if segs == [] then acc
    else if segs[0] == "" || segs[0] == "." then Reduce(segs[1..], rooted, acc)
    else if segs[0] == ".." then
      if acc != [] && acc[|acc| - 1] != ".." then Reduce(segs[1..], rooted, acc[..|acc| - 1])
      else if rooted then Reduce(segs[1..], rooted, acc)
      else Reduce(segs[1..], rooted, acc + [".."])
    else Reduce(segs[1..], rooted, acc + [segs[0]])
  }

  function Clean(p: string): string {
    var rooted := p != "" && p[0] == '/';
    var body := Join(Reduce(Segments(p), rooted, []), '/');
    if rooted then "/" + body else if body == "" then "." else body
  }

  /** `path.Join` of two elements. */
  function JoinPath(dir: string, e: string): string {
    if dir == "" && e == "" then ""
    else if dir == "" then Clean(e)
    else if e == "" then Clean(dir)
    else Clean(dir + "/" + e)
  }

  function LastSlash(p: string): (i: int)
    ensures -1 <= i < |p| && (i >= 0 ==> p[i] == '/') && '/' !in p[i + 1..]
  {
    if p == "" then -1
    else if p[|p| - 1] == '/' then |p| - 1
    else
      assert p == p[..|p| - 1] + [p[|p| - 1]];
      LastSlash(p[..|p| - 1])
  }

  function Dir(p: string): string { Clean(p[..LastSlash(p) + 1]) }

  function Base(p: string): string {
    if p == "" then "."
    else
      var q := TrimRight(p, c => c == '/');
      if q == "" then "/" else q[LastSlash(q) + 1..]
  }

  predicate OrdinarySegment(s: string) { s != "" && s != "." && s != ".." }

  /** A relative path of ordinary segments, which is what git names a file by. */
  predicate IsClean(p: string) {
    forall s :: s in Segments(p) ==> OrdinarySegment(s)
  }

  /** `dir` is one of the directories above `p`. */
  predicate Above(dir: string, p: string) { dir + "/" <= p }

  /** A path is another or lies above it. */
  predicate Covers(p: string, f: string) { p == f || Above(p, f) }

  lemma {:induction false} OneOrdinarySegment(s: string)
    requires OrdinarySegment(s) && Segments(s) == [s]
    ensures IsClean(s)
  {
  }

  lemma {:induction false} ReduceFixesOrdinary(segs: seq<string>, rooted: bool, acc: seq<string>)
    requires forall s :: s in segs ==> OrdinarySegment(s)
    ensures Reduce(segs, rooted, acc) == acc + segs
  {
    if segs == [] {
      assert acc + segs == acc;
    } else {
      assert segs[0] in segs;
      ReduceFixesOrdinary(segs[1..], rooted, acc + [segs[0]]);
      assert acc + [segs[0]] + segs[1..] == acc + segs;
    }
  }

  lemma {:induction false} OuterSlashLeavesAnEmptySegment(p: string)
    ensures p != "" && (p[0] == '/' || p[|p| - 1] == '/') ==> "" in Segments(p)
  {
    if p != "" && p[0] == '/' {
      SplitConcat("", p[1..], '/');
      assert "" + ['/'] + p[1..] == p;
    } else if p != "" && p[|p| - 1] == '/' {
      SplitConcat(p[..|p| - 1], "", '/');
      assert p[..|p| - 1] + ['/'] + "" == p;
    }
  }

  lemma {:induction false} CleanFixesClean(p: string)
    requires IsClean(p)
    ensures Clean(p) == p && p != "" && p[0] != '/' && p[|p| - 1] != '/' && TrimSlashes(p) == p
  {
    var segs := Segments(p);
    JoinSplit(p, '/');
    assert segs[0] in segs && segs[|segs| - 1] in segs;
    OuterSlashLeavesAnEmptySegment(p);
    ReduceFixesOrdinary(segs, false, []);
    assert [] + segs == segs;
  }

  lemma {:induction false} CleanConcat(a: string, b: string)
    ensures IsClean(a + "/" + b) <==> IsClean(a) && IsClean(b)
  {
    SplitConcat(a, b, '/');
    assert a + ['/'] + b == a + "/" + b;
    assert forall s :: s in Segments(a) ==> s in Segments(a + "/" + b);
    assert forall s :: s in Segments(b) ==> s in Segments(a + "/" + b);
  }

  /** Joining clean paths writes one under the other. */
  lemma {:induction false} JoinClean(dir: string, e: string)
    requires IsClean(dir) && IsClean(e)
    ensures JoinPath(dir, e) == dir + "/" + e && IsClean(dir + "/" + e)
    ensures JoinPath(dir, "") == dir && JoinPath("", e) == e && JoinPath("", "") == ""
  {
    CleanFixesClean(dir);
    CleanFixesClean(e);
    CleanConcat(dir, e);
    CleanFixesClean(dir + "/" + e);
  }

  /** The segment prefixes the scope test builds are the directories above the file, and every one
      of those. */
  lemma {:induction false} SegmentPrefixIsAbove(p: string, i: nat)
    requires 1 <= i < |Segments(p)|
    ensures Above(Join(Segments(p)[..i], '/'), p)
  {
    var segs := Segments(p);
    JoinSplit(p, '/');
    assert segs[..i] + segs[i..] == segs;
    JoinConcat(segs[..i], segs[i..], '/');
    assert Join(segs[..i], '/') + "/" == Join(segs[..i], '/') + ['/'];
  }

  lemma {:induction false} AboveIsSegmentPrefix(dir: string, p: string) returns (i: nat)
    requires Above(dir, p)
    ensures 1 <= i < |Segments(p)| && Join(Segments(p)[..i], '/') == dir
  {
    var rest := p[|dir| + 1..];
    assert p == dir + ['/'] + rest;
    SplitConcat(dir, rest, '/');
    JoinSplit(dir, '/');
    i := |Segments(dir)|;
    assert Segments(p)[..i] == Segments(dir);
  }

  /** Two directories above one path lie one above the other. */
  lemma {:induction false} AboveLinear(a: string, b: string, p: string)
    requires Above(a, p) && Above(b, p)
    ensures a == b || Above(a, b) || Above(b, a)
  {
    if |a| < |b| {
      assert a + "/" <= b;
    } else if |b| < |a| {
      assert b + "/" <= a;
    } else {
      assert a == p[..|a|] == b;
    }
  }

  lemma {:induction false} AboveTransitive(a: string, b: string, p: string)
    requires Above(a, b) && Above(b, p)
    ensures Above(a, p)
  {
  }

  /** A directory above a clean path is clean. */
  lemma {:induction false} AboveClean(dir: string, p: string)
    requires Above(dir, p) && IsClean(p)
    ensures IsClean(dir)
  {
    assert p == dir + "/" + p[|dir| + 1..];
    CleanConcat(dir, p[|dir| + 1..]);
  }

  /** The directory and the name of a clean path. */
  lemma {:induction false} DirAndBase(dir: string, name: string)
    requires IsClean(dir) && IsClean(name) && '/' !in name
    ensures Dir(dir + "/" + name) == dir && Base(dir + "/" + name) == name && Base(dir + "/" + name + "/") == name
    ensures Dir(name) == "." && Base(name) == name
  {
    CleanFixesClean(dir);
    CleanFixesClean(name);
    LastSlashAt(dir, name);
    LastSlashNone(name);
    var p := dir + "/" + name;
    assert p[|p| - 1] == name[|name| - 1] && p[|dir| + 1..] == name;
    assert p[..|dir| + 1] == dir + "/" && name[..0] == "";
    hide IsClean, Clean;
    ClosedIsItself(dir);
    EmptyIsHere();
    NoSlashToTrim(p, "");
    NoSlashToTrim(p, "/");
    NoSlashToTrim(name, "");
    assert p + "" == p && name + "" == name;
  }

  lemma {:induction false} NoSlashToTrim(p: string, slashes: string)
    requires p != "" && p[|p| - 1] != '/' && forall c :: c in slashes ==> c == '/'
    ensures Base(p + slashes) == p[LastSlash(p) + 1..]
  {
    TrimsRunAfter(p, slashes, c => c == '/');
  }

  lemma {:induction false} BaseOfNothing()
    ensures Base("") == "." && Base("/") == "/"
  {
  }

  lemma {:induction false} LastSlashAt(dir: string, name: string)
    requires '/' !in name
    ensures LastSlash(dir + "/" + name) == |dir|
  {
    var p := dir + "/" + name;
    var i := LastSlash(p);
    assert p[|dir|] == '/' && forall j :: |dir| < j < |p| ==> p[j] == name[j - |dir| - 1];
    Follow(p, i);
  }

  lemma {:induction false} Follow(s: string, i: int)
    requires -1 <= i < |s|
    ensures forall j :: i < j < |s| ==> s[j] in s[i + 1..]
  {
    forall j | i < j < |s| ensures s[j] in s[i + 1..] {
      assert s[i + 1..][j - i - 1] == s[j];
    }
  }

  lemma {:induction false} LastSlashNone(name: string)
    requires '/' !in name
    ensures LastSlash(name) == -1
  {
  }

  /** A closing slash says no more. */
  lemma {:induction false} ClosedIsItself(dir: string)
    requires IsClean(dir)
    ensures Clean(dir + "/") == dir
  {
    SegmentsOf(dir, "");
    assert dir + "/" + "" == dir + "/" && Segments("") == [""];
    ReduceSkips(Segments(dir), "", [], false, []);
    assert Segments(dir) + [""] + [] == Segments(dir) + [""] && Segments(dir) + [] == Segments(dir);
    CleanFixesClean(dir);
    hide Reduce;
    CleanByReduce(dir + "/", dir);
  }

  // ---- what Clean leaves ----

  /** Segments Reduce may leave: ordinary ones after any `..`, which a rooted path never keeps. */
  predicate Reduced(segs: seq<string>, rooted: bool) {
    && (forall i :: 0 <= i < |segs| ==> segs[i] != "" && segs[i] != "." && '/' !in segs[i])
    && (forall i :: 0 < i < |segs| ==> segs[i] == ".." ==> segs[i - 1] == "..")
    && (rooted ==> forall i :: 0 <= i < |segs| ==> segs[i] != "..")
  }

  lemma {:induction false} ReduceReduces(segs: seq<string>, rooted: bool, acc: seq<string>)
    requires Reduced(acc, rooted) && forall s :: s in segs ==> '/' !in s
    ensures Reduced(Reduce(segs, rooted, acc), rooted)
  {
    if segs == [] {
    } else if segs[0] == "" || segs[0] == "." {
      ReduceReduces(segs[1..], rooted, acc);
    } else if segs[0] == ".." {
      if acc != [] && acc[|acc| - 1] != ".." {
        ReduceReduces(segs[1..], rooted, acc[..|acc| - 1]);
      } else if rooted {
        ReduceReduces(segs[1..], rooted, acc);
      } else {
        ReduceReduces(segs[1..], rooted, acc + [".."]);
      }
    } else {
      ReduceReduces(segs[1..], rooted, acc + [segs[0]]);
    }
  }

  /** A relative path cleans to one, which ends in no slash. */
  lemma {:induction false} RelativeStays(p: string)
    requires p == "" || p[0] != '/'
    ensures var c := Clean(p); c != "" && c[0] != '/' && c[|c| - 1] != '/'
  {
    SplitPartsHaveNoSeparator(p, '/');
    var segs := Reduce(Segments(p), false, []);
    ReduceReduces(Segments(p), false, []);
    if segs != [] {
      JoinStarts(segs, '/');
      JoinEnds(segs, '/');
    }
  }

  /** A rooted path cleans to the root or to a clean path under it. */
  lemma {:induction false} RootedIsClean(p: string)
    requires p != "" && p[0] == '/'
    ensures var c := Clean(p); c == "/" || (c[0] == '/' && IsClean(c[1..]))
  {
    SplitPartsHaveNoSeparator(p, '/');
    var segs := Reduce(Segments(p), true, []);
    ReduceReduces(Segments(p), true, []);
    if segs != [] {
      SplitJoin(segs, '/');
      assert ("/" + Join(segs, '/'))[1..] == Join(segs, '/');
    }
  }

  /** Empty and `.` segments count for nothing, wherever they stand. */
  lemma {:induction false} ReduceSkips(a: seq<string>, s: string, b: seq<string>, rooted: bool, acc: seq<string>)
    requires s == "" || s == "."
    ensures Reduce(a + [s] + b, rooted, acc) == Reduce(a + b, rooted, acc)
    decreases |a|
  {
    var with, without := a + [s] + b, a + b;
    if a == [] {
      assert with[0] == s && with[1..] == b && without == b;
    } else {
      assert with[0] == without[0] == a[0] && with[1..] == a[1..] + [s] + b && without[1..] == a[1..] + b;
      ReduceSkips(a[1..], s, b, rooted, acc);
      ReduceSkips(a[1..], s, b, rooted, acc + [".."]);
      ReduceSkips(a[1..], s, b, rooted, acc + [a[0]]);
      if acc != [] { ReduceSkips(a[1..], s, b, rooted, acc[..|acc| - 1]); }
    }
  }

  /** A segment and the `..` after it count for nothing, wherever they stand. */
  lemma {:induction false} ReduceTakesBack(a: seq<string>, s: string, b: seq<string>, rooted: bool, acc: seq<string>)
    requires OrdinarySegment(s)
    ensures Reduce(a + [s, ".."] + b, rooted, acc) == Reduce(a + b, rooted, acc)
    decreases |a|
  {
    var with, without := a + [s, ".."] + b, a + b;
    if a == [] {
      assert with[0] == s && with[1] == ".." && with[1..][1..] == b && without == b;
      assert (acc + [s])[..|acc|] == acc;
    } else {
      assert with[0] == without[0] == a[0];
      assert with[1..] == a[1..] + [s, ".."] + b && without[1..] == a[1..] + b;
      ReduceTakesBack(a[1..], s, b, rooted, acc);
      ReduceTakesBack(a[1..], s, b, rooted, acc + [".."]);
      ReduceTakesBack(a[1..], s, b, rooted, acc + [a[0]]);
      if acc != [] { ReduceTakesBack(a[1..], s, b, rooted, acc[..|acc| - 1]); }
    }
  }

  lemma {:induction false} CleanByReduce(p: string, q: string)
    requires p != "" && q != "" && (p[0] == '/' <==> q[0] == '/')
    requires Reduce(Segments(p), p[0] == '/', []) == Reduce(Segments(q), p[0] == '/', [])
    ensures Clean(p) == Clean(q)
  {
  }

  lemma {:induction false} SegmentsOf(a: string, b: string)
    ensures Segments(a + "/" + b) == Segments(a) + Segments(b)
  {
    SplitConcat(a, b, '/');
    assert a + ['/'] + b == a + "/" + b;
  }

  /** What cleaning a path does not see: a doubled slash, a `.`, and a segment taken back by the `..` after it. */
  lemma {:induction false} CleanIgnores(a: string, s: string, b: string)
    ensures Clean(a + "/" + "" + "/" + b) == Clean(a + "/" + b)
    ensures Clean(a + "/" + "." + "/" + b) == Clean(a + "/" + b)
    ensures OrdinarySegment(s) && '/' !in s ==> Clean(a + "/" + s + "/" + ".." + "/" + b) == Clean(a + "/" + b)
  {
    var plain, rooted := a + "/" + b, (a + "/")[0] == '/';
    SegmentsOf(a, b);
    OneMore(a, "", b);
    OneMore(a, ".", b);
    hide Clean, Reduce, Segments;
    forall x | x in ["", "."] ensures Clean(a + "/" + x + "/" + b) == Clean(plain) {
      ReduceSkips(Segments(a), x, Segments(b), rooted, []);
      CleanByReduce(a + "/" + x + "/" + b, plain);
    }
    assert "" in ["", "."] && "." in ["", "."] by { assert ["", "."][0] == "" && ["", "."][1] == "."; }
    if OrdinarySegment(s) && '/' !in s {
      OneMore(a, s, ".." + "/" + b);
      OneMore(a + "/" + s, "..", b);
      TwoMore(a, s, b);
      ReduceTakesBack(Segments(a), s, Segments(b), rooted, []);
      CleanByReduce(a + "/" + s + "/" + ".." + "/" + b, plain);
    }
  }

  lemma {:induction false} OneMore(a: string, s: string, b: string)
    requires '/' !in s
    ensures Segments(a + "/" + s + "/" + b) == Segments(a) + [s] + Segments(b)
  {
    SegmentsOf(a + "/" + s, b);
    SegmentsOf(a, s);
    SplitWhole(s, '/');
  }

  lemma {:induction false} TwoMore(a: string, s: string, b: string)
    requires '/' !in s
    ensures Segments(a + "/" + s + "/" + ".." + "/" + b) == Segments(a) + [s, ".."] + Segments(b)
  {
    OneMore(a + "/" + s, "..", b);
    SegmentsOf(a, s);
    SplitWhole(s, '/');
    assert [s] + [".."] == [s, ".."];
  }

  lemma {:induction false} ReduceFixes(segs: seq<string>, rooted: bool, acc: seq<string>)
    requires Reduced(acc + segs, rooted)
    ensures Reduce(segs, rooted, acc) == acc + segs
  {
    if segs == [] {
      assert acc + segs == acc;
    } else {
      assert (acc + segs)[|acc|] == segs[0];
      assert acc != [] ==> (acc + segs)[|acc| - 1] == acc[|acc| - 1];
      assert acc + [segs[0]] + segs[1..] == acc + segs;
      ReduceFixes(segs[1..], rooted, acc + [segs[0]]);
    }
  }

  /** What it leaves it leaves alone. */
  lemma {:induction false} CleanFixes(segs: seq<string>, rooted: bool)
    requires segs != [] && Reduced(segs, rooted)
    ensures var p := if rooted then "/" + Join(segs, '/') else Join(segs, '/'); Clean(p) == p
  {
    var body := Join(segs, '/');
    SplitJoin(segs, '/');
    ReduceFixes(segs, rooted, []);
    assert [] + segs == segs;
    if rooted {
      SegmentsOf("", body);
      assert "" + "/" + body == "/" + body;
      assert [""] + segs == Segments("/" + body) && ([""] + segs)[1..] == segs;
    } else {
      JoinStarts(segs, '/');
    }
  }

  /** Nothing climbs past the root, and the empty path is the current directory. */
  lemma {:induction false} CleanAtRoot(b: string)
    ensures Clean("/" + ".." + "/" + b) == Clean("/" + b) && Clean("") == "."
  {
    OneMore("", "..", b);
    SegmentsOf("", b);
    assert "" + "/" + ".." + "/" + b == "/" + ".." + "/" + b && "" + "/" + b == "/" + b;
    var segs := [""] + ([".."] + Segments(b));
    assert Segments("/" + ".." + "/" + b) == segs && segs[1..][1..] == Segments(b);
    assert ([""] + Segments(b))[1..] == Segments(b);
    assert Reduce(segs, true, []) == Reduce([""] + Segments(b), true, []);
    hide Reduce;
    CleanByReduce("/" + ".." + "/" + b, "/" + b);
    EmptyIsHere();
  }

  lemma {:induction false} EmptyIsHere()
    ensures Clean("") == "."
  {
    assert Segments("") == [""] && [""][1..] == [] && Reduce([""], false, []) == [];
  }

  lemma {:induction false} LeadingDots(segs: seq<string>, i: nat)
    requires Reduced(segs, false) && i < |segs| && segs[i] == ".."
    ensures segs[0] == ".."
    decreases i
  {
    if i > 0 { LeadingDots(segs, i - 1); }
  }

  /** A cleaned path that is relative, not `.`, and does not start by climbing never climbs: every
      segment is ordinary. */
  lemma {:induction false} CleanStaysInside(p: string)
    requires var c := Clean(p); !("/" <= c) && c != "." && c != ".." && !("../" <= c)
    ensures IsClean(Clean(p))
  {
    SplitPartsHaveNoSeparator(p, '/');
    var segs := Reduce(Segments(p), false, []);
    ReduceReduces(Segments(p), false, []);
    if segs == [] { return; }
    SplitJoin(segs, '/');
    assert segs[0] == ".." ==> ".." <= Join(segs, '/') && (|segs| > 1 ==> ".." + ['/'] <= Join(segs, '/'));
    forall i | 0 <= i < |segs| ensures segs[i] != ".." {
      if segs[i] == ".." { LeadingDots(segs, i); }
    }
  }
}

/** The feed cache: unpacking a zipped feed beside its place and renaming it in, with any file
    operation able to fail, and the fetch and manifest around that replacement. */
module Feeds {
  import opened Common
  import opened Paths
  import Text

  // ---- unpacking ----

  datatype Node = Folder | File(data: string)

  /** A directory tree, by path from its root. */
  type Tree = map<string, Node>

  /** One entry of an archive, and whether reading or writing it fails. */
  datatype Entry = Entry(name: string, isDir: bool, data: string, fails: bool)

  datatype Unpacked =
    | Whole(tree: Tree, total: nat)
    | OutsideArchive(name: string)
    | Broken
    | TooLarge

  predicate Outside(name: string) {
    "/" <= name || name == ".." || "../" <= name
  }

  function Parents(p: string): set<string> {
    set i | 0 <= i < |p| && p[i] == '/' :: p[..i]
  }

  /** A folder and the folders it needs; the root is always there. */
  function Chain(p: string): set<string> {
    if p == "." then {} else Parents(p) + {p}
  }

  /** `os.MkdirAll` fails where a file is in the way. */
  predicate CanMake(tree: Tree, folders: set<string>) {
    forall d :: d in folders && d in tree ==> tree[d].Folder?
  }

  function WithFolders(tree: Tree, folders: set<string>): Tree {
    tree + map d | d in folders :: Folder
  }

  /** Opening a file for writing fails on a folder, the root among them. */
  predicate CanWrite(tree: Tree, p: string) {
    p != "." && (p in tree ==> tree[p].File?)
  }

  function Min(a: int, b: int): int { if a < b then a else b }

  function Unpack(entries: seq<Entry>, cap: nat, tree: Tree, total: nat): Unpacked
    requires total <= cap
  {
    if entries == [] then Whole(tree, total)
    else
      var e := entries[0];
      var name := Clean(e.name);
      if Outside(name) then OutsideArchive(e.name)
      else if e.isDir then
        if e.fails || !CanMake(tree, Chain(name)) then Broken
        else Unpack(entries[1..], cap, WithFolders(tree, Chain(name)), total)
      else
        var made := WithFolders(tree, Parents(name));
        if e.fails || !CanMake(tree, Parents(name)) || !CanWrite(made, name) then Broken
        else
          var n := Min(|e.data|, cap - total);
          if total + n >= cap then TooLarge
          else Unpack(entries[1..], cap, made[name := File(e.data[..n])], total + n)
  }

  /** The extraction loop of `extractAtomic`, `extractFile` reading at most what the cap leaves. */
  method ExtractAll(entries: seq<Entry>, cap: nat) returns (r: Unpacked)
    ensures r == Unpack(entries, cap, map[], 0)
  {
    hide Clean, CanMake, CanWrite, WithFolders;
    var tmp: Tree := map[];
    var total: nat := 0;
    for i := 0 to |entries|
      invariant total <= cap
      invariant Unpack(entries, cap, map[], 0) == Unpack(entries[i..], cap, tmp, total)
    {
      assert entries[i..][1..] == entries[i + 1..];
      var e := entries[i];
      var name := Clean(e.name);
      if Outside(name) {
        return OutsideArchive(e.name);
      }
      if e.isDir {
        if e.fails || !CanMake(tmp, Chain(name)) {
          return Broken;
        }
        tmp := WithFolders(tmp, Chain(name));
        continue;
      }
      if !CanMake(tmp, Parents(name)) {
        return Broken;
      }
      var made := WithFolders(tmp, Parents(name));
      if e.fails || !CanWrite(made, name) {
        return Broken;
      }
      var n := Min(|e.data|, cap - total);
      total := total + n;
      if total >= cap {
        return TooLarge;
      }
      tmp := made[name := File(e.data[..n])];
    }
    return Whole(tmp, total);
  }

  function Files(tree: Tree): map<string, string> {
    map p | p in tree && tree[p].File? :: tree[p].data
  }

  /** What the archive says each path holds, a later entry replacing an earlier one. */
  function Published(entries: seq<Entry>): map<string, string> {
    if entries == [] then map[]
    else
      (if entries[0].isDir then map[] else map[Clean(entries[0].name) := entries[0].data]) + Published(entries[1..])
  }

  function Size(entries: seq<Entry>): nat {
    if entries == [] then 0 else (if entries[0].isDir then 0 else |entries[0].data|) + Size(entries[1..])
  }

  /** What is published under a path is what the last file entry of that path holds. */
  lemma {:induction false} PublishedIs(entries: seq<Entry>, p: string)
    ensures p in Published(entries) <==> exists e :: e in entries && !e.isDir && Clean(e.name) == p
    ensures p in Published(entries) ==>
      exists i :: 0 <= i < |entries| && IsFileAt(entries[i], p) && entries[i].data == Published(entries)[p] &&
                  forall j :: i < j < |entries| ==> !IsFileAt(entries[j], p)
  {
    hide Clean;
    if entries != [] {
      var rest := entries[1..];
      PublishedIs(rest, p);
      assert entries == [entries[0]] + rest;
      if p in Published(rest) {
        var i :| 0 <= i < |rest| && IsFileAt(rest[i], p) && rest[i].data == Published(rest)[p] &&
                 forall j :: i < j < |rest| ==> !IsFileAt(rest[j], p);
        assert entries[i + 1] == rest[i];
        assert forall j :: i + 1 < j < |entries| ==> entries[j] == rest[j - 1];
      } else {
        assert forall j :: 1 <= j < |entries| ==> entries[j] == rest[j - 1] && rest[j - 1] in rest;
      }
    }
  }

  predicate IsFileAt(e: Entry, p: string) { !e.isDir && Clean(e.name) == p }

  lemma {:induction false} FoldersAddNoFile(tree: Tree, folders: set<string>)
    requires CanMake(tree, folders)
    ensures Files(WithFolders(tree, folders)) == Files(tree)
  {
  }

  lemma {:induction false} WriteAddsOneFile(tree: Tree, p: string, data: string)
    ensures Files(tree[p := File(data)]) == Files(tree)[p := data]
  {
  }

  /** A tree is only ever called whole when it holds every file the archive publishes, entire, and
      nothing else, with the bytes written adding up to the archive's and staying under the cap. */
  lemma {:induction false} WholeIsWhole(entries: seq<Entry>, cap: nat, tree: Tree, total: nat)
    requires total <= cap
    ensures var r := Unpack(entries, cap, tree, total);
            && (r.Whole? ==> Files(r.tree) == Files(tree) + Published(entries))
            && (r.Whole? ==> r.total == total + Size(entries) && (r.total < cap || r.total == total))
            && (r.TooLarge? ==> total + Size(entries) >= cap)
            && (r.Whole? ==> forall e :: e in entries ==> !Outside(Clean(e.name)) && !e.fails)
  {
    hide Clean, Files, CanMake, CanWrite, WithFolders, Outside, Chain, Parents;
    if entries != [] {
      var e := entries[0];
      var name := Clean(e.name);
      var rest := entries[1..];
      assert entries == [e] + rest;
      if Outside(name) || e.fails {
      } else if e.isDir {
        if CanMake(tree, Chain(name)) {
          FoldersAddNoFile(tree, Chain(name));
          WholeIsWhole(rest, cap, WithFolders(tree, Chain(name)), total);
          assert Published(entries) == Published(rest);
        }
      } else if CanMake(tree, Parents(name)) {
        var made := WithFolders(tree, Parents(name));
        FoldersAddNoFile(tree, Parents(name));
        var n := Min(|e.data|, cap - total);
        if CanWrite(made, name) && total + n < cap {
          WholeFileStep(entries, cap, made, total);
          WholeIsWhole(rest, cap, made[name := File(e.data)], total + n);
        }
      }
    }
  }

  /** The step of one file that fits. */
  lemma {:induction false} WholeFileStep(entries: seq<Entry>, cap: nat, made: Tree, total: nat)
    requires entries != [] && !entries[0].isDir && total + |entries[0].data| < cap
    ensures var e := entries[0]; var name := Clean(e.name); var next := made[name := File(e.data)];
            && e.data[..|e.data|] == e.data
            && Files(next) + Published(entries[1..]) == Files(made) + Published(entries)
            && Size(entries) == |e.data| + Size(entries[1..])
  {
    hide Clean, Files;
    var e := entries[0];
    var name := Clean(e.name);
    WriteAddsOneFile(made, name, e.data);
    assert Files(made)[name := e.data] + Published(entries[1..]) ==
      Files(made) + (map[name := e.data] + Published(entries[1..]));
  }

  /** Every path unpacked is relative with ordinary segments only, so it lies beneath the temporary
      root. */
  lemma {:induction false} StaysBeneathRoot(entries: seq<Entry>, cap: nat, tree: Tree, total: nat)
    requires total <= cap && forall p :: p in tree ==> IsClean(p)
    ensures var r := Unpack(entries, cap, tree, total);
            r.Whole? ==> forall p :: p in r.tree ==> IsClean(p)
  {
    hide Clean, IsClean, Parents;
    if entries != [] {
      var e := entries[0];
      var name := Clean(e.name);
      if !Outside(name) && !e.fails {
        if name != "." {
          CleanStaysInside(e.name);
          ParentsAreClean(name);
        }
        if e.isDir {
          StaysBeneathRoot(entries[1..], cap, WithFolders(tree, Chain(name)), total);
        } else if name != "." {
          var made := WithFolders(tree, Parents(name));
          var n := Min(|e.data|, cap - total);
          if total + n < cap {
            StaysBeneathRoot(entries[1..], cap, made[name := File(e.data[..n])], total + n);
          }
        }
      }
    }
  }

  // ---- when an archive unpacks ----

  /** The folders an entry needs: those above it, and the one it is. */
  function Needs(e: Entry): set<string> {
    if e.isDir then Chain(Clean(e.name)) else Parents(Clean(e.name))
  }

  /** An entry that can be unpacked where nothing is in its way. */
  predicate Placeable(e: Entry) { !Outside(Clean(e.name)) && !e.fails && (e.isDir || Clean(e.name) != ".") }

  /** A tree leaves an entry its place. */
  predicate RoomFor(tree: Tree, e: Entry) {
    CanMake(tree, Needs(e)) && (!e.isDir && Clean(e.name) in tree ==> tree[Clean(e.name)].File?)
  }

  /** A file where another entry needs a folder. */
  predicate Clashes(a: Entry, b: Entry) { !a.isDir && Clean(a.name) in Needs(b) }

  /** The tree once one entry is unpacked. */
  function WithEntry(tree: Tree, e: Entry): Tree {
    var made := WithFolders(tree, Needs(e));
    if e.isDir then made else made[Clean(e.name) := File(e.data)]
  }

  ghost predicate AllPlaced(tree: Tree, entries: seq<Entry>) {
    && (forall e :: e in entries ==> Placeable(e) && RoomFor(tree, e))
    && (forall a, b :: a in entries && b in entries ==> !Clashes(a, b))
  }

  /** Every file is counted, and only files are. */
  ghost predicate Fit(entries: seq<Entry>, cap: nat, total: nat) {
    total + Size(entries) < cap || forall e :: e in entries ==> e.isDir
  }

  lemma {:induction false} FolderIsLonger(p: string)
    ensures p !in Parents(p)
  {
  }

  /** One entry in a tree leaves another its place exactly when the tree did and neither is a file where the other
      needs a folder. */
  lemma {:induction false} RoomAfter(tree: Tree, e: Entry, other: Entry)
    requires RoomFor(tree, e)
    ensures RoomFor(WithEntry(tree, e), other) <==>
            RoomFor(tree, other) && !Clashes(e, other) && !Clashes(other, e)
  {
    FolderIsLonger(Clean(e.name));
    hide Clean, Parents, Chain;
    var next := WithEntry(tree, e);
    forall d ensures d in next <==> d in tree || d in Needs(e) || (!e.isDir && d == Clean(e.name)) {
    }
    assert forall d :: d in next ==>
        next[d] == if !e.isDir && d == Clean(e.name) then File(e.data) else if d in Needs(e) then Folder else tree[d];
  }

  /** The loop's step on an entry. */
  lemma {:induction false} UnpackOne(entries: seq<Entry>, cap: nat, tree: Tree, total: nat)
    requires total <= cap && entries != []
    ensures var e := entries[0]; var n := if e.isDir then 0 else |e.data|;
            Unpack(entries, cap, tree, total).Whole? <==>
              && Placeable(e) && RoomFor(tree, e) && (e.isDir || total + n < cap)
              && Unpack(entries[1..], cap, WithEntry(tree, e), total + n).Whole?
  {
    var e := entries[0];
    FolderIsLonger(Clean(e.name));
    hide Clean, Parents, Chain, Outside;
    assert e.data[..|e.data|] == e.data;
  }

  lemma {:induction false} PlacedOne(tree: Tree, e: Entry, rest: seq<Entry>)
    ensures AllPlaced(tree, [e] + rest) <==> Placeable(e) && RoomFor(tree, e) && AllPlaced(WithEntry(tree, e), rest)
  {
    assert !Clashes(e, e) by { FolderIsLonger(Clean(e.name)); }
    hide Placeable, RoomFor, WithEntry, Clashes;
    var entries := [e] + rest;
    assert forall x :: x in entries <==> x == e || x in rest;
    if RoomFor(tree, e) {
      forall other
        ensures RoomFor(WithEntry(tree, e), other) <==>
          RoomFor(tree, other) && !Clashes(e, other) && !Clashes(other, e)
      {
        RoomAfter(tree, e, other);
      }
    }
  }

  lemma {:induction false} FitOne(e: Entry, rest: seq<Entry>, cap: nat, total: nat)
    ensures var n := if e.isDir then 0 else |e.data|;
            Fit([e] + rest, cap, total) <==> (e.isDir || total + n < cap) && Fit(rest, cap, total + n)
  {
    var entries := [e] + rest;
    assert entries[1..] == rest && forall x :: x in entries <==> x == e || x in rest;
    if forall x :: x in rest ==> x.isDir { OnlyFoldersWeighNothing(rest); }
  }

  lemma {:induction false} OnlyFoldersWeighNothing(entries: seq<Entry>)
    requires forall e :: e in entries ==> e.isDir
    ensures Size(entries) == 0
  {
    if entries != [] { OnlyFoldersWeighNothing(entries[1..]); }
  }

  lemma {:induction false} NothingToPlace(tree: Tree, cap: nat, total: nat)
    requires total <= cap
    ensures Unpack([], cap, tree, total).Whole? && AllPlaced(tree, []) && Fit([], cap, total)
  {
  }

  lemma {:induction false} UnpacksFrom(entries: seq<Entry>, cap: nat, tree: Tree, total: nat)
    requires total <= cap
    ensures Unpack(entries, cap, tree, total).Whole? <==> AllPlaced(tree, entries) && Fit(entries, cap, total)
  {
    hide *;
    if entries == [] {
      NothingToPlace(tree, cap, total);
    } else {
      var e, rest := entries[0], entries[1..];
      var n := if e.isDir then 0 else |e.data|;
      UnpackOne(entries, cap, tree, total);
      assert entries == [e] + rest;
      FitOne(e, rest, cap, total);
      PlacedOne(tree, e, rest);
      if e.isDir || total + n < cap { UnpacksFrom(rest, cap, WithEntry(tree, e), total + n); }
    }
  }

  lemma {:induction false} NeedsAre(e: Entry, d: string)
    ensures d in Needs(e) <==> Above(d, Clean(e.name)) || (e.isDir && d == Clean(e.name) && d != ".")
  {
    hide Clean;
    var p := Clean(e.name);
    if Above(d, p) { assert p[|d|] == '/' && p[..|d|] == d; }
    forall i | 0 <= i < |p| && p[i] == '/' ensures Above(p[..i], p) {
      assert p[..i] + "/" == p[..i + 1];
    }
    assert Above(d, p) ==> p[|d|] == '/';
  }

  /** When an archive unpacks whole, told by its entries alone: none fails, each lies inside, every file has a
      name, none is where another entry needs a folder, and the files together stay under the cap. */
  ghost predicate IsUnpackable(entries: seq<Entry>, cap: nat) {
    && (forall e :: e in entries ==>
          !e.fails && (IsClean(Clean(e.name)) || (e.isDir && Clean(e.name) == ".")))
    && (forall a, b :: a in entries && b in entries && !a.isDir ==>
          !Above(Clean(a.name), Clean(b.name)) && (b.isDir ==> Clean(a.name) != Clean(b.name)))
    && (Size(entries) < cap || forall e :: e in entries ==> e.isDir)
  }

  lemma {:induction false} InsideIsClean(name: string)
    ensures var c := Clean(name); !Outside(c) <==> c == "." || IsClean(c)
  {
    var c := Clean(name);
    if !Outside(c) && c != "." { CleanStaysInside(name); }
    if IsClean(c) {
      CleanFixesClean(c);
      ClimbIsNotClean(c);
    }
  }

  lemma {:induction false} ClimbIsNotClean(c: string)
    requires IsClean(c)
    ensures c != "." && c != ".." && !("../" <= c)
  {
    Text.SplitWhole(".", '/');
    Text.SplitWhole("..", '/');
    assert "." in Segments(".") && ".." in Segments("..");
    if "../" <= c { AboveClean("..", c); }
  }

  lemma {:induction false} PlaceableIs(e: Entry)
    ensures Placeable(e) <==> !e.fails && (IsClean(Clean(e.name)) || (e.isDir && Clean(e.name) == "."))
  {
    InsideIsClean(e.name);
    hide Clean, IsClean, Outside;
    if IsClean(Clean(e.name)) { ClimbIsNotClean(Clean(e.name)); }
  }

  /** What comes of an archive unpacked into an empty folder. */
  lemma {:induction false} PlacedInNothing(entries: seq<Entry>)
    ensures AllPlaced(map[], entries) <==>
      && (forall e :: e in entries ==> !e.fails && (IsClean(Clean(e.name)) || (e.isDir && Clean(e.name) == ".")))
      && (forall a, b :: a in entries && b in entries && !a.isDir ==>
            !Above(Clean(a.name), Clean(b.name)) && (b.isDir ==> Clean(a.name) != Clean(b.name)))
  {
    forall e: Entry ensures RoomFor(map[], e) {
    }
    hide Clean, IsClean, Needs;
    forall e: Entry
      ensures Placeable(e) <==> !e.fails && (IsClean(Clean(e.name)) || (e.isDir && Clean(e.name) == "."))
      ensures Placeable(e) && !e.isDir ==> Clean(e.name) != "."
    {
      PlaceableIs(e);
    }
    hide Placeable, RoomFor;
    forall a: Entry, b: Entry
      ensures Clashes(a, b) <==>
        !a.isDir && (Above(Clean(a.name), Clean(b.name)) ||
                     (b.isDir && Clean(a.name) == Clean(b.name) && Clean(a.name) != "."))
    {
      NeedsAre(b, Clean(a.name));
    }
    hide Clashes;
  }

  /** The other half of what unpacking does: a result is whole exactly when the archive is unpackable. */
  lemma {:induction false} WholeExactly(entries: seq<Entry>, cap: nat)
    ensures Unpack(entries, cap, map[], 0).Whole? <==> IsUnpackable(entries, cap)
  {
    UnpacksFrom(entries, cap, map[], 0);
    PlacedInNothing(entries);
    hide Unpack, Clean, IsClean, AllPlaced;
  }

  lemma {:induction false} UnpackedFolder(entries: seq<Entry>, cap: nat, tree: Tree, total: nat)
    requires total <= cap && entries != [] && entries[0].isDir && Unpack(entries, cap, tree, total).Whole?
    ensures Unpack(entries, cap, tree, total) == Unpack(entries[1..], cap, WithEntry(tree, entries[0]), total)
  {
    hide Clean, Parents, Chain, Outside, CanMake, CanWrite, WithFolders;
  }

  lemma {:induction false} UnpackedFile(entries: seq<Entry>, cap: nat, tree: Tree, total: nat)
    requires total <= cap && entries != [] && !entries[0].isDir && Unpack(entries, cap, tree, total).Whole?
    ensures var e := entries[0];
            total + |e.data| < cap &&
            Unpack(entries, cap, tree, total) == Unpack(entries[1..], cap, WithEntry(tree, e), total + |e.data|)
  {
    hide Clean, Parents, Chain, Outside, CanMake, CanWrite, WithFolders;
    var data := entries[0].data;
    assert data[..|data|] == data;
  }

  predicate IsFolder(tree: Tree, d: string) { d in tree && tree[d].Folder? }

  ghost predicate Needed(entries: seq<Entry>, d: string) { exists e :: e in entries && d in Needs(e) }

  lemma {:induction false} NeededOne(e: Entry, rest: seq<Entry>, d: string)
    ensures Needed([e] + rest, d) <==> d in Needs(e) || Needed(rest, d)
    ensures !Needed([], d)
  {
    hide Needs;
    assert forall x :: x in [e] + rest <==> x == e || x in rest;
  }

  lemma {:induction false} FoldersWithEntry(tree: Tree, e: Entry, d: string)
    requires RoomFor(tree, e)
    ensures IsFolder(WithEntry(tree, e), d) <==> IsFolder(tree, d) || d in Needs(e)
  {
    FolderIsLonger(Clean(e.name));
    hide Clean, Parents, Chain;
  }

  /** The folders of a whole tree are those it started with and those the entries need. */
  lemma {:induction false} FoldersOfWhole(entries: seq<Entry>, cap: nat, tree: Tree, total: nat, d: string)
    requires total <= cap && Unpack(entries, cap, tree, total).Whole?
    ensures IsFolder(Unpack(entries, cap, tree, total).tree, d) <==> IsFolder(tree, d) || Needed(entries, d)
  {
    hide *;
    if entries == [] {
      NothingMoreNeeded(tree, cap, total, d);
    } else {
      var e, rest := entries[0], entries[1..];
      UnpackOne(entries, cap, tree, total);
      FoldersWithEntry(tree, e, d);
      NeededOne(e, rest, d);
      assert entries == [e] + rest;
      if e.isDir {
        UnpackedFolder(entries, cap, tree, total);
        FoldersOfWhole(rest, cap, WithEntry(tree, e), total, d);
      } else {
        UnpackedFile(entries, cap, tree, total);
        FoldersOfWhole(rest, cap, WithEntry(tree, e), total + |e.data|, d);
      }
    }
  }

  lemma {:induction false} NothingMoreNeeded(tree: Tree, cap: nat, total: nat, d: string)
    requires total <= cap
    ensures Unpack([], cap, tree, total) == Whole(tree, total) && !Needed([], d)
  {
  }

  lemma {:induction false} OneEntry(e: Entry)
    ensures [e][1..] == [] && (forall x :: x in [e] <==> x == e) && [e] + [] == [e]
  {
  }

  lemma {:induction false} OneFile(name: string, data: string, cap: nat)
    requires IsClean(name)
    ensures var entries := [Entry(name, false, data, false)];
            && (IsUnpackable(entries, cap) <==> |data| < cap)
            && Published(entries) == map[name := data]
            && forall d :: Needed(entries, d) <==> Above(d, name)
  {
    var e := Entry(name, false, data, false);
    CleanFixesClean(name);
    OneEntry(e);
    hide Clean, IsClean, Needs;
    forall d ensures Needed([e], d) <==> Above(d, name) {
      NeedsAre(e, d);
      NeededOne(e, [], d);
    }
    assert Size([]) == 0 && Published([]) == map[];
  }

  /** An archive of one file, in folders it does not list: it unpacks exactly under a cap above the file's size, to
      that file and the folders above it. So does the vulnerability database's `index/db.json`. */
  lemma {:induction false} OneFileUnpacks(name: string, data: string, cap: nat)
    requires IsClean(name)
    ensures var r := Unpack([Entry(name, false, data, false)], cap, map[], 0);
            && (r.Whole? <==> |data| < cap)
            && (r.Whole? ==> Files(r.tree) == map[name := data] && forall d :: IsFolder(r.tree, d) <==> Above(d, name))
  {
    var entries := [Entry(name, false, data, false)];
    OneFile(name, data, cap);
    WholeExactly(entries, cap);
    var r := Unpack(entries, cap, map[], 0);
    if r.Whole? {
      WholeIsWhole(entries, cap, map[], 0);
      assert Files(map[]) == map[];
      forall d ensures IsFolder(r.tree, d) <==> Above(d, name) {
        FoldersOfWhole(entries, cap, map[], 0, d);
        assert !IsFolder(map[], d);
      }
      hide Unpack, Clean, IsClean, IsUnpackable, Needed, IsFolder, Files;
      assert map[] + Published(entries) == Published(entries);
    }
  }

  lemma {:induction false} IndexUnpacks(cap: nat)
    requires cap > 2
    ensures var r := Unpack([Entry("index/db.json", false, "{}", false)], cap, map[], 0);
            r.Whole? && r.tree == map["index" := Folder, "index/db.json" := File("{}")]
  {
    IndexIsClean();
    OneFileUnpacks("index/db.json", "{}", cap);
    var r := Unpack([Entry("index/db.json", false, "{}", false)], cap, map[], 0);
    hide Unpack, IsFolder, Files;
    forall d ensures Above(d, "index/db.json") <==> d == "index" { OnlyAboveIndex(d); }
    TreeOf(r.tree, "index", "index/db.json", "{}");
  }

  lemma {:induction false} TreeOf(tree: Tree, folder: string, file: string, data: string)
    requires forall d :: IsFolder(tree, d) <==> d == folder
    requires Files(tree) == map[file := data]
    ensures tree == map[folder := Folder, file := File(data)]
  {
    var files := Files(tree);
    assert file in files && files[file] == data;
    assert file in tree && tree[file] == File(data);
    assert IsFolder(tree, folder) && file != folder;
    forall p | p in tree ensures p == folder || p == file {
      if tree[p].File? { assert p in Files(tree); }
      if tree[p].Folder? { assert IsFolder(tree, p); }
    }
    assert tree == map[folder := Folder, file := File(data)];
  }

  lemma {:induction false} OnlyAboveIndex(d: string)
    ensures Above(d, "index/db.json") <==> d == "index"
  {
    var p := "index/db.json";
    assert forall i :: 0 <= i < |p| && p[i] == '/' ==> i == 5;
    if Above(d, p) { assert p[|d|] == '/'; }
    assert p[..6] == "index" + "/" && p[..5] == "index";
  }

  lemma {:induction false} IndexIsClean()
    ensures IsClean("index/db.json")
  {
    Text.SplitWhole("index", '/');
    Text.SplitWhole("db.json", '/');
    assert "index"[0] == 'i' && "db.json"[0] == 'd';
    OneOrdinarySegment("index");
    OneOrdinarySegment("db.json");
    CleanConcat("index", "db.json");
    assert "index" + "/" + "db.json" == "index/db.json";
  }

  lemma {:induction false} ParentsAreClean(p: string)
    requires IsClean(p)
    ensures forall d :: d in Parents(p) ==> IsClean(d)
  {
    forall d | d in Parents(p) ensures IsClean(d) {
      var i :| 0 <= i < |p| && p[i] == '/' && p[..i] == d;
      assert d + "/" == p[..i + 1];
      AboveClean(d, p);
    }
  }

  // ---- replacing ----

  /** What a removal that fails leaves behind. */
  datatype Removal = Removed | Leaves(kept: set<string>)

  function Left(tree: Option<Tree>, removal: Removal): Option<Tree> {
    match (tree, removal)
    case (Some(t), Leaves(kept)) => Some(map p | p in t && p in kept :: t[p])
    case _ => None
  }

  /** Which of the operations after unpacking fail: clearing a leftover, looking for the old copy, moving
      it aside, moving the new one in, moving the old one back, and clearing it. */
  datatype Faults = Faults(leftover: Removal, stat: bool, park: bool, place: bool, restore: bool, clear: Removal)

  /** The cached copy and the one moved aside. */
  datatype Place = Place(dest: Option<Tree>, aside: Option<Tree>)

  /** Every value the cache path takes, and what is left where in the end. */
  datatype Outcome = Outcome(seen: seq<Option<Tree>>, end: Place, ok: bool)

  /** A rename needs its source there and no directory at its target. */
  function Replaced(p: Place, fetched: Tree, f: Faults): Outcome {
    var aside := Left(p.aside, f.leftover);
    if p.dest.Some? && !f.stat && (aside.Some? || f.park) then Outcome([p.dest], Place(p.dest, aside), false)
    else
      var q := if p.dest.Some? && !f.stat then Place(None, p.dest) else Place(p.dest, aside);
      if q.dest.Some? || f.place then
        if q.dest.None? && q.aside.Some? && !f.restore
        then Outcome([p.dest, q.dest, q.aside], Place(q.aside, None), false)
        else Outcome([p.dest, q.dest], q, false)
      else
        var left := Left(q.aside, f.clear);
        Outcome([p.dest, q.dest, Some(fetched)], Place(Some(fetched), left), left.None?)
  }

  class Cache {
    var dest: Option<Tree>
    var aside: Option<Tree>
    /** The values the cache path has had. */
    ghost var seen: seq<Option<Tree>>

    constructor (dest: Option<Tree>, aside: Option<Tree>)
      ensures this.dest == dest && this.aside == aside && seen == [dest]
    {
      this.dest, this.aside, seen := dest, aside, [dest];
    }

    ghost predicate Valid()
      reads this
    {
      seen != [] && seen[|seen| - 1] == dest
    }

    /** Moving the cached copy aside, the new one in, and the old one away. */
    method Replace(tmp: Tree, f: Faults) returns (ok: bool)
      requires Valid()
      modifies this
      ensures Valid()
      ensures var o := Replaced(Place(old(dest), old(aside)), tmp, f);
              Place(dest, aside) == o.end && ok == o.ok && seen == old(seen)[..|old(seen)| - 1] + o.seen
    {
      hide Left;
      ghost var before := seen[..|seen| - 1];
      assert seen == before + [dest];
      aside := Left(aside, f.leftover);
      if dest.Some? && !f.stat {
        if aside.Some? || f.park {
          return false;
        }
        dest, aside := None, dest;
      }
      seen := before + [old(dest), dest];
      if dest.Some? || f.place {
        if dest.None? && aside.Some? && !f.restore {
          dest, aside := aside, None;
          seen := seen + [dest];
        } else {
          seen := before + [old(dest), dest];
        }
        return false;
      }
      dest := Some(tmp);
      seen := seen + [dest];
      aside := Left(aside, f.clear);
      return aside.None?;
    }

    /** `extractAtomic`, from what the archive lists; `None` is bytes that are no archive. */
    method ExtractAtomic(archive: Option<seq<Entry>>, cap: nat, check: Tree -> bool, f: Faults, tmpFails: bool)
      returns (ok: bool)
      requires Valid()
      modifies this
      ensures Valid()
      ensures var o := Attempt(Place(old(dest), old(aside)), archive, cap, check, f, tmpFails);
              Place(dest, aside) == o.end && ok == o.ok && seen == old(seen)[..|old(seen)| - 1] + o.seen
    {
      hide Replaced, Unpack;
      if archive.None? || tmpFails {
        return false;
      }
      var r := ExtractAll(archive.value, cap);
      if !r.Whole? || !check(r.tree) {
        return false;
      }
      ok := Replace(r.tree, f);
    }
  }

  /** The tree that may replace the cached one: whole, and passed by the check. */
  function Admitted(archive: Option<seq<Entry>>, cap: nat, check: Tree -> bool, tmpFails: bool): Option<Tree> {
    if archive.None? || tmpFails then None
    else match Unpack(archive.value, cap, map[], 0)
      case Whole(tree, _) => if check(tree) then Some(tree) else None
      case _ => None
  }

  /** What a whole extraction does to the cache path. */
  function Attempt(p: Place, archive: Option<seq<Entry>>, cap: nat, check: Tree -> bool, f: Faults,
          tmpFails: bool): Outcome
  {
    match Admitted(archive, cap, check, tmpFails)
    case None => Outcome([p.dest], p, false)
    case Some(tree) => Replaced(p, tree, f)
  }

  /** The tree admitted is the archive's own, entire and beneath its root. */
  lemma {:induction false} AdmittedIsPublished(archive: Option<seq<Entry>>, cap: nat, check: Tree -> bool,
          tmpFails: bool)
    ensures var t := Admitted(archive, cap, check, tmpFails);
            t.Some? ==>
              && archive.Some? && check(t.value)
              && Files(t.value) == Published(archive.value)
              && (Size(archive.value) < cap || Size(archive.value) == 0)
              && (forall p :: p in t.value ==> IsClean(p))
  {
    hide Unpack, Published, IsClean;
    if archive.Some? {
      WholeIsWhole(archive.value, cap, map[], 0);
      StaysBeneathRoot(archive.value, cap, map[], 0);
      assert map[] + Published(archive.value) == Published(archive.value);
      assert Files(map[]) == map[];
    }
  }

  /** The cache path is at every step absent, the whole previous tree, or the whole new one; except in
      exactly one case: nothing was cached, part of a copy an earlier run moved aside could not be
      cleared, the new tree could not be moved in, and that part was moved back in its stead. */
  lemma {:induction false} WholeAtEveryStep(p: Place, fetched: Tree, f: Faults)
    ensures var left := Left(p.aside, f.leftover);
            (forall d :: d in Replaced(p, fetched, f).seen ==> d in [None, p.dest, Some(fetched)]) <==>
            !(p.dest.None? && left.Some? && f.place && !f.restore && left.value != fetched)
  {
    hide Left;
    var left := Left(p.aside, f.leftover);
    var seen := Replaced(p, fetched, f).seen;
    if p.dest.None? && left.Some? && f.place && !f.restore {
      assert seen == [None, None, left];
      assert left in seen;
    }
  }

  /** Nothing a reader of the cache path can find there is half an archive, unless a half was already set
      aside, could not be cleared, and nothing was cached: what it finds was there before or is the
      published tree, complete, checked and beneath its root. */
  lemma {:induction false} NeverHalfUnpacked(p: Place, archive: Option<seq<Entry>>, cap: nat, check: Tree -> bool,
          f: Faults, tmpFails: bool, d: Option<Tree>)
    requires p.dest.Some? || Left(p.aside, f.leftover).None?
    requires d in Attempt(p, archive, cap, check, f, tmpFails).seen
    ensures || d.None? || d == p.dest
            || (archive.Some? && Files(d.value) == Published(archive.value) && check(d.value) &&
                forall q :: q in d.value ==> IsClean(q))
  {
    hide Admitted, Replaced, Left, Files, Published, IsClean;
    AdmittedIsPublished(archive, cap, check, tmpFails);
    var t := Admitted(archive, cap, check, tmpFails);
    if t.Some? { WholeAtEveryStep(p, t.value, f); }
  }

  /** With the leftover gone, whatever else fails: success is the new tree in place and nothing left aside,
      and failure leaves the previous tree, or the new one, or, when the new one could not be moved in nor
      the old one back, nothing but the old one aside. */
  lemma {:induction false} NothingIsLost(p: Place, fetched: Tree, f: Faults)
    requires Left(p.aside, f.leftover).None?
    ensures var o := Replaced(p, fetched, f);
            && (o.ok ==> o.end == Place(Some(fetched), None))
            && (!o.ok && p.dest.Some? ==>
                 o.end.dest == p.dest || o.end.dest == Some(fetched) || o.end == Place(None, p.dest))
            && (o.end.dest.None? && p.dest.Some? <==> p.dest.Some? && !f.stat && !f.park && f.place && f.restore)
  {
  }

  /** The case the replacement does not cover: part of an old copy becomes the cached one. */
  lemma {:induction false} PartialCopyCanReturn()
    ensures var half: Tree := map["index" := Folder];
            var whole := half["index/db.json" := File("{}")];
            var f := Faults(Leaves({"index"}), false, false, true, false, Removed);
            Replaced(Place(None, Some(whole)), whole, f).end.dest == Some(half) != Some(whole)
  {
    var half: Tree := map["index" := Folder];
    var whole := half["index/db.json" := File("{}")];
    assert "index/db.json" in whole && "index/db.json" !in half;
    assert Left(Some(whole), Leaves({"index"})).value == half;
  }

  // ---- fetching ----

  datatype Name = KEV | EPSS | GoVulnDB

  datatype FetchRecord = FetchRecord(url: string, fetchedAt: int, sum: string, bytes: nat)

  /** How bytes read: their digest, what they decompress to, the archive they are, and whether a tree is the
      database it should be. `cap` is the most bytes taken. */
  datatype World = World(
    digest: string -> string,
    expand: string -> Option<string>,
    archive: string -> Option<seq<Entry>>,
    check: Tree -> bool,
    cap: nat)

  /** What becomes of a write of the manifest, which is not made aside and renamed in: opening it empties it,
      what then cuts the write short leaves a file that does not read, and closing it may fail once all of it
      is written. */
  datatype Recording = Recorded | NotClosed | NotOpened | Torn

  /** What the server and the disk do while one feed is fetched; `body` is the response, or nothing for a
      failure or a status other than 200. */
  datatype Weather = Weather(body: Option<string>, faults: Faults, tmpFails: bool, writeFails: bool,
    recording: Recording, now: int)

  /** A stream cut at the cap, as a limited read leaves it: with no error. */
  function Capped(s: string, cap: nat): string { if |s| > cap then s[..cap] else s }

  const CISA := "https://www.cisa.gov/"
  const EMPIRICAL := "https://epss.empiricalsecurity.com/"
  const GO := "https://vuln.go.dev/"

  function Url(n: Name): string {
    match n
    case KEV => CISA + "sites/default/files/feeds/known_exploited_vulnerabilities.json"
    case EPSS => EMPIRICAL + "epss_scores-current.csv.gz"
    case GoVulnDB => GO + "vulndb.zip"
  }

  /** Each feed is fetched from its publisher. */
  lemma {:induction false} FromItsPublisher()
    ensures CISA <= Url(KEV) && EMPIRICAL <= Url(EPSS) && GO <= Url(GoVulnDB)
  {
  }

  /** The bytes a fetch stores or unpacks. */
  function Received(n: Name, x: World, w: Weather): Option<string> {
    if w.body.None? then None
    else
      var data := Capped(w.body.value, x.cap);
      if n.EPSS? then
        match x.expand(data)
        case Some(text) => Some(Capped(text, x.cap))
        case None => None
      else Some(data)
  }

  /** The cache as it stands on disk, an unreadable manifest being an empty one. */
  datatype Store = Store(blobs: map<Name, string>, place: Place, manifest: map<Name, FetchRecord>)

  predicate OnDisk(st: Store, n: Name) { if n.GoVulnDB? then st.place.dest.Some? else n in st.blobs }

  /** What the cache answers for: recorded, and on disk. */
  function Listed(st: Store): map<Name, FetchRecord> {
    map n | n in st.manifest && OnDisk(st, n) :: st.manifest[n]
  }

  /** The manifest after a record is merged into what is listed and written. */
  function AfterRecord(st: Store, n: Name, rec: FetchRecord, r: Recording): map<Name, FetchRecord> {
    match r
    case Recorded => Listed(st)[n := rec]
    case NotClosed => Listed(st)[n := rec]
    case NotOpened => st.manifest
    case Torn => map[]
  }

  function RecordOf(n: Name, data: string, x: World, now: int): FetchRecord {
    FetchRecord(Url(n), now, x.digest(data), |data|)
  }

  /** The cache once a feed's bytes are stored, or the attempt at it has failed. */
  function AfterData(st: Store, n: Name, data: string, x: World, w: Weather): (Store, bool) {
    if n.GoVulnDB? then
      var o := Attempt(st.place, x.archive(data), x.cap, x.check, w.faults, w.tmpFails);
      (st.(place := o.end), o.ok)
    else if w.writeFails then (st, false)
    else (st.(blobs := st.blobs[n := data]), true)
  }

  /** What a fetch leaves, and whether it succeeds. */
  function AfterFetch(st: Store, n: Name, x: World, w: Weather): (Store, bool) {
    var data := Received(n, x, w);
    if data.None? then (st, false)
    else
      var (there, stored) := AfterData(st, n, data.value, x, w);
      if !stored then (there, false)
      else
        var manifest := AfterRecord(there, n, RecordOf(n, data.value, x, w.now), w.recording);
        (there.(manifest := manifest), w.recording.Recorded?)
  }

  class FeedCache {
    var blobs: map<Name, string>
    const govuln: Cache
    var manifest: map<Name, FetchRecord>

    constructor (blobs: map<Name, string>, govuln: Cache, manifest: map<Name, FetchRecord>)
      ensures this.blobs == blobs && this.govuln == govuln && this.manifest == manifest
    {
      this.blobs, this.govuln, this.manifest := blobs, govuln, manifest;
    }

    function State(): Store
      reads this, govuln
    {
      Store(blobs, Place(govuln.dest, govuln.aside), manifest)
    }

    /** `Load`, dropping entries in whatever order the map gives them. */
    method Load() returns (out: map<Name, FetchRecord>)
      ensures out == Listed(State())
    {
      out := manifest;
      var left := manifest.Keys;
      while left != {}
        invariant left <= manifest.Keys && out.Keys <= manifest.Keys
        invariant forall n :: n in out ==> out[n] == manifest[n]
        invariant forall n :: n in manifest ==> (n in out <==> n in left || OnDisk(State(), n))
        decreases left
      {
        var n :| n in left;
        left := left - {n};
        if !OnDisk(State(), n) {
          out := out - {n};
        }
      }
    }

    /** `record`: one entry merged into what the manifest still lists. */
    method Record(n: Name, rec: FetchRecord, r: Recording) returns (ok: bool)
      modifies this`manifest
      ensures ok == r.Recorded? && manifest == AfterRecord(old(State()), n, rec, r)
    {
      var m := Load();
      match r {
        case Recorded =>
          manifest := m[n := rec];
        case NotClosed =>
          manifest := m[n := rec];
        case NotOpened =>
        case Torn =>
          manifest := map[];
      }
      return r.Recorded?;
    }

    /** `writeAtomic`: a file written whole elsewhere and renamed in. */
    method WriteAtomic(n: Name, data: string, fails: bool) returns (ok: bool)
      modifies this`blobs
      ensures ok == !fails && blobs == if fails then old(blobs) else old(blobs)[n := data]
    {
      if fails {
        return false;
      }
      blobs := blobs[n := data];
      return true;
    }

    /** `Fetch`. */
    method Fetch(n: Name, x: World, w: Weather) returns (ok: bool)
      requires govuln.Valid()
      modifies this, govuln
      ensures govuln.Valid()
      ensures (State(), ok) == AfterFetch(old(State()), n, x, w)
    {
      hide Received, Attempt, Url, AfterRecord, Listed;
      var received := Received(n, x, w);
      if received.None? {
        return false;
      }
      var data := received.value;
      if n.GoVulnDB? {
        ok := govuln.ExtractAtomic(x.archive(data), x.cap, x.check, w.faults, w.tmpFails);
      } else {
        ok := WriteAtomic(n, data, w.writeFails);
      }
      if ok {
        ok := Record(n, RecordOf(n, data, x, w.now), w.recording);
      }
    }
  }

  // ---- what a fetch keeps ----

  /** Two caches hold the same for a feed. */
  predicate SameContent(a: Store, b: Store, m: Name) {
    if m.GoVulnDB? then a.place.dest == b.place.dest
    else (m in a.blobs <==> m in b.blobs) && (m in a.blobs ==> a.blobs[m] == b.blobs[m])
  }

  lemma {:induction false} StoredIsThere(st: Store, n: Name, data: string, x: World, w: Weather)
    ensures var (there, stored) := AfterData(st, n, data, x, w);
            && there.manifest == st.manifest
            && (stored ==> OnDisk(there, n))
            && (stored && n.GoVulnDB? ==> Admitted(x.archive(data), x.cap, x.check, false) == there.place.dest)
            && (stored && !n.GoVulnDB? ==> there.blobs[n] == data)
            && (forall m :: m != n ==> SameContent(st, there, m) && OnDisk(there, m) == OnDisk(st, m))
  {
    hide Unpack, Left;
  }

  /** What a fetch leaves, told from what storing the bytes left. */
  lemma {:induction false} AfterFetchIs(st: Store, n: Name, x: World, w: Weather)
    requires Received(n, x, w).Some?
    ensures var data := Received(n, x, w).value;
            var (there, stored) := AfterData(st, n, data, x, w);
            var manifest := if stored then AfterRecord(there, n, RecordOf(n, data, x, w.now), w.recording)
              else there.manifest;
            AfterFetch(st, n, x, w) == (there.(manifest := manifest), stored && w.recording.Recorded?)
  {
    hide Received, AfterData, RecordOf, AfterRecord;
  }

  /** The fetch has stored its bytes and gone on to write the manifest. */
  predicate RecordingBegun(st: Store, n: Name, x: World, w: Weather) {
    var data := Received(n, x, w);
    data.Some? && AfterData(st, n, data.value, x, w).1
  }

  /** A fetch that succeeds is listed with the digest and the size of the bytes it stored; and so is one that
      fails only in closing the manifest it has written. */
  lemma {:induction false} SuccessIsListed(st: Store, n: Name, x: World, w: Weather)
    requires AfterFetch(st, n, x, w).1 || (RecordingBegun(st, n, x, w) && w.recording.NotClosed?)
    ensures var after := AfterFetch(st, n, x, w).0; var data := Received(n, x, w);
            data.Some? && n in Listed(after) && Listed(after)[n] == RecordOf(n, data.value, x, w.now)
  {
    hide Received, AfterData, RecordOf, AfterFetch, SameContent, OnDisk;
    if Received(n, x, w).None? {
      NothingReceived(st, n, x, w);
    } else {
      AfterFetchIs(st, n, x, w);
      StoredIsThere(st, n, Received(n, x, w).value, x, w);
      var there := AfterData(st, n, Received(n, x, w).value, x, w).0;
      SameOnDisk(AfterFetch(st, n, x, w).0, there, n);
    }
  }

  /** What becomes of the other feeds: all that were listed still are, with the same record, unless the write
      of the manifest is cut short, and then none is. A fetch that fails otherwise, and not in closing the
      manifest, leaves it as it was. */
  lemma {:induction false} OthersSurviveExactly(st: Store, n: Name, x: World, w: Weather)
    ensures var (after, ok) := AfterFetch(st, n, x, w);
            var torn := RecordingBegun(st, n, x, w) && w.recording.Torn?;
            && ((forall m :: m != n && m in Listed(st) ==> m in Listed(after) && Listed(after)[m] == Listed(st)[m]) <==>
                !torn || Listed(st).Keys <= {n})
            && (!ok && !torn && !(RecordingBegun(st, n, x, w) && w.recording.NotClosed?) ==>
                  after.manifest == st.manifest)
            && (torn ==> after.manifest == map[] && Listed(after) == map[])
  {
    hide Received, AfterData, RecordOf, AfterFetch, SameContent, OnDisk;
    var received := Received(n, x, w);
    if received.None? {
      NothingReceived(st, n, x, w);
    } else {
      AfterFetchIs(st, n, x, w);
      StoredIsThere(st, n, received.value, x, w);
      var (there, stored) := AfterData(st, n, received.value, x, w);
      var after := AfterFetch(st, n, x, w).0;
      assert after.blobs == there.blobs && after.place == there.place;
      forall m ensures OnDisk(after, m) == OnDisk(there, m) {
        SameOnDisk(after, there, m);
      }
      if stored && w.recording.Torn? && !(Listed(st).Keys <= {n}) {
        var m :| m in Listed(st) && m != n;
        assert m !in Listed(after);
      }
    }
  }

  lemma {:induction false} NothingReceived(st: Store, n: Name, x: World, w: Weather)
    requires Received(n, x, w).None?
    ensures AfterFetch(st, n, x, w) == (st, false)
  {
  }

  lemma {:induction false} SameOnDisk(a: Store, b: Store, m: Name)
    requires a.blobs == b.blobs && a.place == b.place
    ensures OnDisk(a, m) == OnDisk(b, m) && SameContent(a, b, m) && SameContent(b, a, m)
  {
  }

  /** Such a loss: fetching one feed on a disk that fills up drops another that is still there. */
  lemma {:induction false} TornRecordDropsOthers(x: World)
    requires x.cap > 0 && x.expand("a") == Some("b")
    ensures var rec := RecordOf(KEV, "k", x, 0);
            var st := Store(map[KEV := "k"], Place(None, None), map[KEV := rec]);
            var w := Weather(Some("a"), Faults(Removed, false, false, false, false, Removed), false, false, Torn, 1);
            var after := AfterFetch(st, EPSS, x, w).0;
            KEV in Listed(st) && KEV !in Listed(after) && OnDisk(after, KEV)
  {
  }

  // ---- what a record says ----

  /** A record describes what is on disk for its feed: the bytes, or for a zipped feed the tree they unpack
      to. */
  ghost predicate Describes(rec: FetchRecord, n: Name, st: Store, x: World) {
    if n.GoVulnDB? then
      st.place.dest.Some? &&
      exists data ::
        x.digest(data) == rec.sum && |data| == rec.bytes &&
        Admitted(x.archive(data), x.cap, x.check, false) == st.place.dest
    else n in st.blobs && x.digest(st.blobs[n]) == rec.sum && |st.blobs[n]| == rec.bytes
  }

  ghost predicate AllDescribed(st: Store, x: World) {
    forall n :: n in Listed(st) ==> Describes(Listed(st)[n], n, st, x)
  }

  /** The feed's content was replaced, the manifest could not be opened or was not reached, and an older
      record stands over content it does not describe. */
  ghost predicate LeftStale(st: Store, n: Name, x: World, w: Weather) {
    var data := Received(n, x, w);
    && data.Some? && n in st.manifest
    && var (there, stored) := AfterData(st, n, data.value, x, w);
       && (stored ==> w.recording.NotOpened?) && there != st
       && OnDisk(there, n) && !Describes(st.manifest[n], n, there, x)
  }

  lemma {:induction false} SameDescribed(rec: FetchRecord, m: Name, a: Store, b: Store, x: World)
    requires SameContent(a, b, m)
    ensures OnDisk(a, m) == OnDisk(b, m) && (Describes(rec, m, a, x) <==> Describes(rec, m, b, x))
  {
    hide Admitted;
  }

  lemma {:induction false} FreshRecordDescribes(st: Store, n: Name, data: string, x: World, w: Weather)
    requires AfterData(st, n, data, x, w).1
    ensures Describes(RecordOf(n, data, x, w.now), n, AfterData(st, n, data, x, w).0, x)
  {
    StoredIsThere(st, n, data, x, w);
    hide AfterData, Admitted;
  }

  /** Every listed record goes on describing what is on disk after a fetch exactly unless the fetch's own record
      is left stale; what that takes is told below for each kind of feed. */
  lemma {:induction false} RecordsDescribeExactly(st: Store, n: Name, x: World, w: Weather)
    requires AllDescribed(st, x)
    ensures AllDescribed(AfterFetch(st, n, x, w).0, x) <==> !LeftStale(st, n, x, w)
  {
    hide Received, AfterData, RecordOf, AfterFetch, AfterRecord, Describes, AllDescribed, SameContent, OnDisk;
    var received := Received(n, x, w);
    if received.None? {
      NothingReceived(st, n, x, w);
    } else {
      var data := received.value;
      AfterFetchIs(st, n, x, w);
      StoredIsThere(st, n, data, x, w);
      var (there, stored) := AfterData(st, n, data, x, w);
      var after := AfterFetch(st, n, x, w).0;
      if stored { FreshRecordDescribes(st, n, data, x, w); }
      forall m, rec | m != n ensures Describes(rec, m, there, x) <==> Describes(rec, m, st, x) {
        assert SameContent(st, there, m);
        SameDescribed(rec, m, st, there, x);
      }
      forall m, rec ensures Describes(rec, m, after, x) <==> Describes(rec, m, there, x) {
        SameOnDisk(after, there, m);
        SameDescribed(rec, m, after, there, x);
      }
      DescribedAfter(st, n, there, stored, RecordOf(n, data, x, w.now), after, x, w);
    }
  }

  lemma {:induction false} DescribedAfter(st: Store, n: Name, there: Store, stored: bool, rec: FetchRecord,
          after: Store, x: World, w: Weather)
    requires AllDescribed(st, x) && there.manifest == st.manifest && (stored ==> OnDisk(there, n))
    requires after == there.(manifest := if stored then AfterRecord(there, n, rec, w.recording) else there.manifest)
    requires forall m, r :: m != n ==> (Describes(r, m, there, x) <==> Describes(r, m, st, x))
    requires forall m :: m != n ==> OnDisk(there, m) == OnDisk(st, m)
    requires forall m, r :: Describes(r, m, after, x) <==> Describes(r, m, there, x)
    requires stored ==> Describes(rec, n, there, x)
    ensures AllDescribed(after, x) <==>
            !(n in st.manifest && (stored ==> w.recording.NotOpened?) && there != st && OnDisk(there, n) &&
              !Describes(st.manifest[n], n, there, x))
  {
    hide Describes, OnDisk;
    forall m ensures OnDisk(after, m) == OnDisk(there, m) {
      SameOnDisk(after, there, m);
    }
    forall m | m in Listed(after) && m != n ensures Describes(Listed(after)[m], m, after, x) {
      assert m in Listed(st) && Listed(st)[m] == Listed(after)[m];
    }
    if stored && (w.recording.Recorded? || w.recording.NotClosed?) {
      assert after.manifest[n] == rec;
    } else if there != st {
      assert n in Listed(after) <==> n in after.manifest && OnDisk(there, n);
    }
  }

  lemma {:induction false} ListedIsDescribed(st: Store, n: Name, x: World)
    requires AllDescribed(st, x) && n in Listed(st)
    ensures Describes(st.manifest[n], n, st, x)
  {
  }

  /** For a feed kept as bytes that is so exactly unless other bytes than those recorded were stored and the
      manifest could not be opened. */
  lemma {:induction false} PlainRecordsDescribeExactly(st: Store, n: Name, x: World, w: Weather)
    requires AllDescribed(st, x) && !n.GoVulnDB?
    ensures var data := Received(n, x, w);
            AllDescribed(AfterFetch(st, n, x, w).0, x) <==>
            !(data.Some? && !w.writeFails && w.recording.NotOpened? && n in st.manifest &&
              (x.digest(data.value) != st.manifest[n].sum || |data.value| != st.manifest[n].bytes))
  {
    RecordsDescribeExactly(st, n, x, w);
    hide AfterFetch, Received, AllDescribed, Admitted;
    var data := Received(n, x, w);
    if data.Some? && !w.writeFails && n in st.manifest {
      var there := st.(blobs := st.blobs[n := data.value]);
      assert AfterData(st, n, data.value, x, w) == (there, true);
      if there == st {
        assert there.blobs[n] == data.value;
        assert n in Listed(st);
        ListedIsDescribed(st, n, x);
      }
    }
  }

  /** A record's digest and size are those of these bytes and no others. */
  ghost predicate OnlySource(rec: FetchRecord, data: string, x: World) {
    forall d :: x.digest(d) == rec.sum && |d| == rec.bytes <==> d == data
  }

  /** The new tree is moved in: nothing stands in its way, or what does is moved aside. */
  predicate MovedIn(p: Place, f: Faults) {
    !f.place && (p.dest.None? || (!f.stat && !f.park && Left(p.aside, f.leftover).None?))
  }

  /** The removal that ends the move fails: of the old copy, or of the leftover where there was none. */
  predicate ClearingFails(p: Place, f: Faults) {
    Left(if p.dest.Some? then p.dest else Left(p.aside, f.leftover), f.clear).Some?
  }

  /** What remains of a leftover is moved in for want of a copy and of the new tree. */
  predicate LeftoverReturns(p: Place, f: Faults) {
    p.dest.None? && Left(p.aside, f.leftover).Some? && f.place && !f.restore
  }

  /** Where the cache path holds another tree after an attempt, and when the attempt still succeeds. */
  lemma {:induction false} AttemptEnds(p: Place, t: Tree, f: Faults)
    ensures var o := Replaced(p, t, f);
            && o.ok == (MovedIn(p, f) && !ClearingFails(p, f))
            && (if MovedIn(p, f) then o.end.dest == Some(t)
                else if LeftoverReturns(p, f) then o.end.dest == Left(p.aside, f.leftover)
                else o.end.dest == p.dest || o.end.dest == None)
  {
    hide Left;
    assert Left(None, f.clear) == None by { NothingLeft(f.clear); }
  }

  lemma {:induction false} NothingLeft(r: Removal)
    ensures Left(None, r) == None
  {
  }

  /** For the feed kept as a tree, recorded from bytes that its digest and size name, every record goes on
      describing what is on disk exactly unless another tree than those bytes unpack to is moved in and the old
      copy cannot be cleared or the manifest not opened, or what remains of a leftover is moved in instead. */
  lemma {:induction false} ZippedRecordsDescribeExactly(st: Store, x: World, w: Weather, recorded: string)
    requires AllDescribed(st, x)
    requires GoVulnDB in st.manifest ==> OnlySource(st.manifest[GoVulnDB], recorded, x)
    ensures var data := Received(GoVulnDB, x, w);
            var was := Admitted(x.archive(recorded), x.cap, x.check, false);
            AllDescribed(AfterFetch(st, GoVulnDB, x, w).0, x) <==>
            !(GoVulnDB in st.manifest && data.Some? &&
              var t := Admitted(x.archive(data.value), x.cap, x.check, w.tmpFails);
              t.Some? &&
              if MovedIn(st.place, w.faults)
              then t != was && (ClearingFails(st.place, w.faults) || w.recording.NotOpened?)
              else LeftoverReturns(st.place, w.faults) && Left(st.place.aside, w.faults.leftover) != was)
  {
    RecordsDescribeExactly(st, GoVulnDB, x, w);
    hide AfterFetch, Received, AllDescribed, Admitted, Left, Replaced, MovedIn, ClearingFails, LeftoverReturns;
    var data := Received(GoVulnDB, x, w);
    if data.Some? && GoVulnDB in st.manifest {
      var rec := st.manifest[GoVulnDB];
      var there := AfterData(st, GoVulnDB, data.value, x, w).0;
      if GoVulnDB in Listed(st) {
        ListedIsDescribed(st, GoVulnDB, x);
        DescribesTree(st, rec, recorded, x);
      }
      DescribesTree(there, rec, recorded, x);
      var t := Admitted(x.archive(data.value), x.cap, x.check, w.tmpFails);
      if t.Some? { AttemptEnds(st.place, t.value, w.faults); }
    }
  }

  lemma {:induction false} DescribesTree(st: Store, rec: FetchRecord, data: string, x: World)
    requires OnlySource(rec, data, x)
    ensures Describes(rec, GoVulnDB, st, x) <==>
            st.place.dest.Some? && Admitted(x.archive(data), x.cap, x.check, false) == st.place.dest
  {
    hide Admitted;
  }

  /** A feed replaced whose record still speaks of what it held before. */
  lemma {:induction false} StaleRecord(x: World)
    requires x.cap > 0 && x.digest("a") != x.digest("b")
    ensures var st := Store(map[KEV := "a"], Place(None, None), map[KEV := RecordOf(KEV, "a", x, 0)]);
            var w := Weather(Some("b"), Faults(Removed, false, false, false, false, Removed), false, false,
                             NotOpened, 1);
            AllDescribed(st, x) && !AllDescribed(AfterFetch(st, KEV, x, w).0, x)
  {
    var st := Store(map[KEV := "a"], Place(None, None), map[KEV := RecordOf(KEV, "a", x, 0)]);
    var w := Weather(Some("b"), Faults(Removed, false, false, false, false, Removed), false, false, NotOpened, 1);
    var after := AfterFetch(st, KEV, x, w).0;
    assert KEV in Listed(after) && after.blobs[KEV] == "b";
  }

  /** A world of two archives: `a`, which is empty, and `b`, which holds a folder. */
  const TWO_ARCHIVES := World(
    d => d,
    d => None,
    d => if d == "a" then Some([]) else if d == "b" then Some([Entry("d", true, "", false)]) else None,
    t => true,
    10)

  /** A cache of the first, recorded. */
  const HOLDS_A := Store(map[], Place(Some(map[]), None), map[GoVulnDB := RecordOf(GoVulnDB, "a", TWO_ARCHIVES, 0)])

  /** The second is fetched, and what the first left cannot be cleared. */
  const CANNOT_CLEAR :=
    Weather(Some("b"), Faults(Removed, false, false, false, false, Leaves({})), false, false, Recorded, 1)

  /** A tree replaced whose old copy cannot be cleared: the fetch stops before it records, and the record still
      speaks of the tree that was there before. */
  lemma {:induction false} StaleTree()
    ensures var (after, ok) := AfterFetch(HOLDS_A, GoVulnDB, TWO_ARCHIVES, CANNOT_CLEAR);
            && AllDescribed(HOLDS_A, TWO_ARCHIVES) && !ok
            && after.place.dest == Some(map["d" := Folder]) && !AllDescribed(after, TWO_ARCHIVES)
  {
    FirstIsDescribed();
    SecondIsMovedIn();
    NamedByItself();
    assert Received(GoVulnDB, TWO_ARCHIVES, CANNOT_CLEAR) == Some("b");
    TwoTrees();
    hide AfterFetch, AllDescribed, Admitted, Received, OnlySource;
    assert MovedIn(HOLDS_A.place, CANNOT_CLEAR.faults) && ClearingFails(HOLDS_A.place, CANNOT_CLEAR.faults);
    ZippedRecordsDescribeExactly(HOLDS_A, TWO_ARCHIVES, CANNOT_CLEAR, "a");
    assert "d" in map["d" := Folder];
  }

  lemma {:induction false} NamedByItself()
    ensures GoVulnDB in HOLDS_A.manifest && OnlySource(HOLDS_A.manifest[GoVulnDB], "a", TWO_ARCHIVES)
  {
  }

  lemma {:induction false} FirstIsDescribed()
    ensures AllDescribed(HOLDS_A, TWO_ARCHIVES)
  {
    TwoTrees();
    NamedByItself();
    hide Admitted, OnlySource;
    DescribesTree(HOLDS_A, HOLDS_A.manifest[GoVulnDB], "a", TWO_ARCHIVES);
    hide Describes;
    assert HOLDS_A.manifest.Keys == {GoVulnDB};
  }

  lemma {:induction false} SecondIsMovedIn()
    ensures var (after, ok) := AfterFetch(HOLDS_A, GoVulnDB, TWO_ARCHIVES, CANNOT_CLEAR);
            !ok && after.place.dest == Some(map["d" := Folder])
  {
    TwoTrees();
    hide Unpack, Admitted;
    assert Received(GoVulnDB, TWO_ARCHIVES, CANNOT_CLEAR) == Some("b");
    var t: Tree := map["d" := Folder];
    assert Replaced(HOLDS_A.place, t, CANNOT_CLEAR.faults) ==
      Outcome([Some(map[]), None, Some(t)], Place(Some(t), Some(map[])), false);
  }

  lemma {:induction false} TwoTrees()
    ensures var x := TWO_ARCHIVES;
            && Admitted(x.archive("a"), x.cap, x.check, false) == Some(map[])
            && Admitted(x.archive("b"), x.cap, x.check, false) == Some(map["d" := Folder])
  {
    var e := Entry("d", true, "", false);
    assert "d"[0] == 'd' && "."[0] == '.' && '/' !in "d";
    Text.SplitWhole("d", '/');
    OneOrdinarySegment("d");
    CleanFixesClean("d");
    assert Chain("d") == {"d"} by { assert Parents("d") == {}; }
    assert WithFolders(map[], {"d"}) == map["d" := Folder];
    assert [e][1..] == [];
    assert Unpack([], 10, map["d" := Folder], 0) == Whole(map["d" := Folder], 0);
    hide Clean;
    assert Unpack([e], 10, map[], 0) == Whole(map["d" := Folder], 0);
  }

  // ---- what a cap cuts ----

  lemma {:induction false} StoredBlob(st: Store, n: Name, x: World, w: Weather)
    requires !n.GoVulnDB?
    ensures var (after, ok) := AfterFetch(st, n, x, w); var data := Received(n, x, w);
            && (ok <==> data.Some? && !w.writeFails && w.recording.Recorded?)
            && (ok ==> n in after.blobs && after.blobs[n] == data.value)
  {
    hide Received, RecordOf, AfterRecord;
  }

  /** A fetch of the plain feed that succeeds holds the published bytes exactly when they fit the cap: a longer
      feed is cut and the fetch succeeds all the same. So too what a compressed feed that was not itself cut
      expands to. */
  lemma {:induction false} LongFeedIsCut(st: Store, x: World, w: Weather)
    requires w.body.Some?
    ensures AfterFetch(st, KEV, x, w).1 <==> !w.writeFails && w.recording.Recorded?
    ensures var (after, ok) := AfterFetch(st, KEV, x, w);
            ok ==> KEV in after.blobs && (after.blobs[KEV] == w.body.value <==> |w.body.value| <= x.cap)
    ensures var (after, ok) := AfterFetch(st, EPSS, x, w);
            ok && |w.body.value| <= x.cap ==>
              && EPSS in after.blobs && x.expand(w.body.value).Some?
              && (after.blobs[EPSS] == x.expand(w.body.value).value <==> |x.expand(w.body.value).value| <= x.cap)
  {
    StoredBlob(st, KEV, x, w);
    StoredBlob(st, EPSS, x, w);
    ReceivedBytes(x, w);
    hide AfterFetch, Received;
    CappedIsWhole(w.body.value, x.cap);
    if |w.body.value| <= x.cap && x.expand(w.body.value).Some? { CappedIsWhole(x.expand(w.body.value).value, x.cap); }
  }

  lemma {:induction false} CappedIsWhole(s: string, cap: nat)
    ensures Capped(s, cap) == s <==> |s| <= cap
  {
  }

  lemma {:induction false} ReceivedBytes(x: World, w: Weather)
    requires w.body.Some?
    ensures Received(KEV, x, w) == Some(Capped(w.body.value, x.cap))
    ensures |w.body.value| <= x.cap ==>
              Received(EPSS, x, w) ==
                if x.expand(w.body.value).Some? then Some(Capped(x.expand(w.body.value).value, x.cap)) else None
  {
  }
}

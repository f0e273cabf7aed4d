/** Making a shared checkout read-only and writable again: a walk that changes modes, deepest first, and
    never follows a symbolic link. */
module Freeze {
  import opened Common

  /** A tree on disk. */
  datatype Tree =
    | Regular
    | Symlink
    | Directory(items: seq<Item>)

  datatype Item = Item(name: string, tree: Tree)

  /** What a walk meets at a path. A folder that cannot be read hides what it holds, and one that cannot be
      searched lets none of it be changed. */
  datatype Node =
    | File
    | Link
    | Folder(read: bool, search: bool, entries: seq<Entry>)

  datatype Entry = Entry(name: string, node: Node)

  /** A path is its segments. */
  type Path = seq<string>

  datatype Visit = Visit(path: Path, isDir: bool)

  type Modes = map<Path, nat>

  const FROZEN_DIR := 0x16D   // 0o555
  const FROZEN_FILE := 0x124  // 0o444
  const THAWED_DIR := 0x1ED   // 0o755
  const THAWED_FILE := 0x1A4  // 0o644

  /** The visits of `filepathWalk` that change a mode. A subfolder is visited by its own walk and again by its
      parent's. */
  function Walk(dir: Path, node: Node): seq<Visit>
    decreases node, 1
  {
    if node.Folder? && node.read
    then (if node.search then WalkEntries(dir, node, |node.entries|) else []) + [Visit(dir, true)]
    else []
  }

  function WalkEntries(dir: Path, node: Node, n: nat): seq<Visit>
    requires node.Folder? && n <= |node.entries|
    decreases node, 0, n
  {
    if n == 0 then [] else WalkEntries(dir, node, n - 1) + WalkEntry(dir, node.entries[n - 1])
  }

  function WalkEntry(dir: Path, e: Entry): seq<Visit>
    decreases e
  {
    var path := dir + [e.name];
    match e.node
    case File => [Visit(path, false)]
    case Link => []
    case Folder(_, _, _) => Walk(path, e.node) + [Visit(path, true)]
  }

  function Changed(modes: Modes, v: Visit, dirMode: nat, fileMode: nat): Modes {
    modes[v.path := if v.isDir then dirMode else fileMode]
  }

  function Apply(modes: Modes, visits: seq<Visit>, dirMode: nat, fileMode: nat): Modes {
    if visits == [] then modes
    else Changed(Apply(modes, visits[..|visits| - 1], dirMode, fileMode), visits[|visits| - 1], dirMode, fileMode)
  }

  lemma {:induction false} ApplyConcat(modes: Modes, a: seq<Visit>, b: seq<Visit>, dirMode: nat, fileMode: nat)
    ensures Apply(modes, a + b, dirMode, fileMode) == Apply(Apply(modes, a, dirMode, fileMode), b, dirMode, fileMode)
  {
    if b == [] {
      assert a + b == a;
    } else {
      assert (a + b)[..|a + b| - 1] == a + b[..|b| - 1];
      ApplyConcat(modes, a, b[..|b| - 1], dirMode, fileMode);
    }
  }

  // ---- what can be listed ----

  /** The owner may list the folder's names, and may reach what it holds. */
  predicate CanRead(modes: Modes, p: Path) { p in modes && modes[p] / 256 % 2 == 1 }

  predicate CanSearch(modes: Modes, p: Path) { p in modes && modes[p] / 64 % 2 == 1 }

  /** The bits meant: of a mode's three octal digits the first holds the owner's, 4 to read and 1 to search. */
  lemma {:induction false} OwnerBits(modes: Modes, p: Path, owner: nat, group: nat, other: nat)
    requires owner < 8 && group < 8 && other < 8
    requires p in modes && modes[p] == owner * 64 + group * 8 + other
    ensures CanRead(modes, p) <==> owner in {4, 5, 6, 7}
    ensures CanSearch(modes, p) <==> owner in {1, 3, 5, 7}
  {
    var low := group * 8 + other;
    assert low < 64;
    assert modes[p] / 64 == owner;
    assert modes[p] / 256 == owner / 4;
  }

  predicate CanList(modes: Modes, p: Path) { CanRead(modes, p) && CanSearch(modes, p) }

  /** A tree as a walk under these modes meets it. */
  function Seen(tree: Tree, dir: Path, modes: Modes): Node {
    match tree
    case Regular => File
    case Symlink => Link
    case Directory(items) =>
      Folder(CanRead(modes, dir), CanSearch(modes, dir),
             seq(|items|, i requires 0 <= i < |items| =>
               Entry(items[i].name, Seen(items[i].tree, dir + [items[i].name], modes))))
  }

  /** No directory holds two items of one name. */
  predicate WellNamed(tree: Tree) {
    tree.Directory? ==>
      && (forall i, j :: 0 <= i < j < |tree.items| ==> tree.items[i].name != tree.items[j].name)
      && (forall i :: 0 <= i < |tree.items| ==> WellNamed(tree.items[i].tree))
  }

  lemma {:induction false} SeenIsNamed(tree: Tree, dir: Path, modes: Modes)
    requires WellNamed(tree)
    ensures Named(Seen(tree, dir, modes))
  {
    if tree.Directory? {
      var seen := Seen(tree, dir, modes);
      forall i | 0 <= i < |seen.entries| ensures Named(seen.entries[i].node) {
        SeenIsNamed(tree.items[i].tree, dir + [tree.items[i].name], modes);
      }
    }
  }

  /** Two sets of modes agree from a path down. */
  ghost predicate AgreeBelow(a: Modes, b: Modes, dir: Path) {
    forall p :: dir <= p ==> (p in a <==> p in b) && (p in a ==> a[p] == b[p])
  }

  lemma {:induction false} AgreeDeeper(a: Modes, b: Modes, dir: Path, name: string)
    requires AgreeBelow(a, b, dir)
    ensures AgreeBelow(a, b, dir + [name])
  {
    forall p | dir + [name] <= p ensures (p in a <==> p in b) && (p in a ==> a[p] == b[p]) {
      assert dir <= p;
    }
  }

  lemma {:induction false} SeenAlike(tree: Tree, dir: Path, a: Modes, b: Modes)
    requires AgreeBelow(a, b, dir)
    ensures Seen(tree, dir, a) == Seen(tree, dir, b)
  {
    if tree.Directory? {
      forall i | 0 <= i < |tree.items|
        ensures Seen(tree.items[i].tree, dir + [tree.items[i].name], a) ==
          Seen(tree.items[i].tree, dir + [tree.items[i].name], b)
      {
        AgreeDeeper(a, b, dir, tree.items[i].name);
        SeenAlike(tree.items[i].tree, dir + [tree.items[i].name], a, b);
      }
    }
  }

  // ---- the walk in place ----

  /** The modes of a file system, changed in place. */
  class FileSystem {
    var modes: Modes

    constructor (modes: Modes)
      ensures this.modes == modes
    {
      this.modes := modes;
    }

    method Chmod(path: Path, isDir: bool, dirMode: nat, fileMode: nat)
      modifies this
      ensures modes == Changed(old(modes), Visit(path, isDir), dirMode, fileMode)
    {
      modes := modes[path := if isDir then dirMode else fileMode];
    }

    /** `chmodTree` by `filepathWalk`: a folder is read, if its mode then allows, before anything in it
        changes, and nothing in it does unless the folder can be searched. */
    method ChmodTree(dir: Path, tree: Tree, dirMode: nat, fileMode: nat)
      requires WellNamed(tree)
      modifies this
      ensures modes == Apply(old(modes), Walk(dir, Seen(tree, dir, old(modes))), dirMode, fileMode)
      decreases tree
    {
      hide Apply, WalkEntries, WalkEntry, Seen;
      ghost var before := modes;
      ghost var seen := Seen(tree, dir, before);
      WalkSeen(tree, dir, before);
      if !tree.Directory? || !CanRead(modes, dir) {
        return;
      }
      SeenIsNamed(tree, dir, before);
      if CanSearch(modes, dir) {
        for i := 0 to |tree.items|
          invariant modes == Apply(before, WalkEntries(dir, seen, i), dirMode, fileMode)
        {
          var item := tree.items[i];
          NotYetVisited(dir, seen, i, before, dirMode, fileMode);
          SeenAlike(item.tree, dir + [item.name], modes, before);
          ApplyConcat(before, WalkEntries(dir, seen, i), WalkEntry(dir, seen.entries[i]), dirMode, fileMode);
          ChmodItem(dir, item, dirMode, fileMode);
        }
      }
      ApplyOne(before, WithinVisits(dir, seen), Visit(dir, true), dirMode, fileMode);
      Chmod(dir, true, dirMode, fileMode);
    }

    /** One entry of a folder. */
    method ChmodItem(dir: Path, item: Item, dirMode: nat, fileMode: nat)
      requires WellNamed(item.tree)
      modifies this
      ensures var e := Entry(item.name, Seen(item.tree, dir + [item.name], old(modes)));
              modes == Apply(old(modes), WalkEntry(dir, e), dirMode, fileMode)
      decreases item
    {
      hide Apply;
      ghost var before := modes;
      var path := dir + [item.name];
      ghost var node := Seen(item.tree, path, before);
      match item.tree {
        case Symlink =>
          ApplyNone(before, dirMode, fileMode);
        case Directory(_) =>
          ChmodTree(path, item.tree, dirMode, fileMode);
          ApplyOne(before, Walk(path, node), Visit(path, true), dirMode, fileMode);
          Chmod(path, true, dirMode, fileMode);
        case Regular =>
          ApplyNone(before, dirMode, fileMode);
          ApplyOne(before, [], Visit(path, false), dirMode, fileMode);
          assert [] + [Visit(path, false)] == [Visit(path, false)];
          Chmod(path, false, dirMode, fileMode);
      }
    }

    /** `freeze`. */
    method Freeze(dir: Path, tree: Tree)
      requires WellNamed(tree)
      modifies this
      ensures modes == Frozen(dir, tree, old(modes))
    {
      ChmodTree(dir, tree, FROZEN_DIR, FROZEN_FILE);
    }

    /** `thaw`. */
    method Thaw(dir: Path, tree: Tree)
      requires WellNamed(tree)
      modifies this
      ensures modes == Thawed(dir, tree, old(modes))
    {
      ChmodTree(dir, tree, THAWED_DIR, THAWED_FILE);
    }

    /** A checkout shared and then closed: whatever its modes were, everything the freeze reached can be
        removed. */
    method ShareThenClose(dir: Path, tree: Tree)
      requires WellNamed(tree) && tree.Directory?
      modifies this
      ensures modes == Thawed(dir, tree, Frozen(dir, tree, old(modes)))
      ensures forall p :: Reaches(dir, tree, old(modes), p, true) ==> p in modes && modes[p] == THAWED_DIR
      ensures forall p :: Reaches(dir, tree, old(modes), p, false) ==> p in modes && modes[p] == THAWED_FILE
    {
      ghost var before := modes;
      Freeze(dir, tree);
      Thaw(dir, tree);
      hide Reaches, Frozen, Thawed;
      forall p, isDir | Reaches(dir, tree, before, p, isDir)
        ensures p in modes && modes[p] == if isDir then THAWED_DIR else THAWED_FILE
      {
        FrozenReachesMore(dir, tree, before, p, isDir);
        ThawSets(dir, tree, Frozen(dir, tree, before), p);
      }
    }
  }

  lemma {:induction false} ApplyNone(modes: Modes, dirMode: nat, fileMode: nat)
    ensures Apply(modes, [], dirMode, fileMode) == modes
  {
  }

  lemma {:induction false} ApplyOne(modes: Modes, visits: seq<Visit>, v: Visit, dirMode: nat, fileMode: nat)
    ensures Apply(modes, visits + [v], dirMode, fileMode) ==
      Changed(Apply(modes, visits, dirMode, fileMode), v, dirMode, fileMode)
  {
    assert (visits + [v])[..|visits|] == visits;
  }

  /** The visits of what a folder holds. */
  function WithinVisits(dir: Path, node: Node): seq<Visit>
    requires node.Folder?
  {
    if node.search then WalkEntries(dir, node, |node.entries|) else []
  }

  /** The walk of a tree as it is seen. */
  lemma {:induction false} WalkSeen(tree: Tree, dir: Path, modes: Modes)
    ensures var seen := Seen(tree, dir, modes);
            if tree.Directory? && CanRead(modes, dir) then
              && seen.Folder? && seen.read && seen.search == CanSearch(modes, dir) && |seen.entries| == |tree.items|
              && (forall i :: 0 <= i < |tree.items| ==>
                    seen.entries[i] ==
                      Entry(tree.items[i].name, Seen(tree.items[i].tree, dir + [tree.items[i].name], modes)))
              && (forall i :: 0 <= i < |tree.items| ==>
                   WalkEntries(dir, seen, i + 1) == WalkEntries(dir, seen, i) + WalkEntry(dir, seen.entries[i]))
              && WalkEntries(dir, seen, 0) == []
              && WithinVisits(dir, seen) == (if seen.search then WalkEntries(dir, seen, |tree.items|) else [])
              && Walk(dir, seen) == WithinVisits(dir, seen) + [Visit(dir, true)]
            else Walk(dir, seen) == []
    ensures forall dirMode, fileMode :: Apply(modes, [], dirMode, fileMode) == modes
  {
    hide WalkEntry;
  }

  /** What a freeze leaves, and a thaw. */
  function Frozen(dir: Path, tree: Tree, modes: Modes): Modes {
    Apply(modes, Walk(dir, Seen(tree, dir, modes)), FROZEN_DIR, FROZEN_FILE)
  }

  function Thawed(dir: Path, tree: Tree, modes: Modes): Modes {
    Apply(modes, Walk(dir, Seen(tree, dir, modes)), THAWED_DIR, THAWED_FILE)
  }

  lemma {:induction false} Unvisited(modes: Modes, visits: seq<Visit>, dirMode: nat, fileMode: nat, p: Path)
    requires Visit(p, true) !in visits && Visit(p, false) !in visits
    ensures var m := Apply(modes, visits, dirMode, fileMode);
            (p in m <==> p in modes) && (p in m ==> m[p] == modes[p])
  {
    ApplyAt(modes, visits, dirMode, fileMode, p);
  }

  /** Before the walk comes to an entry, nothing at or below it has changed. */
  lemma {:induction false} NotYetVisited(dir: Path, node: Node, i: nat, modes: Modes, dirMode: nat, fileMode: nat)
    requires node.Folder? && Named(node) && i < |node.entries|
    ensures AgreeBelow(Apply(modes, WalkEntries(dir, node, i), dirMode, fileMode), modes, dir + [node.entries[i].name])
  {
    hide WalkEntries, WalkEntry, Apply, Named;
    var path := dir + [node.entries[i].name];
    var after := Apply(modes, WalkEntries(dir, node, i), dirMode, fileMode);
    forall p | path <= p ensures (p in after <==> p in modes) && (p in after ==> after[p] == modes[p]) {
      NotVisitedEarlier(dir, node, i, p, true);
      NotVisitedEarlier(dir, node, i, p, false);
      Unvisited(modes, WalkEntries(dir, node, i), dirMode, fileMode, p);
    }
  }

  lemma {:induction false} NotVisitedEarlier(dir: Path, node: Node, i: nat, p: Path, isDir: bool)
    requires node.Folder? && Named(node) && i < |node.entries| && dir + [node.entries[i].name] <= p
    ensures Visit(p, isDir) !in WalkEntries(dir, node, i)
  {
    hide WalkEntries, WalkEntry;
    SegmentAfter(dir, node.entries[i].name, p);
    if Visit(p, isDir) in WalkEntries(dir, node, i) {
      EntryVisitsAreBelow(dir, node, i, Visit(p, isDir));
    }
  }

  // ---- what is visited ----

  /** What stands at a path below a node, looking only into folders that can be read and searched, and through
      no link. */
  function Find(node: Node, rel: Path): Option<Node>
    decreases rel
  {
    if rel == [] then Some(node)
    else if node.Folder? && node.read && node.search then FindIn(node.entries, rel)
    else None
  }

  function FindIn(entries: seq<Entry>, rel: Path): Option<Node>
    requires rel != []
    decreases rel, 0, |entries|
  {
    if entries == [] then None
    else if entries[0].name == rel[0] then Find(entries[0].node, rel[1..])
    else FindIn(entries[1..], rel)
  }

  /** No folder holds two entries of one name. */
  predicate Named(node: Node)
    decreases node
  {
    node.Folder? ==>
      && (forall i, j :: 0 <= i < j < |node.entries| ==> node.entries[i].name != node.entries[j].name)
      && (forall i :: 0 <= i < |node.entries| ==> Named(node.entries[i].node))
  }

  /** What is found is a folder, or is a file. */
  predicate Kind(n: Option<Node>, isDir: bool) { n.Some? && if isDir then n.value.Folder? else n.value.File? }

  lemma {:induction false} FindInAt(entries: seq<Entry>, rel: Path, i: nat)
    requires rel != [] && i < |entries| && entries[i].name == rel[0]
    requires forall j, k :: 0 <= j < k < |entries| ==> entries[j].name != entries[k].name
    ensures FindIn(entries, rel) == Find(entries[i].node, rel[1..])
  {
    if i > 0 { FindInAt(entries[1..], rel, i - 1); }
  }

  lemma {:induction false} FindInNowhere(entries: seq<Entry>, rel: Path)
    requires rel != [] && forall i :: 0 <= i < |entries| ==> entries[i].name != rel[0]
    ensures FindIn(entries, rel).None?
  {
    if entries != [] { FindInNowhere(entries[1..], rel); }
  }

  lemma {:induction false} VisitsAreBelow(dir: Path, node: Node, v: Visit)
    requires v in Walk(dir, node)
    ensures dir <= v.path
    decreases node, 1
  {
    if v != Visit(dir, true) { EntryVisitsAreBelow(dir, node, |node.entries|, v); }
  }

  lemma {:induction false} EntryVisitsAreBelow(dir: Path, node: Node, n: nat, v: Visit)
    requires node.Folder? && n <= |node.entries| && v in WalkEntries(dir, node, n)
    ensures exists i :: 0 <= i < n && dir + [node.entries[i].name] <= v.path && v in WalkEntry(dir, node.entries[i])
    decreases node, 0, n
  {
    if v in WalkEntry(dir, node.entries[n - 1]) {
      OneEntryBelow(dir, node.entries[n - 1], v);
    } else {
      EntryVisitsAreBelow(dir, node, n - 1, v);
    }
  }

  lemma {:induction false} OneEntryBelow(dir: Path, e: Entry, v: Visit)
    requires v in WalkEntry(dir, e)
    ensures dir + [e.name] <= v.path
    decreases e
  {
    if e.node.Folder? && v in Walk(dir + [e.name], e.node) { VisitsAreBelow(dir + [e.name], e.node, v); }
  }

  lemma {:induction false} EntryVisits(dir: Path, node: Node, n: nat, v: Visit, i: nat)
    requires node.Folder? && i < n <= |node.entries| && v in WalkEntry(dir, node.entries[i])
    ensures v in WalkEntries(dir, node, n)
    decreases n
  {
    hide WalkEntry;
    if i < n - 1 { EntryVisits(dir, node, n - 1, v, i); }
  }

  lemma {:induction false} SegmentAfter(dir: Path, name: string, p: Path)
    requires dir + [name] <= p
    ensures |p| > |dir| && p[|dir|] == name
  {
    assert (dir + [name])[|dir|] == name;
  }

  lemma {:induction false} OneOfAName(node: Node, i: nat, k: nat)
    requires node.Folder? && Named(node) && i < |node.entries| && k < |node.entries|
    ensures node.entries[i].name == node.entries[k].name ==> i == k
  {
  }

  /** A path below a folder is visited by the one entry it goes through. */
  lemma {:induction false} ThroughOneEntry(dir: Path, node: Node, rel: Path, isDir: bool, i: nat)
    requires node.Folder? && node.read && node.search && Named(node) && rel != []
    requires i < |node.entries| && node.entries[i].name == rel[0]
    ensures Visit(dir + rel, isDir) in Walk(dir, node) <==> Visit(dir + rel, isDir) in WalkEntry(dir, node.entries[i])
  {
    hide WalkEntry, WalkEntries;
    var v := Visit(dir + rel, isDir);
    if v in WalkEntry(dir, node.entries[i]) { EntryVisits(dir, node, |node.entries|, v, i); }
    if v in WalkEntries(dir, node, |node.entries|) {
      EntryVisitsAreBelow(dir, node, |node.entries|, v);
      var k :| 0 <= k < |node.entries| && dir + [node.entries[k].name] <= v.path &&
        v in WalkEntry(dir, node.entries[k]);
      SegmentAfter(dir, node.entries[k].name, v.path);
      OneOfAName(node, i, k);
    }
    assert |(dir + rel)| != |dir|;
  }

  lemma {:induction false} ThroughNoEntry(dir: Path, node: Node, rel: Path, isDir: bool)
    requires node.Folder? && node.read && node.search && rel != []
    requires forall i :: 0 <= i < |node.entries| ==> node.entries[i].name != rel[0]
    ensures Visit(dir + rel, isDir) !in Walk(dir, node)
  {
    hide WalkEntry, WalkEntries;
    var v := Visit(dir + rel, isDir);
    if v in WalkEntries(dir, node, |node.entries|) {
      EntryVisitsAreBelow(dir, node, |node.entries|, v);
      var k :| 0 <= k < |node.entries| && dir + [node.entries[k].name] <= v.path;
      SegmentAfter(dir, node.entries[k].name, v.path);
    }
    assert |(dir + rel)| != |dir|;
  }

  lemma {:induction false} RootVisited(dir: Path, node: Node, isDir: bool)
    requires node.Folder? && node.read
    ensures Visit(dir, isDir) in Walk(dir, node) <==> isDir
  {
    hide WalkEntry, WalkEntries;
    if Visit(dir, isDir) in WalkEntries(dir, node, |node.entries|) {
      EntryVisitsAreBelow(dir, node, |node.entries|, Visit(dir, isDir));
    }
  }

  /** Exactly what the walk changes: every file and folder it can reach through folders that can be read and
      searched, as what it is, and of one that can be read alone the folder itself. Nothing that is a link or
      beyond one is visited. */
  lemma {:induction false} VisitsExactly(dir: Path, node: Node, rel: Path, isDir: bool)
    requires node.Folder? && Named(node)
    ensures Visit(dir + rel, isDir) in Walk(dir, node) <==> node.read && Kind(Find(node, rel), isDir)
    decreases rel
  {
    if !node.read {
    } else if rel == [] {
      assert dir + rel == dir;
      RootVisited(dir, node, isDir);
    } else if !node.search {
      assert |dir + rel| != |dir|;
    } else if i :| 0 <= i < |node.entries| && node.entries[i].name == rel[0] {
      var e := node.entries[i];
      ThroughOneEntry(dir, node, rel, isDir, i);
      FindInAt(node.entries, rel, i);
      EntryVisitsExactly(dir, e, rel, isDir);
    } else {
      ThroughNoEntry(dir, node, rel, isDir);
      FindInNowhere(node.entries, rel);
    }
  }

  lemma {:induction false} EntryVisitsExactly(dir: Path, e: Entry, rel: Path, isDir: bool)
    requires rel != [] && e.name == rel[0] && Named(e.node)
    ensures Visit(dir + rel, isDir) in WalkEntry(dir, e) <==> Kind(Find(e.node, rel[1..]), isDir)
    decreases rel, 0
  {
    var path := dir + [e.name];
    assert path + rel[1..] == dir + rel;
    assert dir + rel == path <==> rel[1..] == [] by { assert |dir + rel| == |path| + |rel[1..]|; }
    if e.node.Folder? {
      hide Walk;
      VisitsExactly(path, e.node, rel[1..], isDir);
    }
  }

  // ---- the modes it leaves ----

  lemma {:induction false} ApplyAt(modes: Modes, visits: seq<Visit>, dirMode: nat, fileMode: nat, p: Path)
    requires !(Visit(p, true) in visits && Visit(p, false) in visits)
    ensures var m := Apply(modes, visits, dirMode, fileMode);
            && (p in m <==> p in modes || Visit(p, true) in visits || Visit(p, false) in visits)
            && (p in m ==>
                 m[p] == if Visit(p, true) in visits then dirMode
                         else if Visit(p, false) in visits then fileMode
                         else modes[p])
  {
    if visits != [] {
      var n := |visits| - 1;
      assert visits == visits[..n] + [visits[n]];
      ApplyAt(modes, visits[..n], dirMode, fileMode, p);
    }
  }

  /** After the walk every folder reached has the folder mode and every file reached the file mode, whatever
      they had; everything else, a link's target included, has the mode it had. */
  lemma {:induction false} ModesExactly(dir: Path, node: Node, modes: Modes, dirMode: nat, fileMode: nat, p: Path)
    requires node.Folder? && Named(node)
    ensures var m := Apply(modes, Walk(dir, node), dirMode, fileMode);
            var found := if dir <= p && node.read then Find(node, p[|dir|..]) else None;
            if Kind(found, true) then p in m && m[p] == dirMode
            else if Kind(found, false) then p in m && m[p] == fileMode
            else (p in m <==> p in modes) && (p in m ==> m[p] == modes[p])
  {
    hide Apply, Walk, Find;
    var visits := Walk(dir, node);
    if dir <= p {
      var rel := p[|dir|..];
      assert dir + rel == p;
      VisitsExactly(dir, node, rel, true);
      VisitsExactly(dir, node, rel, false);
    } else {
      if Visit(p, true) in visits { VisitsAreBelow(dir, node, Visit(p, true)); }
      if Visit(p, false) in visits { VisitsAreBelow(dir, node, Visit(p, false)); }
    }
    ApplyAt(modes, visits, dirMode, fileMode, p);
  }

  // ---- freezing and thawing ----

  /** A walk under these modes changes the mode of a path, as a folder or as a file. */
  predicate Reaches(dir: Path, tree: Tree, modes: Modes, p: Path, isDir: bool) {
    dir <= p && CanRead(modes, dir) && Kind(Find(Seen(tree, dir, modes), p[|dir|..]), isDir)
  }

  lemma {:induction false} SetsModes(dir: Path, tree: Tree, modes: Modes, dirMode: nat, fileMode: nat, p: Path)
    requires WellNamed(tree) && tree.Directory?
    ensures var m := Apply(modes, Walk(dir, Seen(tree, dir, modes)), dirMode, fileMode);
            if Reaches(dir, tree, modes, p, true) then p in m && m[p] == dirMode
            else if Reaches(dir, tree, modes, p, false) then p in m && m[p] == fileMode
            else (p in m <==> p in modes) && (p in m ==> m[p] == modes[p])
  {
    hide Apply, Walk, Find, Kind;
    SeenIsNamed(tree, dir, modes);
    ModesExactly(dir, Seen(tree, dir, modes), modes, dirMode, fileMode, p);
    NothingIsNeither();
  }

  lemma {:induction false} NothingIsNeither()
    ensures !Kind(None, true) && !Kind(None, false)
  {
  }

  lemma {:induction false} ThawSets(dir: Path, tree: Tree, modes: Modes, p: Path)
    requires WellNamed(tree) && tree.Directory?
    ensures var m := Thawed(dir, tree, modes);
            if Reaches(dir, tree, modes, p, true) then p in m && m[p] == THAWED_DIR
            else if Reaches(dir, tree, modes, p, false) then p in m && m[p] == THAWED_FILE
            else (p in m <==> p in modes) && (p in m ==> m[p] == modes[p])
  {
    hide Apply, Walk, Seen, Reaches;
    SetsModes(dir, tree, modes, THAWED_DIR, THAWED_FILE, p);
  }

  lemma {:induction false} FreezeSets(dir: Path, tree: Tree, modes: Modes, p: Path)
    requires WellNamed(tree) && tree.Directory?
    ensures var m := Frozen(dir, tree, modes);
            if Reaches(dir, tree, modes, p, true) then p in m && m[p] == FROZEN_DIR
            else if Reaches(dir, tree, modes, p, false) then p in m && m[p] == FROZEN_FILE
            else (p in m <==> p in modes) && (p in m ==> m[p] == modes[p])
  {
    hide Apply, Walk, Seen, Reaches;
    SetsModes(dir, tree, modes, FROZEN_DIR, FROZEN_FILE, p);
  }

  lemma {:induction false} FrozenLists()
    ensures FROZEN_DIR / 256 % 2 == 1 && FROZEN_DIR / 64 % 2 == 1
  {
  }

  /** On the way down to what a walk reaches every folder is listed, and itself reached. */
  lemma {:induction false} WayDown(tree: Tree, dir: Path, modes: Modes, rel: Path, r: Path)
    requires Find(Seen(tree, dir, modes), rel).Some? && r < rel
    ensures CanList(modes, dir + r) && Kind(Find(Seen(tree, dir, modes), r), true)
    decreases rel
  {
    var seen := Seen(tree, dir, modes);
    var i := Through(seen.entries, rel);
    if r == [] {
      assert dir + r == dir;
    } else {
      var path := dir + [rel[0]];
      assert r[0] == rel[0] && r[1..] < rel[1..] && path + r[1..] == dir + r;
      WayDown(tree.items[i].tree, path, modes, rel[1..], r[1..]);
      SameThrough(seen.entries, rel, r, i);
    }
  }

  /** The entry a path is found through. */
  lemma {:induction false} Through(entries: seq<Entry>, rel: Path) returns (i: nat)
    requires rel != [] && FindIn(entries, rel).Some?
    ensures i < |entries| && entries[i].name == rel[0] && FindIn(entries, rel) == Find(entries[i].node, rel[1..])
    ensures forall j :: 0 <= j < i ==> entries[j].name != rel[0]
    decreases |entries|
  {
    if entries[0].name == rel[0] {
      i := 0;
    } else {
      i := Through(entries[1..], rel);
      i := i + 1;
    }
  }

  lemma {:induction false} SameThrough(entries: seq<Entry>, rel: Path, r: Path, i: nat)
    requires rel != [] && r != [] && r[0] == rel[0] && i < |entries| && entries[i].name == rel[0]
    requires forall j :: 0 <= j < i ==> entries[j].name != rel[0]
    ensures FindIn(entries, r) == Find(entries[i].node, r[1..])
    decreases i
  {
    if i > 0 { SameThrough(entries[1..], rel, r, i - 1); }
  }

  /** What is found under some modes is found under any that list the folders on the way. */
  lemma {:induction false} FoundAgain(tree: Tree, dir: Path, a: Modes, b: Modes, rel: Path, isDir: bool)
    requires Kind(Find(Seen(tree, dir, a), rel), isDir)
    requires forall r: Path :: r < rel ==> CanList(b, dir + r)
    ensures Kind(Find(Seen(tree, dir, b), rel), isDir)
    decreases rel
  {
    if rel != [] {
      var first, second := Seen(tree, dir, a), Seen(tree, dir, b);
      var i := Through(first.entries, rel);
      var path := dir + [rel[0]];
      var here: Path := [];
      assert here < rel && dir + here == dir;
      forall r: Path | r < rel[1..] ensures CanList(b, path + r) {
        assert [rel[0]] + r < rel && dir + ([rel[0]] + r) == path + r;
      }
      FoundAgain(tree.items[i].tree, path, a, b, rel[1..], isDir);
      assert forall j :: 0 <= j < |tree.items| ==> second.entries[j].name == first.entries[j].name;
      SameThrough(second.entries, rel, rel, i);
    }
  }

  /** A thaw after a freeze reaches all the freeze reached. */
  lemma {:induction false} FrozenReachesMore(dir: Path, tree: Tree, modes: Modes, p: Path, isDir: bool)
    requires WellNamed(tree) && tree.Directory? && Reaches(dir, tree, modes, p, isDir)
    ensures Reaches(dir, tree, Frozen(dir, tree, modes), p, isDir)
  {
    hide Frozen, Find, Seen, Kind;
    var rel, frozen := p[|dir|..], Frozen(dir, tree, modes);
    assert Find(Seen(tree, dir, modes), rel).Some? by { KindIsSome(Find(Seen(tree, dir, modes), rel), isDir); }
    FrozenLists();
    forall r: Path | r < rel ensures CanList(frozen, dir + r) {
      WayDown(tree, dir, modes, rel, r);
      assert (dir + r)[|dir|..] == r;
      FreezeSets(dir, tree, modes, dir + r);
    }
    if rel == [] {
      assert dir == p && Reaches(dir, tree, modes, dir, true) by { RootIsReached(dir, tree, modes); }
      FreezeSets(dir, tree, modes, dir);
    } else {
      var here: Path := [];
      assert here < rel && dir + here == dir;
    }
    FoundAgain(tree, dir, modes, frozen, rel, isDir);
  }

  lemma {:induction false} KindIsSome(n: Option<Node>, isDir: bool)
    requires Kind(n, isDir)
    ensures n.Some?
  {
  }

  lemma {:induction false} RootIsReached(dir: Path, tree: Tree, modes: Modes)
    requires tree.Directory? && CanRead(modes, dir)
    ensures Reaches(dir, tree, modes, dir, true)
  {
    assert dir[|dir|..] == [];
  }

  /** A path the thaw reaches that the freeze did not: it lies in a folder that could not be listed until the
      freeze gave it a mode. */
  predicate NewlyReached(dir: Path, tree: Tree, modes: Modes, p: Path, isDir: bool) {
    Reaches(dir, tree, Frozen(dir, tree, modes), p, isDir) && !Reaches(dir, tree, modes, p, isDir)
  }

  /** Thawing what was frozen leaves the modes a thaw alone would have left exactly when whatever lies in a
      folder that could not be listed before the freeze, and so is only now reached, had its thawed mode
      already. */
  lemma {:induction false} ThawUndoesFreezeExactly(dir: Path, tree: Tree, modes: Modes)
    requires WellNamed(tree) && tree.Directory?
    ensures Thawed(dir, tree, Frozen(dir, tree, modes)) == Thawed(dir, tree, modes) <==>
            forall p, isDir :: NewlyReached(dir, tree, modes, p, isDir) ==>
              p in modes && modes[p] == if isDir then THAWED_DIR else THAWED_FILE
  {
    hide Frozen, Thawed, Reaches;
    var frozen := Frozen(dir, tree, modes);
    var both, alone := Thawed(dir, tree, frozen), Thawed(dir, tree, modes);
    forall p ensures
      ((p in both <==> p in alone) && (p in both ==> both[p] == alone[p])) <==>
      forall isDir :: NewlyReached(dir, tree, modes, p, isDir) ==>
        p in modes && modes[p] == if isDir then THAWED_DIR else THAWED_FILE
    {
      ThawAgreesAt(dir, tree, modes, p);
    }
    if both == alone {
      forall p, isDir | NewlyReached(dir, tree, modes, p, isDir)
        ensures p in modes && modes[p] == if isDir then THAWED_DIR else THAWED_FILE
      {
        assert (p in both <==> p in alone) && (p in both ==> both[p] == alone[p]);
      }
    }
  }

  lemma {:induction false} ThawAgreesAt(dir: Path, tree: Tree, modes: Modes, p: Path)
    requires WellNamed(tree) && tree.Directory?
    ensures var both, alone := Thawed(dir, tree, Frozen(dir, tree, modes)), Thawed(dir, tree, modes);
            ((p in both <==> p in alone) && (p in both ==> both[p] == alone[p])) <==>
            forall isDir :: NewlyReached(dir, tree, modes, p, isDir) ==>
              p in modes && modes[p] == if isDir then THAWED_DIR else THAWED_FILE
  {
    hide Frozen, Thawed, Reaches;
    var frozen := Frozen(dir, tree, modes);
    FreezeSets(dir, tree, modes, p);
    ThawSets(dir, tree, modes, p);
    ThawSets(dir, tree, frozen, p);
    forall isDir | Reaches(dir, tree, modes, p, isDir) ensures Reaches(dir, tree, frozen, p, isDir) {
      FrozenReachesMore(dir, tree, modes, p, isDir);
    }
    OneKind(dir, tree, frozen, p);
    assert NewlyReached(dir, tree, modes, p, true) <==>
      Reaches(dir, tree, frozen, p, true) && !Reaches(dir, tree, modes, p, true);
    assert NewlyReached(dir, tree, modes, p, false) <==>
      Reaches(dir, tree, frozen, p, false) && !Reaches(dir, tree, modes, p, false);
  }

  lemma {:induction false} OneKind(dir: Path, tree: Tree, modes: Modes, p: Path)
    ensures !(Reaches(dir, tree, modes, p, true) && Reaches(dir, tree, modes, p, false))
  {
    hide Find, Seen;
  }

  /** So where every folder of the tree can be listed, thawing undoes the freeze. */
  lemma {:induction false} ThawUndoesFreeze(dir: Path, tree: Tree, modes: Modes)
    requires WellNamed(tree) && tree.Directory?
    requires forall p :: Reaches(dir, tree, Frozen(dir, tree, modes), p, true) ==> CanList(modes, p)
    ensures Thawed(dir, tree, Frozen(dir, tree, modes)) == Thawed(dir, tree, modes)
  {
    hide Frozen, Thawed, Find, Seen, Kind, CanRead, CanSearch;
    var frozen := Frozen(dir, tree, modes);
    forall p, isDir | Reaches(dir, tree, frozen, p, isDir) ensures Reaches(dir, tree, modes, p, isDir) {
      var rel := p[|dir|..];
      assert Find(Seen(tree, dir, frozen), rel).Some? by { KindIsSome(Find(Seen(tree, dir, frozen), rel), isDir); }
      RootIsReached(dir, tree, frozen);
      forall r: Path | r < rel ensures CanList(modes, dir + r) {
        WayDown(tree, dir, frozen, rel, r);
        assert (dir + r)[|dir|..] == r;
      }
      FoundAgain(tree, dir, frozen, modes, rel, isDir);
    }
    ThawUndoesFreezeExactly(dir, tree, modes);
  }

  /** A tree where it does not: a folder nobody may list, whose file a thaw alone would leave as it was. */
  lemma {:induction false} HiddenFileIsThawed()
    ensures var tree := Directory([Item("u", Directory([Item("f", Regular)]))]);
            var modes: Modes := map[[] := THAWED_DIR, ["u"] := 0, ["u", "f"] := 0x180];
            Thawed([], tree, Frozen([], tree, modes)) != Thawed([], tree, modes)
  {
    var tree := Directory([Item("u", Directory([Item("f", Regular)]))]);
    var modes: Modes := map[[] := THAWED_DIR, ["u"] := 0, ["u", "f"] := 0x180];
    var frozen, p := Frozen([], tree, modes), ["u", "f"];
    HiddenAtFirst(tree, modes);
    ShownAfter(tree, modes);
    ThawUndoesFreezeExactly([], tree, modes);
    assert NewlyReached([], tree, modes, p, false);
  }

  lemma {:induction false} LooksInside(tree: Tree, modes: Modes)
    requires tree == Directory([Item("u", Directory([Item("f", Regular)]))]) && CanList(modes, [])
    ensures Reaches([], tree, modes, ["u"], true) &&
      (Reaches([], tree, modes, ["u", "f"], false) <==> CanList(modes, ["u"]))
  {
    var inner := Seen(tree.items[0].tree, ["u"], modes);
    assert [] + ["u"] == ["u"];
    SeenFolder("u", tree.items[0].tree, [], modes);
    SeenFolder("f", Regular, ["u"], modes);
    assert Seen(Regular, ["u"] + ["f"], modes) == File;
    hide Seen, Find, FindIn;
    assert ["u", "f"][1..] == ["f"] && ["f"][1..] == [] && ["u"][1..] == [];
    assert ["u", "f"][0..] == ["u", "f"] && ["u"][0..] == ["u"];
    FindStep(true, true, "u", inner, ["u"]);
    FindStep(true, true, "u", inner, ["u", "f"]);
    FindStep(CanRead(modes, ["u"]), CanSearch(modes, ["u"]), "f", File, ["f"]);
    FindHere(inner);
    FindHere(File);
  }

  lemma {:induction false} SeenFolder(name: string, tree: Tree, dir: Path, modes: Modes)
    ensures Seen(Directory([Item(name, tree)]), dir, modes) ==
      Folder(CanRead(modes, dir), CanSearch(modes, dir), [Entry(name, Seen(tree, dir + [name], modes))])
    ensures Seen(Regular, dir, modes) == File
  {
  }

  lemma {:induction false} FindHere(node: Node)
    ensures Find(node, []) == Some(node)
  {
  }

  lemma {:induction false} FindStep(read: bool, search: bool, name: string, node: Node, rel: Path)
    requires rel != [] && rel[0] == name
    ensures Find(Folder(read, search, [Entry(name, node)]), rel) ==
      if read && search then Find(node, rel[1..]) else None
  {
    OneEntry(name, node, rel);
  }

  lemma {:induction false} OneEntry(name: string, node: Node, rel: Path)
    requires rel != [] && rel[0] == name
    ensures FindIn([Entry(name, node)], rel) == Find(node, rel[1..])
  {
    hide Find;
  }

  lemma {:induction false} HiddenAtFirst(tree: Tree, modes: Modes)
    requires tree == Directory([Item("u", Directory([Item("f", Regular)]))])
    requires modes == map[[] := THAWED_DIR, ["u"] := 0, ["u", "f"] := 0x180]
    ensures CanList(modes, []) && !CanList(modes, ["u"]) && WellNamed(tree)
  {
  }

  lemma {:induction false} ShownAfter(tree: Tree, modes: Modes)
    requires tree == Directory([Item("u", Directory([Item("f", Regular)]))]) && WellNamed(tree)
    requires CanList(modes, []) && !CanList(modes, ["u"])
    ensures NewlyReached([], tree, modes, ["u", "f"], false)
  {
    hide Reaches, Frozen, Seen, Find;
    var frozen := Frozen([], tree, modes);
    LooksInside(tree, modes);
    RootIsReached([], tree, modes);
    FreezeSets([], tree, modes, []);
    FreezeSets([], tree, modes, ["u"]);
    FrozenLists();
    LooksInside(tree, frozen);
  }

  // ---- deepest first ----

  /** No folder's mode changes before that of anything below it. */
  ghost predicate DeepestFirst(visits: seq<Visit>) {
    forall i, j :: 0 <= i < j < |visits| ==> !(visits[i].isDir && visits[i].path < visits[j].path)
  }

  lemma {:induction false} DeepestFirstConcat(a: seq<Visit>, b: seq<Visit>)
    requires DeepestFirst(a) && DeepestFirst(b)
    requires forall x, y :: x in a && y in b ==> !(x.isDir && x.path < y.path)
    ensures DeepestFirst(a + b)
  {
    var s := a + b;
    forall i, j | 0 <= i < j < |s| ensures !(s[i].isDir && s[i].path < s[j].path) {
      if j < |a| {
        assert s[i] == a[i] && s[j] == a[j];
      } else if i >= |a| {
        assert s[i] == b[i - |a|] && s[j] == b[j - |a|];
      } else {
        assert s[i] in a && s[j] == b[j - |a|] && s[j] in b;
      }
    }
  }

  lemma {:induction false} WalkIsDeepestFirst(dir: Path, node: Node)
    requires Named(node)
    ensures DeepestFirst(Walk(dir, node))
    decreases node, 1
  {
    if node.Folder? && node.read && node.search {
      var entries := WalkEntries(dir, node, |node.entries|);
      EntriesAreDeepestFirst(dir, node, |node.entries|);
      forall x | x in entries ensures !(x.path < dir) {
        EntryVisitsAreBelow(dir, node, |node.entries|, x);
      }
      DeepestFirstConcat(entries, [Visit(dir, true)]);
    }
  }

  lemma {:induction false} EntriesAreDeepestFirst(dir: Path, node: Node, n: nat)
    requires node.Folder? && Named(node) && n <= |node.entries|
    ensures DeepestFirst(WalkEntries(dir, node, n))
    decreases node, 0, n
  {
    if n > 0 {
      EntriesAreDeepestFirst(dir, node, n - 1);
      var e := node.entries[n - 1];
      EntryIsDeepestFirst(dir, e);
      forall x, y | x in WalkEntries(dir, node, n - 1) && y in WalkEntry(dir, e) ensures !(x.isDir && x.path < y.path) {
        EntryVisitsAreBelow(dir, node, n - 1, x);
        OneEntryBelow(dir, e, y);
        var i :| 0 <= i < n - 1 && dir + [node.entries[i].name] <= x.path;
        assert (dir + [node.entries[i].name])[|dir|] == x.path[|dir|];
        assert (dir + [e.name])[|dir|] == y.path[|dir|];
        assert node.entries[i].name != e.name;
      }
      DeepestFirstConcat(WalkEntries(dir, node, n - 1), WalkEntry(dir, e));
    }
  }

  lemma {:induction false} EntryIsDeepestFirst(dir: Path, e: Entry)
    requires Named(e.node)
    ensures DeepestFirst(WalkEntry(dir, e))
    decreases e
  {
    if e.node.Folder? {
      var path := dir + [e.name];
      WalkIsDeepestFirst(path, e.node);
      forall x | x in Walk(path, e.node) ensures !(x.path < path) {
        VisitsAreBelow(path, e.node, x);
      }
      DeepestFirstConcat(Walk(path, e.node), [Visit(path, true)]);
    }
  }
}

/**
 Build-residue cleanup: a snapshot of the tree before the build, and the removal afterwards of
 what the snapshot does not hold. Directories are walked in the order the system lists them,
 which is any order.
 */
module BuildCleanup {
  import opened Bytes

  const RM_CAP: nat := 16384
  const ARTIFACTS: set<string> := {"node_modules", ".next", ".cache", "__pycache__", ".venv", "dist"}

  type Path = seq<string>

  datatype Node = File(size: int, hash: nat) | Dir(items: seq<Item>)

  datatype Item = Item(name: string, node: Node)

  datatype SnapEntry = SnapEntry(path: Path, isDir: bool, size: int, hash: nat)

  predicate VersionControl(i: Item) {
    i.node.Dir? && (i.name == ".git" || i.name == ".svn")
  }

  predicate Artifact(i: Item) {
    i.node.Dir? && i.name in ARTIFACTS
  }

  predicate SnapshotFile(i: Item) {
    i.name == ".armake-snapshot"
  }

  /** No directory lists a name twice. */
  ghost predicate Distinct(items: seq<Item>)
    decreases items
  {
    && (forall j, k :: 0 <= j < k < |items| ==> items[j].name != items[k].name)
    && (forall j :: 0 <= j < |items| && items[j].node.Dir? ==> Distinct(items[j].node.items))
  }

  /** What a snapshot holds when nothing goes wrong while it is taken. */
  ghost function Recorded(items: seq<Item>, rel: Path): set<Path>
    decreases items
  {
    if items == [] then {}
    else
      var i := items[0];
      Recorded(items[1..], rel) +
      if VersionControl(i) || Artifact(i) then {}
      else {rel + [i.name]} + (if i.node.Dir? then Recorded(i.node.items, rel + [i.name]) else {})
  }

  ghost function Paths(snap: seq<SnapEntry>): set<Path> {
    set k | 0 <= k < |snap| :: snap[k].path
  }

  /** Every path is there together with its parent, down to `rel`. */
  ghost predicate ParentClosed(paths: set<Path>, rel: Path) {
    forall p :: p in paths ==> |p| > |rel| && rel <= p && (|p| == |rel| + 1 || p[..|p| - 1] in paths)
  }

  /** What a snapshot writes down of a node. */
  function EntryOf(node: Node, path: Path): SnapEntry {
    match node
    case Dir(_) => SnapEntry(path, true, 0, 0)
    case File(size, hash) => SnapEntry(path, false, size, hash)
  }

  /** An entry that was taken of something in the tree below `rel`. */
  ghost predicate TakenOf(items: seq<Item>, rel: Path, e: SnapEntry)
    decreases items
  {
    items != [] && (TakenOf(items[1..], rel, e) || TakenOfOne(items[0], rel, e))
  }

  ghost predicate TakenOfOne(i: Item, rel: Path, e: SnapEntry)
    decreases i
  {
    var child := rel + [i.name];
    e == EntryOf(i.node, child) || (i.node.Dir? && TakenOf(i.node.items, child, e))
  }

  ghost predicate AllTakenOf(items: seq<Item>, rel: Path, entries: seq<SnapEntry>) {
    forall k :: 0 <= k < |entries| ==> TakenOf(items, rel, entries[k])
  }

  lemma {:induction false} TakenFromOne(items: seq<Item>, n: nat, rel: Path, e: SnapEntry)
    requires n < |items| && TakenOfOne(items[n], rel, e)
    ensures TakenOf(items, rel, e)
    decreases n
  {
    hide TakenOfOne;
    if n > 0 {
      assert items[1..][n - 1] == items[n];
      TakenFromOne(items[1..], n - 1, rel, e);
    }
  }

  lemma NoneTaken(items: seq<Item>, rel: Path)
    ensures AllTakenOf(items, rel, [])
  {
  }

  lemma MoreTaken(items: seq<Item>, n: nat, rel: Path, done: seq<SnapEntry>, more: seq<SnapEntry>)
    requires n < |items| && AllTakenOf(items, rel, done)
    requires forall k :: 0 <= k < |more| ==> TakenOfOne(items[n], rel, more[k])
    ensures AllTakenOf(items, rel, done + more)
  {
    hide TakenOf, TakenOfOne;
    forall k | 0 <= k < |more|
      ensures TakenOf(items, rel, more[k])
    {
      TakenFromOne(items, n, rel, more[k]);
    }
  }

  /**
   snap_dir. A directory that cannot be opened and a table that cannot grow cut the snapshot
   short; whatever it holds, it holds with all parents.
   */
  method SnapDir(items: seq<Item>, rel: Path, arr: seq<SnapEntry>) returns (snap: seq<SnapEntry>, ghost complete: bool)
    ensures arr <= snap
    ensures Paths(snap[|arr|..]) <= Recorded(items, rel) && ParentClosed(Paths(snap[|arr|..]), rel)
    ensures complete ==> Paths(snap[|arr|..]) == Recorded(items, rel)
    ensures AllTakenOf(items, rel, snap[|arr|..])
    decreases items
  {
    hide Recorded, Paths, ParentClosed, TakenOf, TakenOfOne, AllTakenOf;
    NoneTaken(items, rel);
    assert arr[|arr|..] == [];
    snap, complete := arr, true;
    SnapNothing(arr, rel);
    if * {
      RecordedPrefix(items, 0, rel);
      return arr, false;
    }
    for n := 0 to |items|
      invariant arr <= snap && ParentClosed(Paths(snap[|arr|..]), rel)
      invariant Paths(snap[|arr|..]) <= Recorded(items[..n], rel)
      invariant complete ==> Paths(snap[|arr|..]) == Recorded(items[..n], rel)
      invariant AllTakenOf(items, rel, snap[|arr|..])
    {
      var i := items[n];
      RecordedLast(items, n, rel);
      if VersionControl(i) || Artifact(i) {
        continue;
      }
      if * {
        complete := false;
        RecordedPrefix(items, n, rel);
        return;
      }
      ghost var before := snap;
      ghost var whole;
      snap, whole := SnapOne(i, rel, snap);
      complete := complete && whole;
      assert snap[|arr|..] == before[|arr|..] + snap[|before|..];
      MoreTaken(items, n, rel, before[|arr|..], snap[|before|..]);
      PathsAppend(before[|arr|..], snap[|before|..]);
      ClosedUnion(Paths(before[|arr|..]), Paths(snap[|before|..]), rel);
    }
    assert items[..|items|] == items;
  }

  /** One listed name that is recorded, and what is below it. */
  method SnapOne(i: Item, rel: Path, arr: seq<SnapEntry>) returns (snap: seq<SnapEntry>, ghost complete: bool)
    requires !VersionControl(i) && !Artifact(i)
    ensures arr <= snap
    ensures Paths(snap[|arr|..]) <= RecordedOne(i, rel) && ParentClosed(Paths(snap[|arr|..]), rel)
    ensures complete ==> Paths(snap[|arr|..]) == RecordedOne(i, rel)
    ensures forall k :: 0 <= k < |snap[|arr|..]| ==> TakenOfOne(i, rel, snap[|arr|..][k])
    decreases i
  {
    hide Recorded, ParentClosed, TakenOf;
    var child := rel + [i.name];
    complete := true;
    var entry := EntryOf(i.node, child);
    snap := arr + [entry];
    assert snap[|arr|..] == [entry] && [entry][0].path == child;
    assert Paths([entry]) == {child};
    ClosedSingle(child, rel);
    if i.node.Dir? {
      ghost var middle := snap;
      snap, complete := SnapDir(i.node.items, child, snap);
      assert snap[|arr|..] == [entry] + snap[|middle|..];
      PathsAppend([entry], snap[|middle|..]);
      ClosedBelow(Paths(snap[|middle|..]), child, rel);
    }
  }

  lemma SnapNothing(arr: seq<SnapEntry>, rel: Path)
    ensures Paths(arr[|arr|..]) == {} && ParentClosed({}, rel) && Recorded([], rel) == {}
  {
  }

  lemma ClosedSingle(child: Path, rel: Path)
    requires |child| == |rel| + 1 && rel <= child
    ensures ParentClosed({child}, rel)
  {
  }

  lemma ClosedUnion(a: set<Path>, b: set<Path>, rel: Path)
    requires ParentClosed(a, rel) && ParentClosed(b, rel)
    ensures ParentClosed(a + b, rel)
  {
  }

  lemma ClosedBelow(below: set<Path>, child: Path, rel: Path)
    requires ParentClosed(below, child) && |child| == |rel| + 1 && rel <= child
    ensures ParentClosed({child} + below, rel)
  {
    forall p | p in {child} + below
      ensures |p| > |rel| && rel <= p && (|p| == |rel| + 1 || p[..|p| - 1] in {child} + below)
    {
      if p in below && |p| == |child| + 1 {
        assert p[..|p| - 1] == child;
      }
    }
  }

  lemma PathsAppend(a: seq<SnapEntry>, b: seq<SnapEntry>)
    ensures Paths(a + b) == Paths(a) + Paths(b)
  {
    forall p | p in Paths(a) + Paths(b)
      ensures p in Paths(a + b)
    {
      if p in Paths(a) {
        var k :| 0 <= k < |a| && a[k].path == p;
        assert (a + b)[k].path == p;
      } else {
        var k :| 0 <= k < |b| && b[k].path == p;
        assert (a + b)[|a| + k].path == p;
      }
    }
  }

  ghost function RecordedOne(i: Item, rel: Path): set<Path> {
    if VersionControl(i) || Artifact(i) then {}
    else {rel + [i.name]} + (if i.node.Dir? then Recorded(i.node.items, rel + [i.name]) else {})
  }

  lemma {:induction false} RecordedLast(items: seq<Item>, n: nat, rel: Path)
    requires n < |items|
    ensures Recorded(items[..n + 1], rel) == Recorded(items[..n], rel) + RecordedOne(items[n], rel)
    decreases n
  {
    if n == 0 {
      assert items[..1][1..] == [];
    } else {
      assert items[..n + 1][1..] == items[1..][..n] && items[..n][1..] == items[1..][..n - 1];
      RecordedLast(items[1..], n - 1, rel);
    }
  }

  lemma {:induction false} RecordedPrefix(items: seq<Item>, n: nat, rel: Path)
    requires n <= |items|
    ensures Recorded(items[..n], rel) <= Recorded(items, rel)
    decreases |items| - n
  {
    if n == |items| {
      assert items[..n] == items;
    } else {
      RecordedLast(items, n, rel);
      RecordedPrefix(items, n + 1, rel);
    }
  }

  /** The first entry with a path, or the number of entries. */
  ghost function FirstAt(snap: seq<SnapEntry>, p: Path): (k: nat)
    ensures k <= |snap| && (k < |snap| <==> p in Paths(snap))
    ensures k < |snap| ==> snap[k].path == p
  {
    if snap == [] then 0
    else if snap[0].path == p then assert snap[0].path in Paths(snap); 0
    else
      PathsAppend([snap[0]], snap[1..]);
      assert [snap[0]] + snap[1..] == snap;
      FirstAt(snap[1..], p) + 1
  }

  /** Recorded files whose size or hash is no longer the recorded one. */
  ghost function Changed(items: seq<Item>, rel: Path, snap: seq<SnapEntry>): nat
    decreases items
  {
    if items == [] then 0 else ChangedOne(items[0], rel, snap) + Changed(items[1..], rel, snap)
  }

  ghost function ChangedOne(i: Item, rel: Path, snap: seq<SnapEntry>): nat
    decreases i
  {
    var child := rel + [i.name];
    var k := FirstAt(snap, child);
    if VersionControl(i) || SnapshotFile(i) || k == |snap| then 0
    else match i.node
         case Dir(inner) => Changed(inner, child, snap)
         case File(size, hash) => if snap[k].size != size || snap[k].hash != hash then 1 else 0
  }

  lemma {:induction false} ChangedLast(items: seq<Item>, n: nat, rel: Path, snap: seq<SnapEntry>)
    requires n < |items|
    ensures Changed(items[..n + 1], rel, snap) == Changed(items[..n], rel, snap) + ChangedOne(items[n], rel, snap)
    decreases n
  {
    hide ChangedOne;
    if n == 0 {
      assert items[..1][1..] == [] && items[..0] == [];
    } else {
      assert items[..n + 1][1..] == items[1..][..n] && items[..n][1..] == items[1..][..n - 1];
      ChangedLast(items[1..], n - 1, rel, snap);
    }
  }

  /** in_snapshot: the first entry with this path. */
  method InSnapshot(snap: seq<SnapEntry>, rel: Path) returns (found: bool, entry: SnapEntry)
    ensures found == (rel in Paths(snap))
    ensures found ==> entry == snap[FirstAt(snap, rel)]
  {
    hide Paths;
    for i := 0 to |snap|
      invariant FirstAt(snap, rel) == i + FirstAt(snap[i..], rel)
    {
      assert snap[i..][1..] == snap[i + 1..] && snap[i..][0] == snap[i];
      if snap[i].path == rel {
        return true, snap[i];
      }
    }
    assert snap[|snap|..] == [];
    return false, SnapEntry([], false, 0, 0);
  }

  /** The top-most paths that the snapshot does not hold, in the order of the walk. */
  ghost function Added(items: seq<Item>, rel: Path, kept: set<Path>): seq<Path>
    decreases items
  {
    if items == [] then []
    else AddedOne(items[0], rel, kept) + Added(items[1..], rel, kept)
  }

  ghost function AddedOne(i: Item, rel: Path, kept: set<Path>): seq<Path>
    decreases i
  {
    var child := rel + [i.name];
    if VersionControl(i) || SnapshotFile(i) then []
    else if child !in kept then [child]
    else if i.node.Dir? then Added(i.node.items, child, kept)
    else []
  }

  lemma {:induction false} AddedLast(items: seq<Item>, n: nat, rel: Path, kept: set<Path>)
    requires n < |items|
    ensures Added(items[..n + 1], rel, kept) == Added(items[..n], rel, kept) + AddedOne(items[n], rel, kept)
    decreases n
  {
    hide AddedOne;
    if n == 0 {
      assert items[..1][1..] == [] && Added(items[..1][1..], rel, kept) == [];
      assert items[..0] == [];
    } else {
      assert items[..n + 1][1..] == items[1..][..n] && items[..n][1..] == items[1..][..n - 1];
      AddedLast(items[1..], n - 1, rel, kept);
      assert AddedOne(items[0], rel, kept) + (Added(items[..n][1..], rel, kept) + AddedOne(items[n], rel, kept)) ==
             (AddedOne(items[0], rel, kept) + Added(items[..n][1..], rel, kept)) + AddedOne(items[n], rel, kept);
    }
  }

  /** The removal table takes what fits. */
  ghost function Capped(s: seq<Path>): seq<Path> {
    if |s| <= RM_CAP then s else s[..RM_CAP]
  }

  lemma CappedAppend(a: seq<Path>, b: seq<Path>)
    ensures Capped(Capped(a) + b) == Capped(a + b)
  {
  }

  /** scan_for_added: fills the removal table and counts the recorded files that changed. */
  method ScanForAdded(items: seq<Item>, rel: Path, snap: seq<SnapEntry>, rm: seq<Path>, changed: nat)
    returns (table: seq<Path>, changes: nat)
    requires |rm| <= RM_CAP
    ensures |table| <= RM_CAP && table == Capped(rm + Added(items, rel, Paths(snap)))
    ensures changes == changed + Changed(items, rel, snap)
    decreases items
  {
    hide Added, AddedOne, Changed, ChangedOne, Paths, Capped;
    table, changes := rm, changed;
    ghost var kept := Paths(snap);
    NothingListed(rel, kept, rm, snap);
    for n := 0 to |items|
      invariant |table| <= RM_CAP && table == Capped(rm + Added(items[..n], rel, kept))
      invariant changes == changed + Changed(items[..n], rel, snap)
    {
      var i := items[n];
      AddedLast(items, n, rel, kept);
      ChangedLast(items, n, rel, snap);
      ghost var sofar := rm + Added(items[..n], rel, kept);
      assert rm + (Added(items[..n], rel, kept) + AddedOne(i, rel, kept)) == sofar + AddedOne(i, rel, kept);
      CappedAppend(sofar, AddedOne(i, rel, kept));
      table, changes := ScanOne(i, rel, snap, table, changes);
    }
    assert items[..|items|] == items;
  }

  /** One listed name: skipped, looked into, compared, or put on the table if there is room. */
  method ScanOne(i: Item, rel: Path, snap: seq<SnapEntry>, rm: seq<Path>, changed: nat)
    returns (table: seq<Path>, changes: nat)
    requires |rm| <= RM_CAP
    ensures |table| <= RM_CAP && table == Capped(rm + AddedOne(i, rel, Paths(snap)))
    ensures changes == changed + ChangedOne(i, rel, snap)
    decreases i
  {
    hide Added, Changed, Paths;
    table, changes := rm, changed;
    assert rm + [] == rm;
    if VersionControl(i) || SnapshotFile(i) {
      return;
    }
    var child := rel + [i.name];
    var found, before := InSnapshot(snap, child);
    if found {
      match i.node {
        case Dir(inner) =>
          table, changes := ScanForAdded(inner, child, snap, table, changes);
        case File(size, hash) =>
          if before.size != size || before.hash != hash {
            changes := changes + 1;
          }
      }
    } else {
      CappedOne(table, child);
      if |table| < RM_CAP {
        table := table + [child];
      }
    }
  }

  lemma NothingListed(rel: Path, kept: set<Path>, rm: seq<Path>, snap: seq<SnapEntry>)
    ensures Added([], rel, kept) == [] && rm + [] == rm && Changed([], rel, snap) == 0
    ensures |rm| <= RM_CAP ==> Capped(rm) == rm
  {
  }

  lemma CappedOne(s: seq<Path>, p: Path)
    requires |s| <= RM_CAP
    ensures Capped(s + [p]) == if |s| < RM_CAP then s + [p] else s
  {
    if |s| == RM_CAP {
      assert (s + [p])[..RM_CAP] == s;
    }
  }

  /** The tree without the subtree at one path. */
  function RemoveAt(items: seq<Item>, rel: Path, p: Path): seq<Item>
    decreases items
  {
    if items == [] then []
    else
      var i := items[0];
      var rest := RemoveAt(items[1..], rel, p);
      if rel + [i.name] == p then rest
      else if i.node.Dir? then [i.(node := Dir(RemoveAt(i.node.items, rel + [i.name], p)))] + rest
      else [i] + rest
  }

  /** The tree without all subtrees at some paths. */
  ghost function RemoveAll(items: seq<Item>, rel: Path, gone: set<Path>): seq<Item>
    decreases items
  {
    if items == [] then []
    else
      var i := items[0];
      var rest := RemoveAll(items[1..], rel, gone);
      if rel + [i.name] in gone then rest
      else if i.node.Dir? then [i.(node := Dir(RemoveAll(i.node.items, rel + [i.name], gone)))] + rest
      else [i] + rest
  }

  lemma {:induction false} RemoveOneMore(items: seq<Item>, rel: Path, gone: set<Path>, p: Path)
    ensures RemoveAt(RemoveAll(items, rel, gone), rel, p) == RemoveAll(items, rel, gone + {p})
    decreases items
  {
    if items != [] {
      var i := items[0];
      RemoveOneMore(items[1..], rel, gone, p);
      if i.node.Dir? {
        RemoveOneMore(i.node.items, rel + [i.name], gone, p);
      }
      if rel + [i.name] !in gone {
        var head := if i.node.Dir? then i.(node := Dir(RemoveAll(i.node.items, rel + [i.name], gone))) else i;
        assert RemoveAll(items, rel, gone)[1..] == RemoveAll(items[1..], rel, gone);
        assert RemoveAll(items, rel, gone)[0] == head;
      }
    }
  }

  lemma {:induction false} RemoveNothing(items: seq<Item>, rel: Path)
    ensures RemoveAll(items, rel, {}) == items
    decreases items
  {
    if items != [] {
      RemoveNothing(items[1..], rel);
      if items[0].node.Dir? {
        RemoveNothing(items[0].node.items, rel + [items[0].name]);
      }
    }
  }

  ghost function AsSet(s: seq<Path>): set<Path> {
    set k | 0 <= k < |s| :: s[k]
  }

  /** The removal table of a cleanup. Without any snapshot entry there is no cleanup at all. */
  ghost function Table(tree: seq<Item>, snap: seq<SnapEntry>): seq<Path> {
    if snap == [] then [] else Capped(Added(tree, [], Paths(snap)))
  }

  /** What a cleanup leaves of a tree. */
  ghost function Cleaned(tree: seq<Item>, snap: seq<SnapEntry>): seq<Item> {
    RemoveAll(tree, [], AsSet(Table(tree, snap)))
  }

  lemma CleanedIs(tree: seq<Item>, snap: seq<SnapEntry>)
    ensures Cleaned(tree, snap) == RemoveAll(tree, [], AsSet(Table(tree, snap)))
    ensures Table(tree, snap) == if snap == [] then [] else Capped(Added(tree, [], Paths(snap)))
  {
  }

  /** A directory tree on disk. */
  class Tree {
    var items: seq<Item>

    constructor (content: seq<Item>)
      ensures items == content
    {
      items := content;
    }

    /** rm_tree or remove_file_ on one path: the subtree is gone. */
    method Remove(p: Path)
      modifies this
      ensures items == RemoveAt(old(items), [], p)
    {
      items := RemoveAt(items, [], p);
    }

    /** cleanup_and_report: nothing without a snapshot; else scan, then remove every entry of the table. */
    method Cleanup(snap: seq<SnapEntry>) returns (removed: nat, changed: nat)
      modifies this
      ensures items == Cleaned(old(items), snap)
      ensures removed == |Table(old(items), snap)|
      ensures changed == if snap == [] then 0 else Changed(old(items), [], snap)
    {
      hide Table, Cleaned, Capped, Added, Changed, Paths, RemoveAll, RemoveAt;
      var table;
      ghost var before := items;
      CleanedIs(before, snap);
      if snap == [] {
        EmptySnapshotCleansNothing(before);
        return 0, 0;
      }
      table, changed := ScanForAdded(items, [], snap, [], 0);
      assert [] + Added(before, [], Paths(snap)) == Added(before, [], Paths(snap));
      RemoveNothing(before, []);
      assert AsSet(table[..0]) == {};
      removed := 0;
      for i := 0 to |table|
        invariant removed == i && items == RemoveAll(before, [], AsSet(table[..i]))
      {
        RemoveOneMore(before, [], AsSet(table[..i]), table[i]);
        assert AsSet(table[..i + 1]) == AsSet(table[..i]) + {table[i]};
        Remove(table[i]);
        removed := removed + 1;
      }
      assert table[..|table|] == table;
    }
  }

  /** Whether a path names something in the tree below `rel`. */
  ghost predicate Exists(items: seq<Item>, rel: Path, p: Path)
    decreases items
  {
    items != [] &&
    (Exists(items[1..], rel, p) ||
     rel + [items[0].name] == p ||
     (items[0].node.Dir? && Exists(items[0].node.items, rel + [items[0].name], p)))
  }

  /** The file, if there is one, at a path. */
  ghost predicate FileAt(items: seq<Item>, rel: Path, p: Path, f: Node)
    decreases items
  {
    items != [] &&
    (FileAt(items[1..], rel, p, f) ||
     (rel + [items[0].name] == p && f.File? && items[0].node == f) ||
     (items[0].node.Dir? && FileAt(items[0].node.items, rel + [items[0].name], p, f)))
  }

  lemma {:induction false} ExistsBelow(items: seq<Item>, rel: Path, p: Path)
    requires Exists(items, rel, p)
    ensures |p| > |rel| && rel <= p
    decreases items
  {
    var child := rel + [items[0].name];
    if Exists(items[1..], rel, p) {
      ExistsBelow(items[1..], rel, p);
    } else if child != p {
      ExistsBelow(items[0].node.items, child, p);
    }
  }

  lemma {:induction false} FileExists(items: seq<Item>, rel: Path, p: Path, f: Node)
    requires FileAt(items, rel, p, f)
    ensures Exists(items, rel, p)
    decreases items
  {
    var child := rel + [items[0].name];
    if FileAt(items[1..], rel, p, f) {
      FileExists(items[1..], rel, p, f);
    } else if items[0].node.Dir? && FileAt(items[0].node.items, child, p, f) {
      FileExists(items[0].node.items, child, p, f);
    }
  }

  /** No path at or above p is among the ones removed. */
  ghost predicate Spared(p: Path, gone: set<Path>) {
    forall q :: q in gone ==> !(q <= p)
  }

  /** What stands at or below no removed path stays. */
  lemma {:induction false} RemoveAllSpares(items: seq<Item>, rel: Path, gone: set<Path>, p: Path)
    requires Spared(p, gone) && Exists(items, rel, p)
    ensures Exists(RemoveAll(items, rel, gone), rel, p)
    decreases items
  {
    var i := items[0];
    var child := rel + [i.name];
    var after := RemoveAll(items, rel, gone);
    assert child !in gone ==> after[1..] == RemoveAll(items[1..], rel, gone);
    if Exists(items[1..], rel, p) {
      RemoveAllSpares(items[1..], rel, gone, p);
    } else if child != p {
      ExistsBelow(i.node.items, child, p);
      RemoveAllSpares(i.node.items, child, gone, p);
    }
  }

  /** The same for a file and its content. */
  lemma {:induction false} RemoveAllSparesFile(items: seq<Item>, rel: Path, gone: set<Path>, p: Path, f: Node)
    requires Spared(p, gone) && FileAt(items, rel, p, f)
    ensures FileAt(RemoveAll(items, rel, gone), rel, p, f)
    decreases items
  {
    var i := items[0];
    var child := rel + [i.name];
    var after := RemoveAll(items, rel, gone);
    assert child !in gone ==> after[1..] == RemoveAll(items[1..], rel, gone);
    if FileAt(items[1..], rel, p, f) {
      RemoveAllSparesFile(items[1..], rel, gone, p, f);
    } else if i.node.Dir? && FileAt(i.node.items, child, p, f) {
      FileExists(i.node.items, child, p, f);
      ExistsBelow(i.node.items, child, p);
      RemoveAllSparesFile(i.node.items, child, gone, p, f);
    }
  }

  /** The scan lists only paths the snapshot does not hold, and they lie below `rel`. */
  lemma {:induction false} AddedAreUnrecorded(items: seq<Item>, rel: Path, kept: set<Path>, k: nat)
    requires k < |Added(items, rel, kept)|
    ensures Added(items, rel, kept)[k] !in kept && rel <= Added(items, rel, kept)[k] && |Added(items, rel, kept)[k]| > |rel|
    decreases items
  {
    var first := AddedOne(items[0], rel, kept);
    if k < |first| {
      if rel + [items[0].name] in kept {
        AddedAreUnrecorded(items[0].node.items, rel + [items[0].name], kept, k);
      }
    } else {
      AddedAreUnrecorded(items[1..], rel, kept, k - |first|);
    }
  }

  /** In a set closed under parents, what is above a member is a member. */
  lemma {:induction false} ClosedUpwards(paths: set<Path>, p: Path, n: nat)
    requires ParentClosed(paths, []) && p in paths && 0 < n <= |p|
    ensures p[..n] in paths
    decreases |p|
  {
    if n == |p| {
      assert p[..n] == p;
    } else {
      var parent := p[..|p| - 1];
      assert parent in paths;
      ClosedUpwards(paths, parent, n);
      assert parent[..n] == p[..n];
    }
  }

  /**
   Cleanup safety: a snapshot holds every path with its parents, so whatever the build did to
   the tree, nothing recorded is deleted, and recorded files keep their content.
   */
  lemma CleanupSparesRecorded(snap: seq<SnapEntry>, tree: seq<Item>, p: Path)
    requires ParentClosed(Paths(snap), []) && p in Paths(snap)
    ensures var after := Cleaned(tree, snap);
            && (Exists(tree, [], p) ==> Exists(after, [], p))
            && forall f :: FileAt(tree, [], p, f) ==> FileAt(after, [], p, f)
  {
    hide Added, RemoveAll, Exists, FileAt;
    var kept := Paths(snap);
    var added := Added(tree, [], kept);
    var gone := AsSet(Capped(added));
    assert snap != [];
    forall q | q in gone
      ensures !(q <= p)
    {
      var k :| 0 <= k < |Capped(added)| && Capped(added)[k] == q;
      assert added[k] == q;
      AddedAreUnrecorded(tree, [], kept, k);
      if q <= p {
        assert p[..|q|] == q;
        ClosedUpwards(kept, p, |q|);
      }
    }
    if Exists(tree, [], p) {
      RemoveAllSpares(tree, [], gone, p);
    }
    forall f | FileAt(tree, [], p, f)
      ensures FileAt(RemoveAll(tree, [], gone), [], p, f)
    {
      RemoveAllSparesFile(tree, [], gone, p, f);
    }
  }

  /** A path the scan never judges: at or below version control data or the snapshot file, in recorded directories. */
  ghost predicate Untouched(items: seq<Item>, rel: Path, kept: set<Path>, p: Path)
    decreases items
  {
    items != [] && (Untouched(items[1..], rel, kept, p) || UntouchedOne(items[0], rel, kept, p))
  }

  ghost predicate UntouchedOne(i: Item, rel: Path, kept: set<Path>, p: Path)
    decreases i
  {
    var child := rel + [i.name];
    ((VersionControl(i) || SnapshotFile(i)) && child <= p) ||
    (i.node.Dir? && child in kept && Untouched(i.node.items, child, kept, p))
  }

  lemma {:induction false} NothingElseLeft(items: seq<Item>, rel: Path, kept: set<Path>, gone: set<Path>, p: Path)
    requires forall k :: 0 <= k < |Added(items, rel, kept)| ==> Added(items, rel, kept)[k] in gone
    requires Exists(RemoveAll(items, rel, gone), rel, p)
    ensures p in kept || Untouched(items, rel, kept, p)
    decreases items
  {
    var i := items[0];
    var child := rel + [i.name];
    var first := AddedOne(i, rel, kept);
    var more := Added(items[1..], rel, kept);
    var all := Added(items, rel, kept);
    assert all == first + more;
    forall k | 0 <= k < |more|
      ensures more[k] in gone
    {
      assert all[|first| + k] == more[k];
    }
    forall k | 0 <= k < |first|
      ensures first[k] in gone
    {
      assert all[k] == first[k];
    }
    var after := RemoveAll(items, rel, gone);
    assert !VersionControl(i) && !SnapshotFile(i) && child !in kept ==> first == [child];
    assert !VersionControl(i) && !SnapshotFile(i) && child !in kept ==> first[0] in gone;
    if Exists(RemoveAll(items[1..], rel, gone), rel, p) {
      NothingElseLeft(items[1..], rel, kept, gone, p);
    } else {
      assert child !in gone && after[1..] == RemoveAll(items[1..], rel, gone);
      if child != p {
        ExistsBelow(after[0].node.items, child, p);
      }
      if !VersionControl(i) && !SnapshotFile(i) && child != p {
        NothingElseLeft(i.node.items, child, kept, gone, p);
      }
    }
  }

  /**
   Cleanup completeness: when there was something to record and the table did not overflow,
   everything left is recorded, or lies at or below a .git, a .svn or a .armake-snapshot of a
   recorded directory.
   */
  lemma CleanupIsComplete(snap: seq<SnapEntry>, tree: seq<Item>, p: Path)
    requires snap != [] && |Added(tree, [], Paths(snap))| <= RM_CAP
    requires Exists(Cleaned(tree, snap), [], p)
    ensures p in Paths(snap) || Untouched(tree, [], Paths(snap), p)
  {
    hide Paths, Added, RemoveAll, Exists, Untouched;
    NothingElseLeft(tree, [], Paths(snap), AsSet(Capped(Added(tree, [], Paths(snap)))), p);
  }

  /** No removed path that is longer than `n` is at or above p. */
  ghost predicate SparedBelow(p: Path, gone: set<Path>, n: nat) {
    forall q :: q in gone && |q| > n ==> !(q <= p)
  }

  /** Exactly what survives a removal: what exists and has no removed path at or above it. */
  lemma {:induction false} SurvivesIff(items: seq<Item>, rel: Path, gone: set<Path>, p: Path)
    ensures Exists(RemoveAll(items, rel, gone), rel, p) <==> Exists(items, rel, p) && SparedBelow(p, gone, |rel|)
    decreases items
  {
    if items != [] {
      var i := items[0];
      var child := rel + [i.name];
      SurvivesIff(items[1..], rel, gone, p);
      ChildSpared(child, rel, gone, p);
      var after := RemoveAll(items, rel, gone);
      assert child !in gone ==> after[1..] == RemoveAll(items[1..], rel, gone);
      if i.node.Dir? {
        SurvivesIff(i.node.items, child, gone, p);
        if Exists(i.node.items, child, p) {
          ExistsBelow(i.node.items, child, p);
        }
      }
    }
  }

  lemma ChildSpared(child: Path, rel: Path, gone: set<Path>, p: Path)
    requires |child| == |rel| + 1
    ensures child <= p ==> (SparedBelow(p, gone, |rel|) <==> child !in gone && SparedBelow(p, gone, |child|))
    ensures child == p ==> SparedBelow(p, gone, |child|)
  {
    forall q | q in gone && |q| == |child| && child <= p && q <= p
      ensures q == child
    {
      assert q == p[..|q|] && child == p[..|q|];
    }
  }

  /** With distinct names, nothing on the table stands at or above a path the scan never judges. */
  lemma {:induction false} UntouchedSpared(items: seq<Item>, rel: Path, kept: set<Path>, p: Path, k: nat)
    requires Distinct(items) && Untouched(items, rel, kept, p) && k < |Added(items, rel, kept)|
    ensures !(Added(items, rel, kept)[k] <= p)
    decreases items
  {
    var i := items[0];
    var child := rel + [i.name];
    var first := AddedOne(i, rel, kept);
    assert Distinct(items[1..]);
    if k < |first| {
      AddedGoesThrough([i], rel, kept, k);
      assert Added([i], rel, kept) == first + Added([i][1..], rel, kept);
      if Untouched(items[1..], rel, kept, p) {
        UntouchedGoesThrough(items[1..], rel, kept, p);
        var j :| 0 <= j < |items[1..]| && p[|rel|] == items[1..][j].name;
        assert items[j + 1].name != i.name;
      } else {
        UntouchedSpared(i.node.items, child, kept, p, k);
      }
    } else if Untouched(items[1..], rel, kept, p) {
      UntouchedSpared(items[1..], rel, kept, p, k - |first|);
    } else {
      UntouchedGoesThrough([i], rel, kept, p);
      AddedGoesThrough(items[1..], rel, kept, k - |first|);
      var j :| 0 <= j < |items[1..]| && Added(items[1..], rel, kept)[k - |first|][|rel|] == items[1..][j].name;
      assert items[j + 1].name != i.name;
    }
  }

  lemma {:induction false} AddedGoesThrough(items: seq<Item>, rel: Path, kept: set<Path>, k: nat)
    requires k < |Added(items, rel, kept)|
    ensures var q := Added(items, rel, kept)[k];
            |q| > |rel| && exists j :: 0 <= j < |items| && q[|rel|] == items[j].name
    decreases items
  {
    AddedAreUnrecorded(items, rel, kept, k);
    var i := items[0];
    var child := rel + [i.name];
    var first := AddedOne(i, rel, kept);
    if k < |first| {
      if child in kept {
        AddedAreUnrecorded(i.node.items, child, kept, k);
        assert child[|rel|] == i.name;
      }
      assert Added(items, rel, kept)[k][|rel|] == items[0].name;
    } else {
      AddedGoesThrough(items[1..], rel, kept, k - |first|);
      var j :| 0 <= j < |items[1..]| && Added(items[1..], rel, kept)[k - |first|][|rel|] == items[1..][j].name;
      assert items[j + 1] == items[1..][j];
    }
  }

  lemma {:induction false} UntouchedGoesThrough(items: seq<Item>, rel: Path, kept: set<Path>, p: Path)
    requires Untouched(items, rel, kept, p)
    ensures |p| > |rel| && rel <= p && exists j :: 0 <= j < |items| && p[|rel|] == items[j].name
    decreases items
  {
    var i := items[0];
    var child := rel + [i.name];
    assert child[|rel|] == i.name;
    if Untouched(items[1..], rel, kept, p) {
      UntouchedGoesThrough(items[1..], rel, kept, p);
      var j :| 0 <= j < |items[1..]| && p[|rel|] == items[1..][j].name;
      assert items[j + 1] == items[1..][j];
    } else if !((VersionControl(i) || SnapshotFile(i)) && child <= p) {
      UntouchedGoesThrough(i.node.items, child, kept, p);
    }
  }

  /**
   Exactly what a cleanup leaves: when there was something to record and the table did not
   overflow, a path survives if and only if it was recorded or the scan never judges it.
   */
  lemma SurvivorsExact(snap: seq<SnapEntry>, tree: seq<Item>, p: Path)
    requires Distinct(tree) && ParentClosed(Paths(snap), []) && snap != [] && |Added(tree, [], Paths(snap))| <= RM_CAP
    ensures Exists(Cleaned(tree, snap), [], p) <==>
            Exists(tree, [], p) && (p in Paths(snap) || Untouched(tree, [], Paths(snap), p))
  {
    hide Paths, Added, RemoveAll, Exists, Untouched, ParentClosed, Distinct;
    var added := Added(tree, [], Paths(snap));
    SurvivesIff(tree, [], AsSet(added), p);
    if Exists(Cleaned(tree, snap), [], p) {
      CleanupIsComplete(snap, tree, p);
    } else if Exists(tree, [], p) {
      if p in Paths(snap) {
        CleanupSparesRecorded(snap, tree, p);
      }
      if Untouched(tree, [], Paths(snap), p) {
        forall k | 0 <= k < |added|
          ensures !(added[k] <= p)
        {
          UntouchedSpared(tree, [], Paths(snap), p, k);
        }
      }
    }
  }

  /** The condition on the snapshot is needed: from an empty directory nothing the build adds is ever removed. */
  lemma EmptySnapshotCleansNothing(tree: seq<Item>)
    ensures Cleaned(tree, []) == tree
  {
    assert AsSet([]) == {};
    RemoveNothing(tree, []);
  }

  /** A directory with the name of build output, where the scan looks. */
  ghost predicate HasArtifact(items: seq<Item>)
    decreases items
  {
    items != [] &&
    (HasArtifact(items[1..]) || Artifact(items[0]) ||
     (items[0].node.Dir? && !VersionControl(items[0]) && !SnapshotFile(items[0]) && HasArtifact(items[0].node.items)))
  }

  /** Every listed name is in `kept` exactly when a snapshot would have recorded it. */
  ghost predicate Faithful(kept: set<Path>, items: seq<Item>, rel: Path)
    decreases items
  {
    forall k :: 0 <= k < |items| ==>
      var i := items[k];
      var skipped := VersionControl(i) || Artifact(i);
      && (rel + [i.name] in kept <==> !skipped)
      && (i.node.Dir? && !skipped ==> Faithful(kept, i.node.items, rel + [i.name]))
  }

  lemma {:induction false} FaithfulFindsArtifacts(kept: set<Path>, items: seq<Item>, rel: Path)
    requires Faithful(kept, items, rel)
    ensures Added(items, rel, kept) == [] <==> !HasArtifact(items)
    decreases items
  {
    if items != [] {
      var i := items[0];
      FaithfulFindsArtifacts(kept, items[1..], rel);
      if i.node.Dir? && !VersionControl(i) && !Artifact(i) {
        FaithfulFindsArtifacts(kept, i.node.items, rel + [i.name]);
      }
    }
  }

  lemma {:induction false} RecordedLies(items: seq<Item>, rel: Path, p: Path)
    requires p in Recorded(items, rel)
    ensures |p| > |rel| && rel <= p && exists k :: 0 <= k < |items| && p[|rel|] == items[k].name
    decreases items
  {
    var i := items[0];
    if p in Recorded(items[1..], rel) {
      RecordedLies(items[1..], rel, p);
      var k :| 0 <= k < |items| - 1 && p[|rel|] == items[1..][k].name;
      assert p[|rel|] == items[k + 1].name;
    } else if p != rel + [i.name] {
      RecordedLies(i.node.items, rel + [i.name], p);
      assert p[|rel|] == (rel + [i.name])[|rel|] == items[0].name;
    }
  }

  /** With distinct names, whether a path is recorded is up to the one item it goes through. */
  lemma {:induction false} RecordedByName(items: seq<Item>, n: nat, rel: Path, p: Path)
    requires Distinct(items) && n < |items| && |p| > |rel| && p[|rel|] == items[n].name
    ensures p in Recorded(items, rel) <==> p in RecordedOne(items[n], rel)
    decreases items
  {
    assert Distinct(items[1..]);
    assert forall k | 0 <= k < |items| - 1 :: items[1..][k].name != items[0].name;
    if p in Recorded(items[1..], rel) {
      RecordedLies(items[1..], rel, p);
    }
    if p in RecordedOne(items[0], rel) {
      RecordedOneName(items[0], rel, p);
    }
    if n > 0 {
      RecordedByName(items[1..], n - 1, rel, p);
    }
  }

  lemma RecordedOneName(i: Item, rel: Path, p: Path)
    requires p in RecordedOne(i, rel)
    ensures |p| > |rel| && p[|rel|] == i.name
  {
    var child := rel + [i.name];
    assert child[|rel|] == i.name;
    if p != child {
      RecordedLies(i.node.items, child, p);
    }
  }

  lemma {:induction false} SnapshotIsFaithful(kept: set<Path>, items: seq<Item>, rel: Path)
    requires Distinct(items)
    requires forall p :: rel <= p && |p| > |rel| ==> (p in kept <==> p in Recorded(items, rel))
    ensures Faithful(kept, items, rel)
    decreases items
  {
    forall n | 0 <= n < |items|
      ensures var i := items[n];
              var skipped := VersionControl(i) || Artifact(i);
              && (rel + [i.name] in kept <==> !skipped)
              && (i.node.Dir? && !skipped ==> Faithful(kept, i.node.items, rel + [i.name]))
    {
      var i := items[n];
      var child := rel + [i.name];
      RecordedByName(items, n, rel, child);
      if i.node.Dir? && child in Recorded(i.node.items, child) {
        RecordedLies(i.node.items, child, child);
      }
      if i.node.Dir? && !VersionControl(i) && !Artifact(i) {
        forall p | child <= p && |p| > |child|
          ensures p in kept <==> p in Recorded(i.node.items, child)
        {
          assert p[|rel|] == child[|rel|] == i.name;
          RecordedByName(items, n, rel, p);
        }
        SnapshotIsFaithful(kept, i.node.items, child);
      }
    }
  }

  /** Every listed name that the scan judges and that is no build output is in `kept`. */
  ghost predicate AllKept(kept: set<Path>, items: seq<Item>, rel: Path)
    decreases items
  {
    items != [] ==> AllKept(kept, items[1..], rel) && KeptOne(kept, items[0], rel)
  }

  ghost predicate KeptOne(kept: set<Path>, i: Item, rel: Path)
    decreases i
  {
    VersionControl(i) || SnapshotFile(i) || Artifact(i) ||
    (rel + [i.name] in kept && (i.node.Dir? ==> AllKept(kept, i.node.items, rel + [i.name])))
  }

  ghost predicate NoArtifactKept(kept: set<Path>, items: seq<Item>, rel: Path)
    decreases items
  {
    items != [] ==>
      var i := items[0];
      && NoArtifactKept(kept, items[1..], rel)
      && (Artifact(i) ==> rel + [i.name] !in kept)
      && (i.node.Dir? && !VersionControl(i) && !Artifact(i) ==> NoArtifactKept(kept, i.node.items, rel + [i.name]))
  }

  /** The scan finds nothing exactly if there is no build output and everything else is recorded. */
  lemma {:induction false} AddedNothingIff(kept: set<Path>, items: seq<Item>, rel: Path)
    requires NoArtifactKept(kept, items, rel)
    ensures Added(items, rel, kept) == [] <==> !HasArtifact(items) && AllKept(kept, items, rel)
    decreases items
  {
    if items != [] {
      var i := items[0];
      AddedNothingIff(kept, items[1..], rel);
      if i.node.Dir? && !VersionControl(i) && !Artifact(i) {
        AddedNothingIff(kept, i.node.items, rel + [i.name]);
      }
    }
  }

  /** Whatever part of a tree a snapshot holds, it holds no build output. */
  lemma {:induction false} SnapshotHasNoArtifact(kept: set<Path>, items: seq<Item>, rel: Path)
    requires Distinct(items)
    requires forall p :: p in kept && rel <= p && |p| > |rel| && (exists k :: 0 <= k < |items| && p[|rel|] == items[k].name) ==> p in Recorded(items, rel)
    ensures NoArtifactKept(kept, items, rel)
    decreases items
  {
    if items != [] {
      var i := items[0];
      var child := rel + [i.name];
      assert Distinct(items[1..]) && child[|rel|] == i.name;
      forall p | p in kept && rel <= p && |p| > |rel| && (exists k :: 0 <= k < |items[1..]| && p[|rel|] == items[1..][k].name)
        ensures p in Recorded(items[1..], rel)
      {
        var k :| 0 <= k < |items[1..]| && p[|rel|] == items[1..][k].name;
        assert p[|rel|] == items[k + 1].name != i.name;
        if p in RecordedOne(i, rel) {
          RecordedOneName(i, rel, p);
        }
      }
      SnapshotHasNoArtifact(kept, items[1..], rel);
      if child in kept {
        RecordedByName(items, 0, rel, child);
      }
      if i.node.Dir? && !VersionControl(i) && !Artifact(i) {
        forall p | p in kept && child <= p && |p| > |child|
          ensures p in Recorded(i.node.items, child)
        {
          assert p[|rel|] == child[|rel|];
          RecordedByName(items, 0, rel, p);
        }
        SnapshotHasNoArtifact(kept, i.node.items, child);
      }
    }
  }

  /**
   "Cleanup removes only what the build added" is false: directories named like build output
   are never recorded, so those that were there before go too, and so does whatever a walk that
   was cut short has missed. For every snapshot that can be taken of a tree, complete or not, a
   cleanup right after it finds nothing to remove exactly when the tree has no such directory
   and all else is in the snapshot, or the snapshot is empty.
   */
  lemma NothingAddedIff(snap: seq<SnapEntry>, tree: seq<Item>)
    requires Distinct(tree) && Paths(snap) <= Recorded(tree, [])
    ensures Table(tree, snap) == [] <==> snap == [] || (!HasArtifact(tree) && AllKept(Paths(snap), tree, []))
  {
    hide Recorded, Added, AllKept, HasArtifact, NoArtifactKept, Paths, Table, Distinct;
    SnapshotHasNoArtifact(Paths(snap), tree, []);
    AddedNothingIff(Paths(snap), tree, []);
    TableEmptyIff(snap, tree);
  }

  lemma TableEmptyIff(snap: seq<SnapEntry>, tree: seq<Item>)
    ensures Table(tree, snap) == [] <==> snap == [] || Added(tree, [], Paths(snap)) == []
  {
    hide Added, Paths;
  }

  /** After a complete walk only the first half matters. */
  lemma CompleteNothingAddedIff(snap: seq<SnapEntry>, tree: seq<Item>)
    requires Distinct(tree) && Paths(snap) == Recorded(tree, [])
    ensures Table(tree, snap) == [] <==> snap == [] || !HasArtifact(tree)
  {
    SnapshotIsFaithful(Paths(snap), tree, []);
    FaithfulFindsArtifacts(Paths(snap), tree, []);
  }

  /** A walk cut short after its first file: the cleanup deletes the second, which was there before the build. */
  lemma CutSnapshotLosesSource()
    ensures var first, second := Item("a", File(1, 7)), Item("b", File(2, 8));
            var tree := [first, second];
            var snap := [SnapEntry(["a"], false, 1, 7)];
            && Distinct(tree) && !HasArtifact(tree)
            && Paths(snap) <= Recorded(tree, []) && ParentClosed(Paths(snap), []) && AllTakenOf(tree, [], snap)
            && Cleaned(tree, snap) == [first]
  {
    var first, second := Item("a", File(1, 7)), Item("b", File(2, 8));
    var tree := [first, second];
    var snap := [SnapEntry(["a"], false, 1, 7)];
    assert [] + ["a"] == ["a"] && [] + ["b"] == ["b"];
    assert tree[1..] == [second] && [second][1..] == [];
    assert snap[0].path in Paths(snap) && Paths(snap) == {["a"]};
    assert AddedOne(first, [], {["a"]}) == [] && AddedOne(second, [], {["a"]}) == [["b"]];
    assert Added([], [], {["a"]}) == [] && Added([second], [], {["a"]}) == [["b"]];
    assert Added(tree, [], {["a"]}) == [["b"]];
    var gone := AsSet(Table(tree, snap));
    assert [["b"]][0] == ["b"] && gone == {["b"]};
    assert RemoveAll([], [], gone) == [] && RemoveAll([second], [], gone) == [];
    assert TakenOfOne(first, [], snap[0]);
    assert !HasArtifact([]) && !HasArtifact([second]);
  }

  /** A tree with a `dist` beside a source file, before the build as after it, loses the `dist`. */
  lemma OldOutputIsRemoved()
    ensures var source := Item("a", File(1, 7));
            var tree := [source, Item("dist", Dir([source]))];
            var snap := [SnapEntry(["a"], false, 1, 7)];
            && Paths(snap) == Recorded(tree, [])
            && Cleaned(tree, snap) == [source]
  {
    var source := Item("a", File(1, 7));
    var output := Item("dist", Dir([source]));
    var tree := [source, output];
    var snap := [SnapEntry(["a"], false, 1, 7)];
    assert [] + ["a"] == ["a"] && [] + ["dist"] == ["dist"];
    assert tree[1..] == [output] && [output][1..] == [];
    assert snap[0].path in Paths(snap) && Paths(snap) == {["a"]};
    assert Recorded([output], []) == {} by {
      assert Recorded([], []) == {};
    }
    assert AddedOne(source, [], {["a"]}) == [] && AddedOne(output, [], {["a"]}) == [["dist"]];
    assert Added([], [], {["a"]}) == [];
    assert Added([output], [], {["a"]}) == [["dist"]];
    assert Added(tree, [], {["a"]}) == [["dist"]];
    var gone := AsSet(Table(tree, snap));
    assert [["dist"]][0] == ["dist"] && gone == {["dist"]};
    assert RemoveAll([], [], gone) == [] && RemoveAll([output], [], gone) == [];
  }

  // ---- what the report of changed files means ----

  /** What stands at a path, if anything does. */
  ghost function LookUp(items: seq<Item>, rel: Path, p: Path): Option<Node>
    decreases items
  {
    if items == [] then None
    else
      var child := rel + [items[0].name];
      if child == p then Some(items[0].node)
      else if child < p then (if items[0].node.Dir? then LookUp(items[0].node.items, child, p) else None)
      else LookUp(items[1..], rel, p)
  }

  lemma {:induction false} TakenLies(items: seq<Item>, rel: Path, e: SnapEntry)
    requires TakenOf(items, rel, e)
    ensures |e.path| > |rel| && rel <= e.path && exists k :: 0 <= k < |items| && items[k].name == e.path[|rel|]
    decreases items
  {
    var child := rel + [items[0].name];
    if TakenOf(items[1..], rel, e) {
      TakenLies(items[1..], rel, e);
      var k :| 0 <= k < |items[1..]| && items[1..][k].name == e.path[|rel|];
      assert items[k + 1].name == e.path[|rel|];
    } else if e != EntryOf(items[0].node, child) {
      TakenLies(items[0].node.items, child, e);
      assert e.path[|rel|] == child[|rel|] == items[0].name;
    } else {
      assert e.path == child && child[|rel|] == items[0].name;
    }
  }

  lemma NotAbove(q: Path, p: Path, n: nat)
    requires n < |q| <= |p| && q[n] != p[n]
    ensures !(q <= p)
  {
  }

  /** With distinct names, an entry is the record of what stands at its path. */
  lemma {:induction false} TakenIsRecord(items: seq<Item>, rel: Path, e: SnapEntry)
    requires Distinct(items) && TakenOf(items, rel, e)
    ensures LookUp(items, rel, e.path).Some? && e == EntryOf(LookUp(items, rel, e.path).value, e.path)
    decreases items
  {
    var i := items[0];
    var child := rel + [i.name];
    assert Distinct(items[1..]);
    if TakenOf(items[1..], rel, e) {
      TakenLies(items[1..], rel, e);
      var k :| 0 <= k < |items[1..]| && items[1..][k].name == e.path[|rel|];
      assert items[k + 1].name != i.name && child[|rel|] == i.name;
      NotAbove(child, e.path, |rel|);
      TakenIsRecord(items[1..], rel, e);
    } else if e != EntryOf(i.node, child) {
      TakenLies(i.node.items, child, e);
      TakenIsRecord(i.node.items, child, e);
    }
  }

  /** Recorded files of a tree that are not what the old tree has at their paths. */
  ghost function ChangedSince(items: seq<Item>, rel: Path, kept: set<Path>, before: seq<Item>): nat
    decreases items
  {
    if items == [] then 0 else ChangedSinceOne(items[0], rel, kept, before) + ChangedSince(items[1..], rel, kept, before)
  }

  ghost function ChangedSinceOne(i: Item, rel: Path, kept: set<Path>, before: seq<Item>): nat
    decreases i
  {
    var child := rel + [i.name];
    if VersionControl(i) || SnapshotFile(i) || child !in kept then 0
    else match i.node
         case Dir(inner) => ChangedSince(inner, child, kept, before)
         case File(size, hash) => if Differs(LookUp(before, [], child), size, hash) then 1 else 0
  }

  /** A directory that has become a file counts as changed unless the file is empty with hash zero. */
  predicate Differs(earlier: Option<Node>, size: int, hash: nat) {
    match earlier
    case None => true
    case Some(File(s, h)) => s != size || h != hash
    case Some(Dir(_)) => size != 0 || hash != 0
  }

  lemma {:induction false} ChangedIsSince(items: seq<Item>, rel: Path, snap: seq<SnapEntry>, before: seq<Item>)
    requires Distinct(before) && AllTakenOf(before, [], snap)
    ensures Changed(items, rel, snap) == ChangedSince(items, rel, Paths(snap), before)
    decreases items
  {
    hide Paths, AllTakenOf, TakenOf, LookUp, Distinct;
    if items != [] {
      var i := items[0];
      var child := rel + [i.name];
      ChangedIsSince(items[1..], rel, snap, before);
      if i.node.Dir? {
        ChangedIsSince(i.node.items, child, snap, before);
      } else {
        FirstIsRecord(snap, before, child);
      }
    }
  }

  lemma FirstIsRecord(snap: seq<SnapEntry>, before: seq<Item>, p: Path)
    requires Distinct(before) && AllTakenOf(before, [], snap)
    ensures var k := FirstAt(snap, p);
            k < |snap| ==> LookUp(before, [], p).Some? && snap[k] == EntryOf(LookUp(before, [], p).value, p)
  {
    hide TakenOf, Distinct, LookUp;
    var k := FirstAt(snap, p);
    if k < |snap| {
      TakenIsRecord(before, [], snap[k]);
    }
  }

  /**
   A whole build: snapshot, whatever the build makes of the tree, cleanup. What the snapshot
   recorded and the build left is still there, with the content the build left; and unless
   nothing was recorded or the table overflowed, nothing else is. The counts are those of the
   removed subtrees and of the recorded files that are no longer what they were.
   */
  method CleanAfterBuild(tree: Tree, built: seq<Item>) returns (snap: seq<SnapEntry>, removed: nat, changed: nat)
    modifies tree
    ensures Paths(snap) <= Recorded(old(tree.items), [])
    ensures forall p :: p in Paths(snap) && Exists(built, [], p) ==> Exists(tree.items, [], p)
    ensures forall p, f :: p in Paths(snap) && FileAt(built, [], p, f) ==> FileAt(tree.items, [], p, f)
    ensures snap != [] && |Added(built, [], Paths(snap))| <= RM_CAP ==>
              forall p :: Exists(tree.items, [], p) ==> p in Paths(snap) || Untouched(built, [], Paths(snap), p)
    ensures forall p :: Exists(tree.items, [], p) <==> Exists(built, [], p) && forall q :: q in Table(built, snap) ==> !(q <= p)
    ensures snap != [] && |Added(built, [], Paths(snap))| <= RM_CAP && Distinct(built) ==>
              forall p :: Exists(tree.items, [], p) <==>
                Exists(built, [], p) && (p in Paths(snap) || Untouched(built, [], Paths(snap), p))
    ensures removed == |Table(built, snap)|
    ensures Distinct(old(tree.items)) ==>
              changed == if snap == [] then 0 else ChangedSince(built, [], Paths(snap), old(tree.items))
  {
    hide AllTakenOf, ChangedSince, Distinct, Recorded, Paths, ParentClosed, Added, RemoveAll, Exists, FileAt, Untouched, Changed, Capped, AsSet, Cleaned, Table;
    ghost var complete;
    snap, complete := SnapDir(tree.items, [], []);
    assert snap[0..] == snap;
    if Distinct(tree.items) {
      ChangedIsSince(built, [], snap, tree.items);
    }
    tree.items := built;
    removed, changed := tree.Cleanup(snap);
    forall p | p in Paths(snap)
      ensures Exists(built, [], p) ==> Exists(tree.items, [], p)
      ensures forall f :: FileAt(built, [], p, f) ==> FileAt(tree.items, [], p, f)
    {
      CleanupSparesRecorded(snap, built, p);
    }
    if snap != [] && |Added(built, [], Paths(snap))| <= RM_CAP {
      forall p | Exists(tree.items, [], p)
        ensures p in Paths(snap) || Untouched(built, [], Paths(snap), p)
      {
        CleanupIsComplete(snap, built, p);
      }
      if Distinct(built) {
        forall p
          ensures Exists(tree.items, [], p) <==> Exists(built, [], p) && (p in Paths(snap) || Untouched(built, [], Paths(snap), p))
        {
          SurvivorsExact(snap, built, p);
        }
      }
    }
    forall p
      ensures Exists(tree.items, [], p) <==> Exists(built, [], p) && forall q :: q in Table(built, snap) ==> !(q <= p)
    {
      CleanedIff(snap, built, p);
    }
  }

  /** Whatever the snapshot: a path survives exactly if nothing on the table stands at or above it. */
  lemma CleanedIff(snap: seq<SnapEntry>, tree: seq<Item>, p: Path)
    ensures Exists(Cleaned(tree, snap), [], p) <==> Exists(tree, [], p) && forall q :: q in Table(tree, snap) ==> !(q <= p)
  {
    hide Exists, RemoveAll, Added, Paths;
    var table := Table(tree, snap);
    SurvivesIff(tree, [], AsSet(table), p);
    forall q | q in table
      ensures |q| > 0 && q in AsSet(table)
    {
      var k :| 0 <= k < |table| && table[k] == q;
      AddedAreUnrecorded(tree, [], Paths(snap), k);
    }
    assert forall q :: q in AsSet(table) ==> q in table;
  }
}

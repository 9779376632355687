/**
 A file system as names and inodes: hard links are names that share an inode. Every system
 call may fail without effect, unless the file system is reliable. One actor at a time.
 */
module FileTree {
  import opened Bytes

  type Path = seq<string>

  datatype Object = Directory(mode: bv16) | Regular(inode: nat) | Symlink

  datatype Inode = Inode(content: seq<byte>, mode: bv16)

  /** The result codes of an installation. */
  datatype Status = Ok | Argument | Io | UnsafePath | HashMismatch | Exists | Rollback

  /** The permission bits, 0777. */
  function Permissions(mode: bv16): bv16 {
    mode & 0x1FF
  }

  function Parent(p: Path): Path
    requires p != []
  {
    p[..|p| - 1]
  }

  /** Every name has a directory above it, every regular file an inode. */
  ghost predicate WellFormed(names: map<Path, Object>, inodes: map<nat, Inode>) {
    && (forall p :: p in names && p != [] ==> Parent(p) in names && names[Parent(p)].Directory?)
    && (forall p :: p in names && names[p].Regular? ==> names[p].inode in inodes)
  }

  /** Nothing stands below a name that is missing, or is no directory. */
  lemma {:induction false} NothingBelow(names: map<Path, Object>, inodes: map<nat, Inode>, top: Path, p: Path)
    requires WellFormed(names, inodes) && p in names && top < p
    ensures top in names && names[top].Directory?
    decreases |p|
  {
    if |p| == |top| + 1 {
      assert Parent(p) == top;
    } else {
      assert top < Parent(p);
      NothingBelow(names, inodes, top, Parent(p));
    }
  }

  /** Names strictly below a directory. */
  ghost function Below(names: map<Path, Object>, dir: Path): set<Path> {
    set p | p in names && dir < p
  }

  class FileSystem {
    var names: map<Path, Object>
    var inodes: map<nat, Inode>
    /** Whether calls fail only for a reason that lies in the names and modes. */
    const reliable: bool
    /** Whether a file can get a second name anywhere: not so across two devices. */
    const linkable: bool

    constructor (n: map<Path, Object>, i: map<nat, Inode>, faultless: bool, oneDevice: bool)
      ensures names == n && inodes == i && reliable == faultless && linkable == oneDevice
    {
      names, inodes, reliable, linkable := n, i, faultless, oneDevice;
    }

    ghost predicate Valid()
      reads this
    {
      WellFormed(names, inodes)
    }

    /** open(O_DIRECTORY | O_NOFOLLOW). */
    method OpenDirectory(p: Path) returns (ok: bool)
      ensures ok ==> p in names && names[p].Directory?
      ensures reliable && p in names && names[p].Directory? ==> ok
    {
      ok := Works();
      if ok {
        ok := p in names && names[p].Directory?;
      }
    }

    /** Whether the next call goes through. */
    method Works() returns (ok: bool)
      ensures reliable ==> ok
    {
      ok := *;
      ok := ok || reliable;
    }

    /** open(O_RDONLY | O_NOFOLLOW): fails on a symbolic link; a directory can be opened, but is no regular file. */
    method OpenRead(p: Path) returns (ok: bool, regular: bool, inode: nat)
      ensures ok ==> p in names && !names[p].Symlink? && regular == names[p].Regular?
      ensures ok && regular ==> names[p] == Regular(inode)
      ensures reliable && p in names && !names[p].Symlink? ==> ok
    {
      ok := Works();
      regular, inode := false, 0;
      if !ok || p !in names || names[p].Symlink? {
        return false, false, 0;
      }
      if names[p].Regular? {
        regular, inode := true, names[p].inode;
      }
    }

    /** mkdirat with mode 0700; an existing name is left alone and not an error. */
    method MakeDirectory(p: Path) returns (ok: bool)
      requires Valid() && p != [] && Parent(p) in names && names[Parent(p)].Directory?
      modifies this`names
      ensures Valid()
      ensures names == old(names) || (p !in old(names) && names == old(names)[p := Directory(0x1C0)])
      ensures ok ==> p in names
      ensures reliable ==> ok
    {
      ok := Works();
      if !ok {
        return false;
      }
      if p !in names {
        names := names[p := Directory(0x1C0)];
      }
      return true;
    }

    /** linkat: a second name for the inode of a regular file. */
    method Link(source: Path, target: Path) returns (ok: bool)
      requires Valid() && target != [] && Parent(target) in names && names[Parent(target)].Directory?
      modifies this`names
      ensures Valid()
      ensures ok ==> source in old(names) && old(names)[source].Regular? && target !in old(names) && names == old(names)[target := old(names)[source]]
      ensures !ok ==> names == old(names)
      ensures reliable && linkable && source in old(names) && old(names)[source].Regular? && target !in old(names) ==> ok
    {
      var crossing: bool := *;
      ok := Works();
      ok := ok && (linkable || !crossing);
      if !ok || source !in names || !names[source].Regular? || target in names {
        return false;
      }
      names := names[target := names[source]];
    }

    /** open(O_CREAT | O_EXCL, 0600): a new empty file; the umask may take bits away. */
    method CreateExclusive(p: Path) returns (ok: bool, inode: nat)
      requires Valid() && p != [] && Parent(p) in names && names[Parent(p)].Directory?
      modifies this
      ensures Valid()
      ensures ok ==>
                && p !in old(names) && inode !in old(inodes) && names == old(names)[p := Regular(inode)]
                && inode in inodes && inodes == old(inodes)[inode := Inode([], inodes[inode].mode)]
                && inodes[inode].mode & 0x7F == 0
      ensures !ok ==> names == old(names) && inodes == old(inodes)
      ensures reliable && p !in old(names) ==> ok
    {
      ok := Works();
      inode := 0;
      if !ok || p in names {
        return false, 0;
      }
      inode := FreshInode();
      var umask: bv16 := *;
      MaskedMode(umask);
      inodes := inodes[inode := Inode([], 0x180 & !umask)];
      names := names[p := Regular(inode)];
    }

    /** A number no inode has. */
    method FreshInode() returns (n: nat)
      ensures n !in inodes
    {
      n := 0;
      var left := inodes.Keys;
      while left != {}
        invariant forall k :: k in inodes && k !in left ==> k < n
        decreases |left|
      {
        var k :| k in left;
        if k >= n {
          n := k + 1;
        }
        left := left - {k};
      }
    }

    /** What writing, cloning or truncating leaves in an open file. */
    method SetContent(inode: nat, content: seq<byte>)
      requires Valid() && inode in inodes
      modifies this`inodes
      ensures Valid() && inodes == old(inodes)[inode := old(inodes[inode]).(content := content)]
    {
      inodes := inodes[inode := inodes[inode].(content := content)];
    }

    /** fchmodat on a regular file: all mode bits are set, also the three above the permissions. */
    method ChangeMode(p: Path, mode: bv16) returns (ok: bool)
      requires Valid() && p in names && names[p].Regular?
      modifies this`inodes
      ensures Valid()
      ensures inodes == if ok then old(inodes)[names[p].inode := old(inodes[names[p].inode]).(mode := mode)] else old(inodes)
      ensures reliable ==> ok
    {
      ok := Works();
      if ok {
        inodes := inodes[names[p].inode := inodes[names[p].inode].(mode := mode)];
      }
    }

    /** fchmod on an open directory. */
    method ChangeDirectoryMode(p: Path, mode: bv16) returns (ok: bool)
      requires Valid() && p in names && names[p].Directory?
      modifies this`names
      ensures Valid()
      ensures names == if ok then old(names)[p := Directory(mode)] else old(names)
      ensures reliable ==> ok
    {
      ok := Works();
      if ok {
        names := names[p := Directory(mode)];
      }
    }

    /** unlinkat, or rmdir on an empty directory. */
    method Remove(p: Path) returns (ok: bool)
      requires Valid() && Below(names, p) == {}
      modifies this`names
      ensures Valid()
      ensures ok ==> p in old(names)
      ensures names == if ok then old(names) - {p} else old(names)
      ensures reliable && p in old(names) ==> ok
    {
      ok := Works();
      if !ok || p !in names {
        return false;
      }
      forall q | q in names - {p} && q != []
        ensures Parent(q) in names - {p}
      {
        assert q !in Below(names, p);
        assert Parent(q) == p ==> p < q;
      }
      names := names - {p};
    }

    /** mkdtemp: a new empty directory; `suffix` stands for the six characters it makes up. */
    method MakeTemporary(parent: Path, prefix: string, suffix: string) returns (ok: bool, p: Path)
      requires Valid() && parent in names && names[parent].Directory?
      modifies this`names
      ensures Valid()
      ensures p == parent + [prefix + suffix]
      ensures ok ==> p !in old(names) && names == old(names)[p := Directory(0x1C0)]
      ensures !ok ==> names == old(names)
      ensures reliable && p !in old(names) ==> ok
    {
      p := parent + [prefix + suffix];
      ok := Works();
      if !ok || p in names {
        return false, p;
      }
      assert Parent(p) == parent;
      names := names[p := Directory(0x1C0)];
    }

    /** rename of a directory to a name that is free, in the same parent. */
    method Rename(from: Path, to: Path) returns (ok: bool)
      requires Valid() && from in names && from != [] && to != [] && from != to && Parent(from) == Parent(to)
      modifies this`names
      ensures Valid()
      ensures !ok ==> names == old(names)
      ensures ok ==> to !in old(names) && Moved(old(names), names, from, to)
      ensures reliable && to !in old(names) ==> ok
    {
      ok := Works();
      if !ok || to in names {
        return false;
      }
      MoveKeepsTree(names, inodes, from, to);
      names := MoveNames(names, from, to);
    }

    /** The names directly in a directory. */
    method List(dir: Path) returns (children: set<Path>)
      ensures forall p :: p in children <==> p in names && p != [] && Parent(p) == dir
    {
      children := set p | p in names && p != [] && Parent(p) == dir;
    }
  }

  /** `to` is after the move what `from` was before, and nothing else differs. */
  ghost predicate Moved(before: map<Path, Object>, after: map<Path, Object>, from: Path, to: Path) {
    && (forall q :: to <= q ==>
          (q in after <==> from + q[|to|..] in before) && (q in after ==> after[q] == before[from + q[|to|..]]))
    && (forall q :: !(to <= q) ==>
          (q in after <==> q in before && !(from <= q)) && (q in after ==> after[q] == before[q]))
  }

  /** Where a name came from. */
  function Origin(q: Path, from: Path, to: Path): Path {
    if to <= q then from + q[|to|..] else q
  }

  function Destination(p: Path, from: Path, to: Path): Path {
    if from <= p then to + p[|from|..] else p
  }

  function MoveNames(names: map<Path, Object>, from: Path, to: Path): map<Path, Object> {
    map q | q in (set p | p in names :: Destination(p, from, to)) && Origin(q, from, to) in names :: names[Origin(q, from, to)]
  }

  lemma MovedAt(names: map<Path, Object>, from: Path, to: Path, q: Path)
    requires |from| == |to| && from != to && forall p :: p in names ==> !(to <= p)
    ensures q in MoveNames(names, from, to) <==> Origin(q, from, to) in names && (from <= q ==> to <= q)
  {
    var p := Origin(q, from, to);
    if to <= q {
      assert p[..|from|] == from && p[|from|..] == q[|to|..];
      assert Destination(p, from, to) == q;
    } else if from <= q {
      assert forall r :: Destination(r, from, to) == q ==> from <= r;
    } else {
      assert Destination(p, from, to) == q;
    }
  }

  lemma MoveKeepsTree(names: map<Path, Object>, inodes: map<nat, Inode>, from: Path, to: Path)
    requires WellFormed(names, inodes) && from in names && to !in names
    requires from != [] && to != [] && from != to && Parent(from) == Parent(to)
    ensures Moved(names, MoveNames(names, from, to), from, to)
    ensures WellFormed(MoveNames(names, from, to), inodes)
  {
    forall p | p in names
      ensures !(to <= p)
    {
      assert to <= p ==> to == p || to < p;
      if to < p {
        NothingBelow(names, inodes, to, p);
      }
    }
    forall q
      ensures q in MoveNames(names, from, to) <==> Origin(q, from, to) in names && (from <= q ==> to <= q)
    {
      MovedAt(names, from, to, q);
    }
    var after := MoveNames(names, from, to);
    assert Moved(names, after, from, to);
    forall q | q in after && q != []
      ensures Parent(q) in after && after[Parent(q)].Directory?
    {
      MovedParent(names, after, from, to, q);
    }
  }

  lemma MovedOne(before: map<Path, Object>, after: map<Path, Object>, from: Path, to: Path, q: Path)
    requires Moved(before, after, from, to)
    ensures q in after <==> Origin(q, from, to) in before && (from <= q ==> to <= q)
    ensures q in after ==> after[q] == before[Origin(q, from, to)]
  {
  }

  /** Below the new name, where a name came from is below the old name in the same way. */
  lemma OriginParent(q: Path, from: Path, to: Path)
    requires q != [] && to != [] && from != []
    ensures to <= q && q != to ==>
              to <= Parent(q) && Origin(q, from, to) != [] && Parent(Origin(q, from, to)) == Origin(Parent(q), from, to)
    ensures q == to ==> Origin(q, from, to) == from
    ensures to <= Parent(q) ==> to <= q
    ensures from <= Parent(q) ==> from <= q
  {
    if to <= q && q != to {
      assert |q| > |to|;
      assert Parent(from + q[|to|..]) == from + Parent(q)[|to|..];
    }
  }

  lemma MovedParent(before: map<Path, Object>, after: map<Path, Object>, from: Path, to: Path, q: Path)
    requires Moved(before, after, from, to) && q in after && q != []
    requires from != [] && to != [] && from != to && Parent(from) == Parent(to)
    requires Parent(from) in before && before[Parent(from)].Directory?
    requires var p := Origin(q, from, to);
             p in before && p != [] ==> Parent(p) in before && before[Parent(p)].Directory?
    ensures Parent(q) in after && after[Parent(q)].Directory?
  {
    hide Moved;
    var up := Parent(q);
    MovedOne(before, after, from, to, q);
    MovedOne(before, after, from, to, up);
    OriginParent(q, from, to);
    if q == to {
      assert |up| < |to| == |from|;
    }
  }

  lemma MaskedMode(umask: bv16)
    ensures (0x180 & !umask) & 0x7F == 0
  {
  }

  /** Whether two states agree on every name that is not at or below `top`. */
  ghost predicate SameOutside(before: map<Path, Object>, after: map<Path, Object>, top: Path) {
    forall p :: !(top <= p) ==> (p in before <==> p in after) && (p in before ==> before[p] == after[p])
  }

  /** remove_tree_contents: empties a directory, children before parents, and stops at the first failure. */
  method RemoveTreeContents(fs: FileSystem, dir: Path) returns (status: Status)
    requires fs.Valid() && dir in fs.names && fs.names[dir].Directory?
    modifies fs`names
    ensures fs.Valid() && dir in fs.names && fs.names[dir].Directory?
    ensures SameOutside(old(fs.names), fs.names, dir) && fs.names.Keys <= old(fs.names.Keys)
    ensures status.Ok? || status.Rollback?
    ensures status.Ok? ==> Below(fs.names, dir) == {}
    ensures fs.reliable ==> status.Ok?
    decreases |Below(fs.names, dir)|, 1
  {
    hide SameOutside;
    ghost var before := fs.names;
    SameAsItself(before, dir);
    var ok := fs.ChangeDirectoryMode(dir, 0x1C0);
    if !ok {
      return Rollback;
    }
    ChangedAtTop(before, fs.names, dir, Directory(0x1C0));
    assert Below(fs.names, dir) == Below(before, dir);
    var children := fs.List(dir);
    while children != {}
      invariant fs.Valid() && dir in fs.names && fs.names[dir].Directory?
      invariant SameOutside(before, fs.names, dir) && fs.names.Keys <= before.Keys
      invariant forall p :: p in fs.names && p != [] && Parent(p) == dir ==> p in children
      invariant forall p :: p in children ==> |p| == |dir| + 1 && dir <= p && p in fs.names
      decreases |children|
    {
      var child :| child in children;
      ok := fs.Works();
      if !ok || child !in fs.names {
        return Rollback;
      }
      ghost var middle := fs.names;
      FewerBelow(before, middle, dir, child);
      ok := RemoveChild(fs, child);
      OutsideTwice(before, middle, fs.names, dir, child);
      StandsOutside(middle, fs.names, child, dir);
      OthersStay(middle, fs.names, dir, child, children);
      if !ok {
        return Rollback;
      }
      children := children - {child};
    }
    EmptyBelow(fs.names, fs.inodes, dir);
    // readdir may have stopped for an error
    ok := fs.Works();
    return if ok then Ok else Rollback;
  }

  /** One directory entry: emptied first if it is a directory, then removed. */
  method RemoveChild(fs: FileSystem, child: Path) returns (ok: bool)
    requires fs.Valid() && child in fs.names
    modifies fs`names
    ensures fs.Valid() && SameOutside(old(fs.names), fs.names, child) && fs.names.Keys <= old(fs.names.Keys)
    ensures ok ==> child !in fs.names
    ensures fs.reliable ==> ok
    decreases |Below(fs.names, child)|, 2
  {
    ghost var before := fs.names;
    if fs.names[child].Directory? {
      ok := fs.OpenDirectory(child);
      if !ok {
        return false;
      }
      var emptied := RemoveTreeContents(fs, child);
      if !emptied.Ok? {
        return false;
      }
    } else {
      LeafHasNothingBelow(fs, child);
    }
    ok := fs.Remove(child);
  }

  lemma SameAsItself(names: map<Path, Object>, top: Path)
    ensures SameOutside(names, names, top)
  {
  }

  lemma ChangedAtTop(before: map<Path, Object>, after: map<Path, Object>, top: Path, thing: Object)
    requires after == before[top := thing]
    ensures SameOutside(before, after, top)
  {
  }

  /** A change at or below a child leaves the directory above it. */
  lemma StandsOutside(before: map<Path, Object>, after: map<Path, Object>, child: Path, dir: Path)
    requires SameOutside(before, after, child) && dir < child && dir in before
    ensures dir in after && after[dir] == before[dir]
  {
  }

  lemma OthersStay(before: map<Path, Object>, after: map<Path, Object>, dir: Path, child: Path, children: set<Path>)
    requires SameOutside(before, after, child) && |child| == |dir| + 1
    requires forall p :: p in children ==> |p| == |dir| + 1 && p in before
    ensures forall p :: p in children && p != child ==> p in after
  {
  }

  lemma EmptyBelow(names: map<Path, Object>, inodes: map<nat, Inode>, dir: Path)
    requires WellFormed(names, inodes)
    requires forall p :: p in names && p != [] ==> Parent(p) != dir
    ensures Below(names, dir) == {}
  {
    forall p | p in Below(names, dir)
      ensures false
    {
      FirstStep(names, inodes, dir, p);
    }
  }

  /** A file or a link is the parent of nothing. */
  lemma LeafHasNothingBelow(fs: FileSystem, p: Path)
    requires fs.Valid() && p in fs.names && !fs.names[p].Directory?
    ensures Below(fs.names, p) == {}
  {
    forall q | q in Below(fs.names, p)
      ensures false
    {
      NothingBelow(fs.names, fs.inodes, p, q);
    }
  }

  /** Whatever stands below a directory stands at or below one of its children. */
  lemma FirstStep(names: map<Path, Object>, inodes: map<nat, Inode>, dir: Path, p: Path)
    requires WellFormed(names, inodes) && p in names && dir < p
    ensures var child := p[..|dir| + 1];
            child in names && child != [] && Parent(child) == dir
  {
    var child := p[..|dir| + 1];
    if child != p {
      NothingBelow(names, inodes, child, p);
    }
  }

  lemma FewerBelow(before: map<Path, Object>, now: map<Path, Object>, dir: Path, child: Path)
    requires now.Keys <= before.Keys && dir < child && child in now
    ensures |Below(now, child)| < |Below(before, dir)|
  {
    assert Below(now, child) <= Below(before, dir) - {child};
    Smaller(Below(now, child), Below(before, dir) - {child});
  }

  lemma {:induction false} Smaller(a: set<Path>, b: set<Path>)
    requires a <= b
    ensures |a| <= |b|
    decreases a
  {
    if a != {} {
      var x :| x in a;
      Smaller(a - {x}, b - {x});
    }
  }

  lemma OutsideTwice(a: map<Path, Object>, b: map<Path, Object>, c: map<Path, Object>, dir: Path, child: Path)
    requires SameOutside(a, b, dir) && SameOutside(b, c, child) && dir <= child
    ensures SameOutside(a, c, dir)
  {
    forall p | !(dir <= p)
      ensures (p in a <==> p in c) && (p in a ==> a[p] == c[p])
    {
      assert !(child <= p);
    }
  }

  /** Every directory at or below `top` has mode 0555. */
  ghost predicate AllReadonly(names: map<Path, Object>, top: Path) {
    forall p :: p in names && top <= p && names[p].Directory? ==> names[p] == Directory(0x16D)
  }

  /** Only modes of directories at or below `top` may differ. */
  ghost predicate OnlyModes(before: map<Path, Object>, after: map<Path, Object>, top: Path) {
    && after.Keys == before.Keys
    && forall p :: p in after ==>
         after[p] == before[p] || (top <= p && before[p].Directory? && after[p].Directory?)
  }

  /** make_directories_readonly: every directory below, at any depth, gets mode 0555. */
  method MakeDirectoriesReadonly(fs: FileSystem, dir: Path) returns (status: Status)
    requires fs.Valid() && dir in fs.names && fs.names[dir].Directory?
    modifies fs`names
    ensures fs.Valid() && OnlyModes(old(fs.names), fs.names, dir) && dir in fs.names && fs.names[dir] == old(fs.names)[dir]
    ensures status.Ok? || status.Io? || status.UnsafePath?
    ensures fs.reliable ==> status.Ok?
    ensures status.Ok? ==> forall p :: p in Below(fs.names, dir) && fs.names[p].Directory? ==> fs.names[p] == Directory(0x16D)
    decreases |Below(fs.names, dir)|, 1
  {
    hide AllReadonly;
    ghost var before := fs.names;
    var ok := fs.Works();
    if !ok {
      return Io;
    }
    var children := fs.List(dir);
    ghost var done: set<Path> := {};
    ghost var all := children;
    while children != {}
      invariant fs.Valid() && OnlyModes(before, fs.names, dir) && fs.names[dir] == before[dir]
      invariant children <= all && done == all - children
      invariant forall c :: c in done ==> AllReadonly(fs.names, c)
      decreases |children|
    {
      var child :| child in children;
      assert child in before && dir < child && child != dir;
      ok := fs.Works();
      if !ok {
        return Io;
      }
      ghost var middle := fs.names;
      FewerBelow(before, middle, dir, child);
      status := MakeReadonly(fs, child);
      OnlyModesTwice(before, middle, fs.names, dir, child);
      if !status.Ok? {
        return status;
      }
      forall c | c in done
        ensures AllReadonly(fs.names, c)
      {
        SiblingKept(middle, fs.names, c, child, dir);
      }
      children, done := children - {child}, done + {child};
    }
    forall p | p in Below(fs.names, dir) && fs.names[p].Directory?
      ensures fs.names[p] == Directory(0x16D)
    {
      FirstStep(fs.names, fs.inodes, dir, p);
      ReadonlyAt(fs.names, p[..|dir| + 1], p);
    }
    // readdir may have stopped for an error
    ok := fs.Works();
    return if ok then Ok else Io;
  }

  lemma ReadonlyAt(names: map<Path, Object>, top: Path, p: Path)
    requires AllReadonly(names, top) && p in names && top <= p && names[p].Directory?
    ensures names[p] == Directory(0x16D)
  {
  }

  /** One directory entry: a directory is made read-only after all below it; anything else is passed over. */
  method MakeReadonly(fs: FileSystem, child: Path) returns (status: Status)
    requires fs.Valid() && child in fs.names
    modifies fs`names
    ensures fs.Valid() && OnlyModes(old(fs.names), fs.names, child)
    ensures status.Ok? || status.Io? || status.UnsafePath?
    ensures fs.reliable ==> status.Ok?
    ensures status.Ok? ==> AllReadonly(fs.names, child)
    decreases |Below(fs.names, child)|, 2
  {
    hide OnlyModes, AllReadonly, Below;
    ghost var before := fs.names;
    ModesKept(before, child);
    if !fs.names[child].Directory? {
      LeafIsReadonly(fs, child);
      return Ok;
    }
    var ok := fs.OpenDirectory(child);
    if !ok {
      return UnsafePath;
    }
    status := MakeDirectoriesReadonly(fs, child);
    if status.Ok? {
      ghost var middle := fs.names;
      ok := fs.ChangeDirectoryMode(child, 0x16D);
      TopReadonly(before, middle, fs.names, child, ok);
      status := if ok then Ok else Io;
    }
  }

  lemma ModesKept(names: map<Path, Object>, top: Path)
    ensures OnlyModes(names, names, top)
  {
  }

  lemma LeafIsReadonly(fs: FileSystem, p: Path)
    requires fs.Valid() && p in fs.names && !fs.names[p].Directory?
    ensures AllReadonly(fs.names, p)
  {
    forall q | q in fs.names && p <= q && fs.names[q].Directory?
      ensures false
    {
      assert p == q || p < q;
      if p < q {
        NothingBelow(fs.names, fs.inodes, p, q);
      }
    }
  }

  lemma TopReadonly(before: map<Path, Object>, middle: map<Path, Object>, after: map<Path, Object>, top: Path, ok: bool)
    requires OnlyModes(before, middle, top) && top in before && before[top].Directory? && top in middle && middle[top] == before[top]
    requires forall p :: p in Below(middle, top) && middle[p].Directory? ==> middle[p] == Directory(0x16D)
    requires after == if ok then middle[top := Directory(0x16D)] else middle
    ensures OnlyModes(before, after, top) && (ok ==> AllReadonly(after, top))
  {
    if ok {
      forall p | p in after && top <= p && after[p].Directory?
        ensures after[p] == Directory(0x16D)
      {
        assert p == top || p in Below(middle, top);
      }
    }
  }

  lemma OnlyModesTwice(a: map<Path, Object>, b: map<Path, Object>, c: map<Path, Object>, dir: Path, child: Path)
    requires OnlyModes(a, b, dir) && OnlyModes(b, c, child) && dir <= child
    ensures OnlyModes(a, c, dir)
    ensures dir < child && dir in a ==> c[dir] == b[dir]
  {
  }

  lemma SiblingKept(before: map<Path, Object>, after: map<Path, Object>, c: Path, child: Path, dir: Path)
    requires AllReadonly(before, c) && OnlyModes(before, after, child)
    requires c != [] && child != [] && Parent(c) == dir == Parent(child) && c != child
    ensures AllReadonly(after, c)
  {
    forall p | p in after && c <= p
      ensures after[p] == before[p]
    {
      SiblingsApart(c, child, dir, p);
    }
  }

  lemma SiblingsApart(c: Path, d: Path, dir: Path, p: Path)
    requires c != [] && d != [] && Parent(c) == dir == Parent(d) && c != d && c <= p
    ensures !(d <= p)
  {
    assert |c| == |d| == |dir| + 1;
    assert c == dir + [c[|dir|]] && d == dir + [d[|dir|]];
    assert p[|dir|] == c[|dir|];
  }
}

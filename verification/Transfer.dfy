/**
 Moving one indexed file into the staging directory: by hard link, by clone or by copy. SHA-256
 is an arbitrary function; every read, write and system call may fail or come up short.
 */
module Transfer {
  import opened Bytes
  import opened FileTree
  import opened PackageIndex
  import AuditBlock

  const COPY_BUFFER_SIZE: nat := 65536

  datatype Kind = Hardlink | Reflink | Copy

  /** What a file system holds at one moment. */
  datatype Snapshot = Snapshot(names: map<Path, Object>, inodes: map<nat, Inode>)

  ghost function Now(fs: FileSystem): Snapshot
    reads fs
  {
    Snapshot(fs.names, fs.inodes)
  }

  function Place(root: Path, entry: Entry): Path {
    root + Components(entry.path)
  }

  predicate Matches(H: AuditBlock.Hash, entry: Entry, content: seq<byte>) {
    |content| == entry.fileSize && H(content) == entry.sha
  }

  /** A file has the read-only permissions that the index calls for. */
  predicate HasMode(inode: Inode, entry: Entry) {
    Permissions(inode.mode) == ReadonlyMode(entry.unixMode)
  }

  predicate IsDirectory(names: map<Path, Object>, p: Path) {
    p in names && names[p].Directory?
  }

  /** New directories on the way from `root` to `p`, and nothing else. */
  ghost predicate DirectoriesAdded(before: map<Path, Object>, after: map<Path, Object>, root: Path, p: Path) {
    && (forall q :: q in before ==> q in after && after[q] == before[q])
    && (forall q :: q in after && q !in before ==> after[q].Directory? && root < q < p)
  }

  /** Nothing but directories stands where the way to `p` must go. */
  ghost predicate Clear(names: map<Path, Object>, root: Path, p: Path) {
    forall q :: q in names && root < q < p ==> names[q].Directory?
  }

  /** Every directory on the way to `p` is there. */
  ghost predicate Reached(names: map<Path, Object>, root: Path, p: Path) {
    forall q :: root < q < p ==> IsDirectory(names, q)
  }

  lemma ReachedIfThere(names: map<Path, Object>, inodes: map<nat, Inode>, root: Path, p: Path)
    requires WellFormed(names, inodes) && p in names
    ensures Reached(names, root, p)
  {
    forall q | root < q < p
      ensures IsDirectory(names, q)
    {
      NothingBelow(names, inodes, q, p);
    }
  }

  /** The next directory on the way is there, or can only be a directory. */
  lemma WayOn(before: map<Path, Object>, now: map<Path, Object>, root: Path, p: Path, next: Path)
    requires DirectoriesAdded(before, now, root, p) && root < next < p
    ensures Reached(before, root, p) ==> IsDirectory(now, next)
    ensures Clear(before, root, p) && next in now ==> IsDirectory(now, next)
  {
    assert Reached(before, root, p) ==> IsDirectory(before, next);
  }

  lemma NoneAdded(names: map<Path, Object>, root: Path, p: Path)
    ensures DirectoriesAdded(names, names, root, p)
  {
  }

  lemma NextOnTheWay(parent: Path, path: string)
    requires Slash(path) < |path|
    ensures var rest := path[Slash(path) + 1..];
            parent + [path[..Slash(path)]] + Components(rest) == parent + Components(path) && Components(rest) != []
  {
  }

  lemma NoSlash(path: string)
    requires Slash(path) == |path|
    ensures Components(path) == [path]
  {
  }

  lemma OneOnTheWay(before: map<Path, Object>, now: map<Path, Object>, after: map<Path, Object>, root: Path, p: Path, next: Path)
    requires DirectoriesAdded(before, now, root, p) && root < next < p
    requires after == now || (next !in now && after == now[next := Directory(0x1C0)])
    ensures DirectoriesAdded(before, after, root, p)
  {
  }

  /** open_parent_directory: opens, and on request first makes, every directory above a file. */
  method OpenParentDirectory(fs: FileSystem, root: Path, path: string, create: bool)
    returns (status: Status, parent: Path, filename: string)
    requires fs.Valid() && IsDirectory(fs.names, root)
    modifies fs`names
    ensures fs.Valid() && DirectoriesAdded(old(fs.names), fs.names, root, root + Components(path))
    ensures !create ==> fs.names == old(fs.names)
    ensures status.Ok? || status.Io? || status.UnsafePath?
    ensures status.Ok? ==> parent + [filename] == root + Components(path) && IsDirectory(fs.names, parent)
    ensures Mutable(path) ==> status.UnsafePath?
    ensures fs.reliable && !Mutable(path) && Reached(old(fs.names), root, root + Components(path)) ==> status.Ok?
    ensures fs.reliable && !Mutable(path) && create && Clear(old(fs.names), root, root + Components(path)) ==> status.Ok?
  {
    hide Mutable, Reached, Clear, DirectoriesAdded, Components;
    parent, filename := root, path;
    ghost var before := fs.names;
    ghost var goal := root + Components(path);
    NoneAdded(before, root, goal);
    var refused := PathIsMutable(path);
    if refused {
      return UnsafePath, parent, filename;
    }
    var ok := fs.Works();
    if !ok {
      return Io, parent, filename;
    }
    while Slash(filename) < |filename|
      invariant fs.Valid() && IsDirectory(fs.names, parent) && root <= parent
      invariant parent + Components(filename) == root + Components(path)
      invariant DirectoriesAdded(before, fs.names, root, goal)
      invariant !create ==> fs.names == old(fs.names)
      decreases |filename|
    {
      var slash := Slash(filename);
      var next := parent + [filename[..slash]];
      var rest := filename[slash + 1..];
      NextOnTheWay(parent, filename);
      assert Parent(next) == parent;
      assert root < next < goal;
      if create {
        ghost var now := fs.names;
        var made := fs.MakeDirectory(next);
        OneOnTheWay(before, now, fs.names, root, goal, next);
        if !made {
          return Io, parent, filename;
        }
      }
      WayOn(before, fs.names, root, goal, next);
      var entered := fs.OpenDirectory(next);
      if !entered {
        return UnsafePath, parent, filename;
      }
      parent, filename := next, rest;
    }
    NoSlash(filename);
    ok := fs.Works();
    if !ok {
      return Io, parent, filename;
    }
    return Ok, parent, filename;
  }

  /** hash_fd: the digest of all that can be read, if that is as much as expected. */
  method HashFile(H: AuditBlock.Hash, reliable: bool, content: seq<byte>, expected: nat) returns (status: Status, digest: AuditBlock.Digest)
    ensures status.Ok? || status.Io? || status.HashMismatch?
    ensures status.Ok? ==> |content| == expected && digest == H(content)
    ensures reliable && |content| == expected ==> status.Ok?
  {
    digest := Zeros(32);
    var fails: bool := *;
    if fails && !reliable {
      return Io, digest;
    }
    var context: seq<byte> := [];
    while |context| < |content|
      invariant context <= content && |context| <= expected
    {
      fails := *;
      if fails && !reliable {
        return Io, digest;
      }
      var received := AnyAmount(|content| - |context|, COPY_BUFFER_SIZE);
      if received > expected - |context| {
        return HashMismatch, digest;
      }
      context := context + content[|context|..|context| + received];
    }
    if |context| != expected {
      return HashMismatch, digest;
    }
    fails := *;
    if fails && !reliable {
      return HashMismatch, digest;
    }
    assert context == content;
    return Ok, H(context);
  }

  /** What one read or write call moves when it moves anything. */
  method AnyAmount(left: nat, most: nat) returns (amount: nat)
    requires left > 0 && most > 0
    ensures 0 < amount <= left && amount <= most
  {
    amount := *;
    if !(0 < amount <= left && amount <= most) {
      amount := 1;
    }
  }

  /** verify_open_file: a regular file of the indexed size and digest. */
  method VerifyOpenFile(fs: FileSystem, H: AuditBlock.Hash, regular: bool, inode: nat, entry: Entry) returns (status: Status)
    requires regular ==> inode in fs.inodes
    ensures status.Ok? || status.Io? || status.HashMismatch?
    ensures status.Ok? ==> regular && Matches(H, entry, fs.inodes[inode].content)
    ensures fs.reliable && regular && Matches(H, entry, fs.inodes[inode].content) ==> status.Ok?
  {
    var ok := fs.Works();
    if !ok {
      return HashMismatch;
    }
    if !regular || |fs.inodes[inode].content| != entry.fileSize {
      return HashMismatch;
    }
    var digest;
    status, digest := HashFile(H, fs.reliable, fs.inodes[inode].content, entry.fileSize);
    if status.Ok? && digest != entry.sha {
      status := HashMismatch;
    }
  }

  /** buffered_copy: appends chunk by chunk, each with as many writes as it takes. */
  method BufferedCopy(fs: FileSystem, source: nat, target: nat) returns (status: Status)
    requires fs.Valid() && source in fs.inodes && target in fs.inodes && source != target
    requires fs.inodes[target].content == []
    modifies fs`inodes
    ensures fs.Valid() && target in fs.inodes
    ensures fs.inodes == old(fs.inodes)[target := old(fs.inodes[target]).(content := fs.inodes[target].content)]
    ensures status.Ok? || status.Io?
    ensures status.Ok? ==> fs.inodes[target].content == old(fs.inodes[source].content)
    ensures fs.reliable ==> status.Ok?
  {
    ghost var before := fs.inodes;
    var content := fs.inodes[source].content;
    var ok := fs.Works();
    if !ok {
      return Io;
    }
    var offset := 0;
    while offset < |content|
      invariant offset <= |content| && fs.Valid()
      invariant fs.inodes == before[target := before[target].(content := content[..offset])]
    {
      ok := fs.Works();
      if !ok {
        return Io;
      }
      var received := AnyAmount(|content| - offset, COPY_BUFFER_SIZE);
      var buffer := content[offset..offset + received];
      var written := 0;
      while written < received
        invariant written <= received && fs.Valid()
        invariant fs.inodes == before[target := before[target].(content := content[..offset + written])]
      {
        ok := fs.Works();
        if !ok {
          return Io;
        }
        var amount := AnyAmount(received - written, received);
        Appended(content, offset, received, written, amount);
        fs.SetContent(target, fs.inodes[target].content + buffer[written..written + amount]);
        written := written + amount;
      }
      offset := offset + received;
    }
    assert content[..offset] == content;
    return Ok;
  }

  lemma Appended(content: seq<byte>, offset: nat, received: nat, written: nat, amount: nat)
    requires offset + received <= |content| && written + amount <= received
    ensures content[..offset + written] + content[offset..offset + received][written..written + amount] == content[..offset + written + amount]
  {
  }

  /** All that a transfer may leave: one more name, and new inodes nobody else may open. */
  ghost predicate OneNameMore(a: Snapshot, b: Snapshot, p: Path) {
    && (b.names == a.names || (p !in a.names && p in b.names && b.names == a.names[p := b.names[p]]))
    && InodesKept(a, b)
  }

  /** Old inodes are as they were; new ones are readable by their owner alone. */
  ghost predicate InodesKept(a: Snapshot, b: Snapshot) {
    && (forall i :: i in a.inodes ==> i in b.inodes && b.inodes[i] == a.inodes[i])
    && (forall i :: i in b.inodes && i !in a.inodes ==> b.inodes[i].mode & 0x7F == 0)
  }

  /** A file has arrived at `p`: either it is an old inode that is read-only already, or a new one. */
  ghost predicate Arrived(a: Snapshot, b: Snapshot, H: AuditBlock.Hash, p: Path, entry: Entry, kind: Kind) {
    && p !in a.names && p in b.names && b.names[p].Regular?
    && var i := b.names[p].inode;
       && i in b.inodes && Matches(H, entry, b.inodes[i].content)
       && (i in a.inodes <==> kind.Hardlink?)
       && (kind.Hardlink? ==> HasMode(b.inodes[i], entry))
  }

  /** linkat, then a second look at what the new name leads to. */
  method LinkFile(fs: FileSystem, H: AuditBlock.Hash, from: Path, to: Path, entry: Entry) returns (linked: bool, status: Status)
    requires fs.Valid() && from in fs.names && fs.names[from].Regular?
    requires HasMode(fs.inodes[fs.names[from].inode], entry)
    requires to != [] && IsDirectory(fs.names, Parent(to))
    modifies fs`names
    ensures fs.Valid() && OneNameMore(old(Now(fs)), Now(fs), to)
    ensures !linked ==> fs.names == old(fs.names)
    ensures fs.reliable && fs.linkable && to !in old(fs.names) ==> linked
    ensures status.Ok? || status.Io? || status.HashMismatch?
    ensures fs.reliable && Matches(H, entry, fs.inodes[old(fs.names)[from].inode].content) ==> status.Ok?
    ensures linked && status.Ok? ==>
              Arrived(old(Now(fs)), Now(fs), H, to, entry, Hardlink) && to in fs.names && fs.names[to] == old(fs.names)[from]
  {
    status := Ok;
    linked := fs.Link(from, to);
    if linked {
      var ok, regular, inode := fs.OpenRead(to);
      if !ok {
        return true, Io;
      }
      status := VerifyOpenFile(fs, H, regular, inode, entry);
      if !status.Ok? {
        LeafHasNothingBelow(fs, to);
        var removed := fs.Remove(to);
        assert removed ==> fs.names == old(fs.names);
      }
    }
  }

  /** A new file, filled by a clone or else by a copy, synced, and verified before it counts. */
  method CopyFile(fs: FileSystem, H: AuditBlock.Hash, source: nat, to: Path, entry: Entry, permitReflink: bool)
    returns (status: Status, kind: Kind)
    requires fs.Valid() && source in fs.inodes && to != [] && IsDirectory(fs.names, Parent(to))
    modifies fs
    ensures fs.Valid() && OneNameMore(old(Now(fs)), Now(fs), to)
    ensures !kind.Hardlink? && (kind.Reflink? ==> permitReflink)
    ensures status.Ok? || status.Io? || status.HashMismatch?
    ensures status.Ok? ==> Arrived(old(Now(fs)), Now(fs), H, to, entry, kind)
    ensures status.Ok? ==> to !in old(fs.names)
    ensures fs.reliable && to !in old(fs.names) && Matches(H, entry, old(fs.inodes[source]).content) ==> status.Ok?
  {
    hide Matches, HasMode, OneNameMore, Arrived;
    ghost var start := Now(fs);
    NothingMore(start, to);
    kind := Copy;
    var ok, inode := fs.CreateExclusive(to);
    if !ok {
      return Io, kind;
    }
    NewFile(start, Now(fs), to, inode);
    var cloned: bool := *;
    if permitReflink && cloned {
      fs.SetContent(inode, fs.inodes[source].content);
      status, kind := Ok, Reflink;
    } else {
      ok := fs.Works();
      if !ok {
        return Io, kind;
      }
      status := BufferedCopy(fs, source, inode);
    }
    NewFile(start, Now(fs), to, inode);
    ok := fs.Works();
    if status.Ok? && !ok {
      status := Io;
    }
    if status.Ok? {
      status := VerifyOpenFile(fs, H, true, inode, entry);
    }
    if status.Ok? {
      NewFileArrived(start, Now(fs), H, to, inode, entry, kind);
    } else {
      LeafHasNothingBelow(fs, to);
      var removed := fs.Remove(to);
      if removed {
        NewInodeOnly(start, Now(fs), to, inode);
      }
    }
  }

  /** The only new name leads to the only new inode. */
  ghost predicate HoldsNew(a: Snapshot, b: Snapshot, inode: nat) {
    inode !in a.inodes && inode in b.inodes && b.inodes == a.inodes[inode := b.inodes[inode]] && b.inodes[inode].mode & 0x7F == 0
  }

  lemma NewFile(a: Snapshot, b: Snapshot, p: Path, inode: nat)
    requires p !in a.names && b.names == a.names[p := Regular(inode)] && HoldsNew(a, b, inode)
    ensures OneNameMore(a, b, p)
  {
  }

  lemma NewFileArrived(a: Snapshot, b: Snapshot, H: AuditBlock.Hash, p: Path, inode: nat, entry: Entry, kind: Kind)
    requires p !in a.names && b.names == a.names[p := Regular(inode)] && HoldsNew(a, b, inode)
    requires Matches(H, entry, b.inodes[inode].content) && !kind.Hardlink?
    ensures Arrived(a, b, H, p, entry, kind)
  {
  }

  lemma NewInodeOnly(a: Snapshot, b: Snapshot, p: Path, inode: nat)
    requires p !in a.names && b.names == a.names[p := Regular(inode)] - {p} && HoldsNew(a, b, inode)
    ensures OneNameMore(a, b, p)
  {
    assert b.names == a.names;
  }

  /** One file or a part of the way to it: what a transfer adds to the tree. */
  ghost predicate Grown(a: Snapshot, b: Snapshot, root: Path, p: Path) {
    && (forall q :: q in a.names ==> q in b.names && b.names[q] == a.names[q])
    && (forall q :: q in b.names && q !in a.names ==> q == p || (b.names[q].Directory? && root < q < p))
    && InodesKept(a, b)
  }

  /** The file at `from` reaches `to` by the first way that is open. */
  method Deliver(fs: FileSystem, H: AuditBlock.Hash, from: Path, inode: nat, to: Path, entry: Entry,
                 permitHardlink: bool, permitReflink: bool) returns (status: Status, kind: Kind)
    requires fs.Valid() && from in fs.names && fs.names[from] == Regular(inode) && to != [] && IsDirectory(fs.names, Parent(to))
    requires permitHardlink ==> HasMode(fs.inodes[inode], entry)
    modifies fs
    ensures fs.Valid() && OneNameMore(old(Now(fs)), Now(fs), to)
    ensures status.Ok? || status.Io? || status.HashMismatch?
    ensures status.Ok? ==> Arrived(old(Now(fs)), Now(fs), H, to, entry, kind)
    ensures status.Ok? && kind.Hardlink? ==> permitHardlink && fs.names[to] == Regular(inode)
    ensures status.Ok? && kind.Reflink? ==> permitReflink
    ensures fs.reliable && fs.linkable && permitHardlink && status.Ok? ==> kind.Hardlink?
    ensures fs.reliable && to !in old(fs.names) && Matches(H, entry, old(fs.inodes[inode]).content) ==> status.Ok?
  {
    hide Matches, HasMode, Arrived, OneNameMore;
    if permitHardlink {
      var linked;
      linked, status := LinkFile(fs, H, from, to, entry);
      if linked {
        return status, Hardlink;
      }
    }
    status, kind := CopyFile(fs, H, inode, to, entry, permitReflink);
  }

  /** A file with the indexed content stands where it is looked for. */
  ghost predicate Available(a: Snapshot, H: AuditBlock.Hash, root: Path, entry: Entry) {
    var p := Place(root, entry);
    && !Mutable(entry.path) && p in a.names && a.names[p].Regular?
    && a.names[p].inode in a.inodes && Matches(H, entry, a.inodes[a.names[p].inode].content)
  }

  /** The file has the permissions it is to keep. */
  ghost predicate Readonly(a: Snapshot, root: Path, entry: Entry) {
    var p := Place(root, entry);
    && p in a.names && a.names[p].Regular? && a.names[p].inode in a.inodes
    && HasMode(a.inodes[a.names[p].inode], entry)
  }

  /** transfer_file. */
  method TransferFile(fs: FileSystem, H: AuditBlock.Hash, source: Path, target: Path, entry: Entry,
                      permitHardlink: bool, permitReflink: bool) returns (status: Status, kind: Kind)
    requires fs.Valid() && IsDirectory(fs.names, source) && IsDirectory(fs.names, target)
    modifies fs
    ensures fs.Valid() && Grown(old(Now(fs)), Now(fs), target, Place(target, entry))
    ensures status.Ok? || status.Io? || status.UnsafePath? || status.HashMismatch?
    ensures status.Ok? ==> Arrived(old(Now(fs)), Now(fs), H, Place(target, entry), entry, kind)
    ensures status.Ok? && kind.Hardlink? ==>
              && permitHardlink && Place(source, entry) in old(fs.names) && Place(target, entry) in fs.names
              && fs.names[Place(target, entry)] == old(fs.names)[Place(source, entry)]
    ensures status.Ok? && kind.Reflink? ==> permitReflink
    ensures status.Ok? ==> Available(old(Now(fs)), H, source, entry)
    ensures fs.reliable && fs.linkable && permitHardlink && Readonly(old(Now(fs)), source, entry) && status.Ok? ==> kind.Hardlink?
    ensures
      && fs.reliable && Available(old(Now(fs)), H, source, entry)
      && Clear(old(fs.names), target, Place(target, entry)) && Place(target, entry) !in old(fs.names)
      ==> status.Ok?
  {
    hide Matches, HasMode, Arrived, OneNameMore, Grown, Available, Readonly, Clear, Reached, DirectoriesAdded, Components, Mutable;
    ghost var start := Now(fs);
    NothingGrown(start, target, Place(target, entry));
    NotFound(start, H, source, entry);
    if Place(source, entry) in fs.names {
      ReachedIfThere(fs.names, fs.inodes, source, Place(source, entry));
    }
    kind := Copy;
    var parent, filename;
    status, parent, filename := OpenParentDirectory(fs, source, entry.path, false);
    if !status.Ok? {
      return;
    }
    var from := parent + [filename];
    var ok, regular, inode := fs.OpenRead(from);
    if !ok {
      return Io, kind;
    }
    FoundAt(start, H, source, entry, from, inode);
    status := VerifyOpenFile(fs, H, regular, inode, entry);
    if !status.Ok? {
      return;
    }
    var permit := fs.Works();
    permit := permit && permitHardlink && HasMode(fs.inodes[inode], entry);
    status, parent, filename := OpenParentDirectory(fs, target, entry.path, true);
    ghost var middle := Now(fs);
    StillThere(start.names, middle.names, target, Place(target, entry), from);
    StillFree(start.names, middle.names, target, Place(target, entry));
    NothingMore(middle, Place(target, entry));
    GrownInSteps(start, middle, middle, target, Place(target, entry));
    if !status.Ok? {
      return;
    }
    var to := parent + [filename];
    assert Parent(to) == parent;
    status, kind := Deliver(fs, H, from, inode, to, entry, permit, permitReflink);
    GrownInSteps(start, middle, Now(fs), target, to);
    if status.Ok? {
      ArrivedSince(start, middle, Now(fs), H, target, to, entry, kind);
    }
  }

  lemma FoundAt(a: Snapshot, H: AuditBlock.Hash, root: Path, entry: Entry, p: Path, inode: nat)
    requires p == Place(root, entry) && p in a.names && !Mutable(entry.path)
    requires a.names[p].Regular? ==> a.names[p] == Regular(inode) && inode in a.inodes
    ensures Available(a, H, root, entry) <==> a.names[p].Regular? && Matches(H, entry, a.inodes[inode].content)
    ensures Readonly(a, root, entry) <==> a.names[p].Regular? && HasMode(a.inodes[inode], entry)
  {
    hide Matches, HasMode, Mutable;
  }

  lemma NotFound(a: Snapshot, H: AuditBlock.Hash, root: Path, entry: Entry)
    ensures Available(a, H, root, entry) ==> !Mutable(entry.path) && Place(root, entry) in a.names && !a.names[Place(root, entry)].Symlink?
  {
  }

  lemma StillThere(before: map<Path, Object>, after: map<Path, Object>, root: Path, p: Path, q: Path)
    requires DirectoriesAdded(before, after, root, p) && q in before
    ensures q in after && after[q] == before[q]
  {
  }

  lemma StillFree(before: map<Path, Object>, after: map<Path, Object>, root: Path, p: Path)
    requires DirectoriesAdded(before, after, root, p)
    ensures p in after <==> p in before
  {
  }

  lemma NothingGrown(a: Snapshot, root: Path, p: Path)
    ensures Grown(a, a, root, p)
  {
  }

  lemma NothingMore(a: Snapshot, p: Path)
    ensures OneNameMore(a, a, p)
  {
  }

  lemma GrownInSteps(a: Snapshot, b: Snapshot, c: Snapshot, root: Path, p: Path)
    requires DirectoriesAdded(a.names, b.names, root, p) && b.inodes == a.inodes && OneNameMore(b, c, p)
    ensures Grown(a, c, root, p)
  {
  }

  lemma ArrivedSince(a: Snapshot, b: Snapshot, c: Snapshot, H: AuditBlock.Hash, root: Path, p: Path, entry: Entry, kind: Kind)
    requires DirectoriesAdded(a.names, b.names, root, p) && b.inodes == a.inodes && Arrived(b, c, H, p, entry, kind)
    ensures Arrived(a, c, H, p, entry, kind)
    ensures p in c.names && c.names[p].Regular?
  {
  }
}

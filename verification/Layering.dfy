/**
 Installing a package next to the running one: files are shared with the old slot where they
 have not changed, everything is verified in a staging directory, and the directory is then
 renamed into place.
 */
module Layering {
  import opened Bytes
  import opened FileTree
  import opened PackageIndex
  import opened Transfer
  import AuditBlock

  datatype Stats = Stats(hardlinked: nat, reflinked: nat, copied: nat, bytes: nat)

  const NO_STATS := Stats(0, 0, 0, 0)

  datatype Slot = NoSlot | Slot(directory: Path, index: seq<Entry>)

  // ----- What holds of the tree -----

  /** Nothing but names at or below `top` has changed, and no old inode has other content or permissions. */
  ghost predicate Kept(a: Snapshot, b: Snapshot, top: Path) {
    && SameOutside(a.names, b.names, top)
    && forall i :: i in a.inodes ==>
         i in b.inodes && b.inodes[i].content == a.inodes[i].content && Permissions(b.inodes[i].mode) == Permissions(a.inodes[i].mode)
  }

  /** The old inodes whose mode has been set keep their permissions alone; all others keep their whole mode. */
  ghost predicate ModesSet(a: Snapshot, b: Snapshot, touched: set<nat>) {
    && touched <= a.inodes.Keys
    && forall i :: i in a.inodes ==>
         i in b.inodes && b.inodes[i].mode == if i in touched then Permissions(a.inodes[i].mode) else a.inodes[i].mode
  }

  ghost predicate NoneAt(names: map<Path, Object>, top: Path) {
    forall p :: p in names ==> !(top <= p)
  }

  /** `p` is the only name of inode `i`. */
  ghost predicate Private(names: map<Path, Object>, p: Path, i: nat) {
    forall q :: q in names && names[q] == Regular(i) ==> q == p
  }

  /**
   One indexed file stands at `p`: the content is the indexed one, and the inode is an old one
   exactly if it was linked. Before its mode is set, a linked file has the permissions it will
   keep, and a new file has no permissions for others and no second name.
   */
  ghost predicate InPlace(a: Snapshot, b: Snapshot, H: AuditBlock.Hash, p: Path, entry: Entry, kind: Kind, final: bool) {
    && p in b.names && b.names[p].Regular?
    && var i := b.names[p].inode;
       && i in b.inodes && Matches(H, entry, b.inodes[i].content)
       && (i in a.inodes <==> kind.Hardlink?)
       && (final ==> b.inodes[i].mode == ReadonlyMode(entry.unixMode))
       && (!final && kind.Hardlink? ==> Permissions(b.inodes[i].mode) == ReadonlyMode(entry.unixMode))
       && (!final && !kind.Hardlink? ==> b.inodes[i].mode & 0x7F == 0)
       && (!kind.Hardlink? ==> Private(b.names, p, i))
  }

  /** The first entries are in place, the first `sealed` of them with their final mode. */
  ghost predicate FilesInPlace(a: Snapshot, b: Snapshot, H: AuditBlock.Hash, root: Path, index: seq<Entry>, kinds: seq<Kind>, sealed: nat) {
    && |kinds| <= |index|
    && forall j :: 0 <= j < |kinds| ==> InPlace(a, b, H, Place(root, index[j]), index[j], kinds[j], j < sealed)
  }

  /** Every name below `root` is one of the first `count` files, or a directory on the way to one. */
  ghost predicate Accounted(names: map<Path, Object>, root: Path, index: seq<Entry>, count: nat)
    requires count <= |index|
  {
    forall q :: q in names && root < q ==>
      exists j :: 0 <= j < count && (q == Place(root, index[j]) || (names[q].Directory? && q < Place(root, index[j])))
  }

  /** Inodes that were not there before are closed to others. */
  ghost predicate NewOnesClosed(a: Snapshot, b: Snapshot) {
    && a.inodes.Keys <= b.inodes.Keys
    && forall i :: i in b.inodes && i !in a.inodes ==> b.inodes[i].mode & 0x7F == 0
  }

  /** The target directory is complete: exactly the indexed files, in read-only directories. */
  ghost predicate Installed(a: Snapshot, b: Snapshot, H: AuditBlock.Hash, target: Path, index: seq<Entry>, kinds: seq<Kind>) {
    && |kinds| == |index|
    && FilesInPlace(a, b, H, target, index, kinds, |index|)
    && Accounted(b.names, target, index, |index|)
    && IsDirectory(b.names, target) && AllReadonly(b.names, target)
  }

  function Count(kinds: seq<Kind>, kind: Kind): nat {
    if kinds == [] then 0 else Count(kinds[..|kinds| - 1], kind) + (if kinds[|kinds| - 1] == kind then 1 else 0)
  }

  lemma {:induction false} CountsSum(kinds: seq<Kind>)
    ensures Count(kinds, Hardlink) + Count(kinds, Reflink) + Count(kinds, Copy) == |kinds|
  {
    if kinds != [] {
      CountsSum(kinds[..|kinds| - 1]);
    }
  }

  function TotalSize(index: seq<Entry>): nat {
    if index == [] then 0 else TotalSize(index[..|index| - 1]) + index[|index| - 1].fileSize
  }

  // ----- Transfers -----

  lemma GrowthSetsNothing(a: Snapshot, b: Snapshot, c: Snapshot, root: Path, p: Path)
    requires ModesSet(a, b, {}) && Grown(b, c, root, p)
    ensures ModesSet(a, c, {})
  {
  }

  lemma GrowthIsKept(a: Snapshot, b: Snapshot, c: Snapshot, root: Path, p: Path)
    requires Kept(a, b, root) && Grown(b, c, root, p) && root <= p
    ensures Kept(a, c, root)
  {
  }

  lemma ReadonlyIsOpen(mode: bv16, indexed: bv32)
    requires mode & 0x7F == 0
    ensures Permissions(mode) != ReadonlyMode(indexed)
  {
  }

  /** A transfer leaves every file that is in place in place. */
  lemma StaysInPlace(a: Snapshot, b: Snapshot, c: Snapshot, H: AuditBlock.Hash, root: Path, p: Path, entry: Entry, kind: Kind,
                     q: Path, other: Entry, otherKind: Kind)
    requires InPlace(a, b, H, p, entry, kind, false)
    requires Grown(b, c, root, q) && Arrived(b, c, H, q, other, otherKind) && p != q
    ensures InPlace(a, c, H, p, entry, kind, false)
  {
    hide Matches, Permissions, ReadonlyMode;
    var i := b.names[p].inode;
    if !kind.Hardlink? {
      ReadonlyIsOpen(b.inodes[i].mode, other.unixMode);
      assert Private(c.names, p, i);
    }
  }

  /** A file that arrives is in place. */
  lemma NowInPlace(a: Snapshot, b: Snapshot, c: Snapshot, H: AuditBlock.Hash, root: Path, q: Path, entry: Entry, kind: Kind)
    requires WellFormed(b.names, b.inodes) && NewOnesClosed(a, b) && Grown(b, c, root, q) && Arrived(b, c, H, q, entry, kind)
    ensures InPlace(a, c, H, q, entry, kind, false)
    ensures NewOnesClosed(a, c)
  {
    hide Matches, Permissions, ReadonlyMode;
    var i := c.names[q].inode;
    if kind.Hardlink? && i !in a.inodes {
      ReadonlyIsOpen(c.inodes[i].mode, entry.unixMode);
    }
  }

  lemma OneMoreAccounted(b: map<Path, Object>, c: map<Path, Object>, root: Path, index: seq<Entry>, k: nat)
    requires k < |index| && Accounted(b, root, index, k)
    requires forall q :: q in b ==> q in c && c[q] == b[q]
    requires forall q :: q in c && q !in b ==> q == Place(root, index[k]) || (c[q].Directory? && root < q < Place(root, index[k]))
    ensures Accounted(c, root, index, k + 1)
  {
    forall q | q in c && root < q
      ensures exists j :: 0 <= j < k + 1 && (q == Place(root, index[j]) || (c[q].Directory? && q < Place(root, index[j])))
    {
      if q in b {
        var j :| 0 <= j < k && (q == Place(root, index[j]) || (b[q].Directory? && q < Place(root, index[j])));
        assert 0 <= j < k + 1;
      } else {
        assert 0 <= k < k + 1;
      }
    }
  }

  lemma PlacesApart(index: seq<Entry>, root: Path, i: nat, j: nat)
    requires Sorted(index) && i < |index| && j < |index| && i != j
    ensures Place(root, index[i]) != Place(root, index[j])
  {
    ComponentsApart(index, i, j);
    assert forall k: nat :: k < |index| ==> Place(root, index[k])[|root|..] == Components(index[k].path);
  }

  lemma BelowRoot(root: Path, entry: Entry)
    ensures root < Place(root, entry)
  {
  }

  /** What holds of the staging directory after the first transfers. */
  ghost predicate Staging(a: Snapshot, b: Snapshot, H: AuditBlock.Hash, root: Path, index: seq<Entry>, kinds: seq<Kind>) {
    && |kinds| <= |index|
    && Kept(a, b, root) && NewOnesClosed(a, b) && ModesSet(a, b, {}) && IsDirectory(b.names, root)
    && FilesInPlace(a, b, H, root, index, kinds, 0)
    && Accounted(b.names, root, index, |kinds|)
  }

  lemma DirectoryStays(b: Snapshot, c: Snapshot, root: Path, p: Path)
    requires Grown(b, c, root, p) && IsDirectory(b.names, root)
    ensures IsDirectory(c.names, root)
  {
  }

  lemma StagingStep(a: Snapshot, b: Snapshot, c: Snapshot, H: AuditBlock.Hash, root: Path, index: seq<Entry>, kinds: seq<Kind>, kind: Kind)
    requires Staging(a, b, H, root, index, kinds) && |kinds| < |index| && Sorted(index) && WellFormed(b.names, b.inodes)
    requires Grown(b, c, root, Place(root, index[|kinds|])) && Arrived(b, c, H, Place(root, index[|kinds|]), index[|kinds|], kind)
    ensures Staging(a, c, H, root, index, kinds + [kind])
  {
    hide InPlace, Arrived, Kept, ModesSet, NewOnesClosed, Place, Accounted, Sorted, IsDirectory, WellFormed;
    var k := |kinds|;
    DirectoryStays(b, c, root, Place(root, index[k]));
    var p := Place(root, index[k]);
    BelowRoot(root, index[k]);
    GrowthIsKept(a, b, c, root, p);
    GrowthSetsNothing(a, b, c, root, p);
    NowInPlace(a, b, c, H, root, p, index[k], kind);
    OneMoreAccounted(b.names, c.names, root, index, k);
    forall j | 0 <= j < k + 1
      ensures InPlace(a, c, H, Place(root, index[j]), index[j], (kinds + [kind])[j], false)
    {
      if j < k {
        PlacesApart(index, root, j, k);
        StaysInPlace(a, b, c, H, root, Place(root, index[j]), index[j], kinds[j], p, index[k], kind);
      }
    }
  }

  method Tally(stats: Stats, kind: Kind, ghost kinds: seq<Kind>) returns (more: Stats)
    requires Tallied(stats, kinds)
    ensures Tallied(more, kinds + [kind]) && more.bytes == stats.bytes
  {
    assert (kinds + [kind])[..|kinds|] == kinds;
    match kind {
      case Hardlink => more := stats.(hardlinked := stats.hardlinked + 1);
      case Reflink => more := stats.(reflinked := stats.reflinked + 1);
      case Copy => more := stats.(copied := stats.copied + 1);
    }
  }

  ghost predicate Tallied(stats: Stats, kinds: seq<Kind>) {
    stats.hardlinked == Count(kinds, Hardlink) && stats.reflinked == Count(kinds, Reflink) && stats.copied == Count(kinds, Copy)
  }

  lemma NothingTallied()
    ensures Tallied(NO_STATS, [])
  {
  }

  lemma TalliedBytes(stats: Stats, kinds: seq<Kind>, bytes: nat)
    requires Tallied(stats, kinds)
    ensures Tallied(stats.(bytes := bytes), kinds)
  {
  }

  /** Where a file of the package is taken from. */
  ghost function SourceOf(existing: Slot, payload: Path, entry: Entry): Path {
    if existing.Slot? && exists i :: 0 <= i < |existing.index| && SameFile(existing.index[i], entry) then existing.directory
    else payload
  }

  ghost predicate AllAvailable(a: Snapshot, H: AuditBlock.Hash, existing: Slot, payload: Path, index: seq<Entry>) {
    forall j :: 0 <= j < |index| ==> Available(a, H, SourceOf(existing, payload, index[j]), index[j])
  }

  /** No path of the package is a directory on the way to another. */
  ghost predicate NoConflicts(index: seq<Entry>) {
    forall i, j :: 0 <= i < |index| && 0 <= j < |index| ==> !(Components(index[i].path) < Components(index[j].path))
  }

  /** The first sources were available before the installation began, unless they lie in the staging directory itself. */
  ghost predicate WereAvailable(a: Snapshot, H: AuditBlock.Hash, existing: Slot, payload: Path, staging: Path, index: seq<Entry>, count: nat)
    requires count <= |index|
  {
    forall j :: 0 <= j < count ==>
      var source := SourceOf(existing, payload, index[j]);
      staging <= Place(source, index[j]) || Available(a, H, source, index[j])
  }

  /** What is kept is as available after some transfers as it was before. */
  lemma StillAvailable(a: Snapshot, b: Snapshot, H: AuditBlock.Hash, staging: Path, source: Path, entry: Entry)
    requires WellFormed(a.names, a.inodes) && NoneAt(a.names, staging) && Kept(a, b, staging)
    ensures Available(a, H, source, entry) ==> Available(b, H, source, entry)
    ensures Available(b, H, source, entry) ==> staging <= Place(source, entry) || Available(a, H, source, entry)
  {
    hide Matches, Permissions, Place, Mutable;
  }

  /** Nothing stands in the way of the next file. */
  lemma RoomFor(names: map<Path, Object>, root: Path, index: seq<Entry>, k: nat)
    requires k < |index| && Accounted(names, root, index, k) && Sorted(index) && NoConflicts(index)
    ensures Clear(names, root, Place(root, index[k])) && Place(root, index[k]) !in names
  {
    var p := Place(root, index[k]);
    BelowRoot(root, index[k]);
    forall q | q in names && root < q <= p
      ensures names[q].Directory? && q != p
    {
      var j :| 0 <= j < k && (q == Place(root, index[j]) || (names[q].Directory? && q < Place(root, index[j])));
      PlacesApart(index, root, j, k);
      OnTheWay(root, index[j], index[k]);
      OnTheWay(root, index[k], index[j]);
    }
  }

  lemma OnTheWay(root: Path, first: Entry, second: Entry)
    ensures Place(root, first) < Place(root, second) ==> Components(first.path) < Components(second.path)
  {
    assert Place(root, first)[|root|..] == Components(first.path) && Place(root, second)[|root|..] == Components(second.path);
  }

  /** An unchanged file of the old slot that is read-only already, as both indexes want it. */
  ghost predicate Shareable(a: Snapshot, existing: Slot, entry: Entry) {
    && existing.Slot? && Readonly(a, existing.directory, entry)
    && exists i :: 0 <= i < |existing.index| && SameFile(existing.index[i], entry)
                   && ReadonlyMode(existing.index[i].unixMode) == ReadonlyMode(entry.unixMode)
  }

  /** Every such file was linked. */
  ghost predicate AllShared(a: Snapshot, existing: Slot, index: seq<Entry>, kinds: seq<Kind>) {
    && |kinds| <= |index|
    && forall j :: 0 <= j < |kinds| && Shareable(a, existing, index[j]) ==> kinds[j].Hardlink?
  }

  lemma StillReadonly(a: Snapshot, b: Snapshot, staging: Path, root: Path, entry: Entry)
    requires WellFormed(a.names, a.inodes) && NoneAt(a.names, staging) && Kept(a, b, staging)
    ensures Readonly(a, root, entry) ==> Readonly(b, root, entry)
  {
    hide Place, Permissions, ReadonlyMode;
  }

  lemma ShareableMeans(a: Snapshot, existing: Slot, payload: Path, entry: Entry)
    ensures Shareable(a, existing, entry) ==>
              && existing.Slot? && Readonly(a, SourceOf(existing, payload, entry), entry)
              && exists i :: 0 <= i < |existing.index| && SameFile(existing.index[i], entry)
                             && ReadonlyMode(existing.index[i].unixMode) == ReadonlyMode(entry.unixMode)
  {
    hide Readonly, SameFile, ReadonlyMode;
  }

  lemma NoneShared(a: Snapshot, existing: Slot, index: seq<Entry>)
    ensures AllShared(a, existing, index, [])
  {
  }

  lemma OneMoreShared(a: Snapshot, existing: Slot, index: seq<Entry>, kinds: seq<Kind>, kind: Kind)
    requires AllShared(a, existing, index, kinds) && |kinds| < |index|
    requires Shareable(a, existing, index[|kinds|]) ==> kind.Hardlink?
    ensures AllShared(a, existing, index, kinds + [kind])
  {
    hide Shareable;
  }

  lemma {:induction false} TotalGrows(index: seq<Entry>, k: nat)
    requires k <= |index|
    ensures TotalSize(index[..k]) <= TotalSize(index)
    decreases |index|
  {
    if k < |index| {
      var n := |index| - 1;
      TotalGrows(index[..n], k);
      assert index[..n][..k] == index[..k];
    } else {
      assert index[..k] == index;
    }
  }

  /** find_entry, and what it means for the transfer: a link is tried only if the two indexes agree on the mode. */
  method ChooseSource(existing: Slot, payload: Path, entry: Entry) returns (same: bool, permit: bool, source: Path)
    requires existing.Slot? ==> Sorted(existing.index)
    ensures source == SourceOf(existing, payload, entry)
    ensures same <==> existing.Slot? && exists i :: 0 <= i < |existing.index| && SameFile(existing.index[i], entry)
    ensures same ==> existing.Slot?
    ensures source == if same then existing.directory else payload
    ensures permit <==>
              && existing.Slot?
              && (exists i :: 0 <= i < |existing.index| && SameFile(existing.index[i], entry)
                              && ReadonlyMode(existing.index[i].unixMode) == ReadonlyMode(entry.unixMode))
  {
    same, permit, source := false, false, payload;
    if existing.Slot? {
      var at;
      same, at := FindEntry(existing.index, entry);
      if same {
        OnePathOnce(existing.index, at);
        source := existing.directory;
        permit := ReadonlyMode(existing.index[at].unixMode) == ReadonlyMode(entry.unixMode);
      }
    }
  }

  lemma OneMoreAvailable(a: Snapshot, H: AuditBlock.Hash, existing: Slot, payload: Path, staging: Path, index: seq<Entry>, k: nat)
    requires k < |index| && WereAvailable(a, H, existing, payload, staging, index, k)
    ensures var source := SourceOf(existing, payload, index[k]);
            staging <= Place(source, index[k]) || Available(a, H, source, index[k]) ==>
            WereAvailable(a, H, existing, payload, staging, index, k + 1)
  {
    hide Available, SourceOf, Place;
  }

  lemma AvailableAt(a: Snapshot, H: AuditBlock.Hash, existing: Slot, payload: Path, index: seq<Entry>, k: nat)
    requires k < |index|
    ensures AllAvailable(a, H, existing, payload, index) ==> Available(a, H, SourceOf(existing, payload, index[k]), index[k])
  {
  }

  lemma NoneWereAvailable(a: Snapshot, H: AuditBlock.Hash, existing: Slot, payload: Path, staging: Path, index: seq<Entry>)
    ensures WereAvailable(a, H, existing, payload, staging, index, 0)
  {
  }

  /** One turn of the transfer loop: an unchanged file comes from the old slot, any other from the payload. */
  method TransferOne(fs: FileSystem, H: AuditBlock.Hash, existing: Slot, payload: Path, staging: Path, index: seq<Entry>, k: nat,
                     ghost a: Snapshot, ghost kinds: seq<Kind>) returns (status: Status, kind: Kind)
    requires fs.Valid() && Sorted(index) && (existing.Slot? ==> Sorted(existing.index) && IsDirectory(fs.names, existing.directory))
    requires k == |kinds| < |index| && IsDirectory(fs.names, payload) && Staging(a, Now(fs), H, staging, index, kinds)
    requires WellFormed(a.names, a.inodes) && NoneAt(a.names, staging)
    requires WereAvailable(a, H, existing, payload, staging, index, k)
    requires fs.reliable && fs.linkable ==> AllShared(a, existing, index, kinds)
    modifies fs
    ensures fs.Valid() && Kept(a, Now(fs), staging) && ModesSet(a, Now(fs), {}) && IsDirectory(fs.names, staging)
    ensures IsDirectory(fs.names, payload) && (existing.Slot? ==> IsDirectory(fs.names, existing.directory))
    ensures status.Ok? || status.Io? || status.UnsafePath? || status.HashMismatch?
    ensures status.Ok? ==>
              && Staging(a, Now(fs), H, staging, index, kinds + [kind])
              && WereAvailable(a, H, existing, payload, staging, index, k + 1)
              && (fs.reliable && fs.linkable ==> AllShared(a, existing, index, kinds + [kind]))
    ensures fs.reliable && AllAvailable(a, H, existing, payload, index) && NoConflicts(index) ==> status.Ok?
  {
    hide InPlace, Arrived, Kept, ModesSet, NewOnesClosed, Place, Accounted, Sorted, FilesInPlace, Available, Clear, NoConflicts, NoneAt, WellFormed,
         AllAvailable, WereAvailable, SourceOf, Readonly, Shareable, AllShared, SameFile;
    var same, permit, source := ChooseSource(existing, payload, index[k]);
    ShareableMeans(a, existing, payload, index[k]);
    ghost var before := Now(fs);
    StillAvailable(a, before, H, staging, source, index[k]);
    StillReadonly(a, before, staging, source, index[k]);
    AvailableAt(a, H, existing, payload, index, k);
    OneMoreAvailable(a, H, existing, payload, staging, index, k);
    if NoConflicts(index) {
      RoomFor(before.names, staging, index, k);
    }
    status, kind := TransferFile(fs, H, source, staging, index[k], permit, same);
    BelowRoot(staging, index[k]);
    GrowthIsKept(a, before, Now(fs), staging, Place(staging, index[k]));
    GrowthSetsNothing(a, before, Now(fs), staging, Place(staging, index[k]));
    if status.Ok? {
      StagingStep(a, before, Now(fs), H, staging, index, kinds, kind);
      if fs.reliable && fs.linkable {
        OneMoreShared(a, existing, index, kinds, kind);
      }
    }
  }

  /** The transfer loop, with its counters. */
  method TransferAll(fs: FileSystem, H: AuditBlock.Hash, existing: Slot, payload: Path, staging: Path, index: seq<Entry>, ghost a: Snapshot)
    returns (status: Status, stats: Stats, ghost kinds: seq<Kind>)
    requires fs.Valid() && Sorted(index) && (existing.Slot? ==> Sorted(existing.index) && IsDirectory(fs.names, existing.directory))
    requires IsDirectory(fs.names, payload) && Staging(a, Now(fs), H, staging, index, [])
    requires WellFormed(a.names, a.inodes) && NoneAt(a.names, staging)
    modifies fs
    ensures fs.Valid() && Kept(a, Now(fs), staging) && ModesSet(a, Now(fs), {}) && IsDirectory(fs.names, staging)
    ensures status.Ok? || status.Io? || status.UnsafePath? || status.HashMismatch?
    ensures status.Ok? ==> |kinds| == |index| && Staging(a, Now(fs), H, staging, index, kinds) && Tallied(stats, kinds)
    ensures status.Ok? ==> stats.bytes == TotalSize(index) < U64
    ensures status.Ok? ==> WereAvailable(a, H, existing, payload, staging, index, |index|)
    ensures status.Ok? && fs.reliable && fs.linkable ==> AllShared(a, existing, index, kinds)
    ensures fs.reliable && AllAvailable(a, H, existing, payload, index) && NoConflicts(index) && TotalSize(index) < U64 ==> status.Ok?
  {
    hide Kept, ModesSet, NewOnesClosed, Accounted, Sorted, FilesInPlace, Tallied, NoConflicts, NoneAt, WellFormed, AllAvailable, WereAvailable, AllShared;
    NoneShared(a, existing, index);
    NoneWereAvailable(a, H, existing, payload, staging, index);
    stats, kinds := NO_STATS, [];
    NothingTallied();
    for position := 0 to |index|
      invariant fs.Valid() && |kinds| == position && Staging(a, Now(fs), H, staging, index, kinds)
      invariant IsDirectory(fs.names, payload) && (existing.Slot? ==> IsDirectory(fs.names, existing.directory))
      invariant Tallied(stats, kinds) && stats.bytes == TotalSize(index[..position]) < U64
      invariant WereAvailable(a, H, existing, payload, staging, index, position)
      invariant fs.reliable && fs.linkable ==> AllShared(a, existing, index, kinds)
    {
      var entry := index[position];
      var kind;
      status, kind := TransferOne(fs, H, existing, payload, staging, index, position, a, kinds);
      if !status.Ok? {
        return;
      }
      stats := Tally(stats, kind, kinds);
      kinds := kinds + [kind];
      assert index[..position + 1][..position] == index[..position];
      TotalGrows(index, position + 1);
      if entry.fileSize > U64 - 1 - stats.bytes {
        status := Io;
        return;
      }
      TalliedBytes(stats, kinds, stats.bytes + entry.fileSize);
      stats := stats.(bytes := stats.bytes + entry.fileSize);
    }
    assert index[..|index|] == index;
    status := Ok;
  }

  // ----- Sealing -----

  /** verify_directory_contents: every indexed file is read once more. */
  method VerifyDirectoryContents(fs: FileSystem, H: AuditBlock.Hash, root: Path, index: seq<Entry>) returns (status: Status)
    requires fs.Valid() && IsDirectory(fs.names, root)
    modifies fs`names
    ensures fs.names == old(fs.names) && fs.Valid()
    ensures status.Ok? || status.Io? || status.UnsafePath? || status.HashMismatch?
    ensures status.Ok? ==> forall j :: 0 <= j < |index| ==> Holds(fs, H, Place(root, index[j]), index[j])
    ensures fs.reliable && AllFixed(index) && (forall j :: 0 <= j < |index| ==> Holds(fs, H, Place(root, index[j]), index[j])) ==>
              status.Ok?
  {
    hide Mutable, Place, Reached;
    for position := 0 to |index|
      invariant fs.names == old(fs.names) && fs.Valid()
      invariant forall j :: 0 <= j < position ==> Holds(fs, H, Place(root, index[j]), index[j])
    {
      var parent, filename;
      PlaceIs(root, index[position]);
      if Place(root, index[position]) in fs.names {
        ReachedIfThere(fs.names, fs.inodes, root, Place(root, index[position]));
      }
      status, parent, filename := OpenParentDirectory(fs, root, index[position].path, false);
      if !status.Ok? {
        return;
      }
      var ok, regular, inode := fs.OpenRead(parent + [filename]);
      if !ok || !regular {
        return Io;
      }
      status := VerifyOpenFile(fs, H, regular, inode, index[position]);
      if !status.Ok? {
        return;
      }
    }
    status := Ok;
  }

  ghost predicate Holds(fs: FileSystem, H: AuditBlock.Hash, p: Path, entry: Entry)
    reads fs
  {
    p in fs.names && fs.names[p].Regular? && fs.names[p].inode in fs.inodes && Matches(H, entry, fs.inodes[fs.names[p].inode].content)
  }

  lemma PlaceIs(root: Path, entry: Entry)
    ensures Place(root, entry) == root + Components(entry.path)
  {
  }

  lemma ReadonlyIsPermissions(indexed: bv32)
    ensures Permissions(ReadonlyMode(indexed)) == ReadonlyMode(indexed)
  {
  }

  /** The tree after the mode of the file at `p` was set. */
  ghost function WithMode(b: Snapshot, p: Path, mode: bv16): Snapshot
    requires p in b.names && b.names[p].Regular? && b.names[p].inode in b.inodes
  {
    var i := b.names[p].inode;
    Snapshot(b.names, b.inodes[i := b.inodes[i].(mode := mode)])
  }

  /** Setting one mode changes no permissions of an old inode, though the old slot may share it. */
  lemma SealKeeps(a: Snapshot, b: Snapshot, H: AuditBlock.Hash, root: Path, p: Path, entry: Entry, kind: Kind)
    requires Kept(a, b, root) && InPlace(a, b, H, p, entry, kind, false)
    ensures Kept(a, WithMode(b, p, ReadonlyMode(entry.unixMode)), root)
    ensures InPlace(a, WithMode(b, p, ReadonlyMode(entry.unixMode)), H, p, entry, kind, true)
  {
    hide Matches, Permissions, ReadonlyMode;
    ReadonlyIsPermissions(entry.unixMode);
  }

  /** Nor does it disturb another file of the package, though the two may share an inode. */
  lemma SealsApart(a: Snapshot, b: Snapshot, H: AuditBlock.Hash, p: Path, entry: Entry, kind: Kind,
                   q: Path, other: Entry, otherKind: Kind, final: bool)
    requires InPlace(a, b, H, p, entry, kind, false) && InPlace(a, b, H, q, other, otherKind, final) && p != q
    ensures InPlace(a, WithMode(b, p, ReadonlyMode(entry.unixMode)), H, q, other, otherKind, final)
  {
    hide Matches, Permissions, ReadonlyMode;
    ReadonlyIsPermissions(entry.unixMode);
    ReadonlyIsPermissions(other.unixMode);
  }

  lemma SealStep(a: Snapshot, b: Snapshot, H: AuditBlock.Hash, root: Path, index: seq<Entry>, kinds: seq<Kind>, k: nat)
    requires Kept(a, b, root) && FilesInPlace(a, b, H, root, index, kinds, k)
    requires k < |kinds| == |index| && Sorted(index)
    ensures InPlace(a, b, H, Place(root, index[k]), index[k], kinds[k], false)
    ensures var c := WithMode(b, Place(root, index[k]), ReadonlyMode(index[k].unixMode));
            Kept(a, c, root) && FilesInPlace(a, c, H, root, index, kinds, k + 1)
  {
    var p := Place(root, index[k]);
    assert InPlace(a, b, H, p, index[k], kinds[k], false);
    var c := WithMode(b, p, ReadonlyMode(index[k].unixMode));
    hide InPlace, Kept, Place, Sorted, WithMode;
    SealKeeps(a, b, H, root, p, index[k], kinds[k]);
    forall j | 0 <= j < |kinds|
      ensures InPlace(a, c, H, Place(root, index[j]), index[j], kinds[j], j < k + 1)
    {
      if j != k {
        PlacesApart(index, root, j, k);
        SealsApart(a, b, H, p, index[k], kinds[k], Place(root, index[j]), index[j], kinds[j], j < k);
      }
    }
  }

  /** The old inodes that the first files of the package share. */
  ghost function SharedInodes(a: Snapshot, names: map<Path, Object>, root: Path, index: seq<Entry>, count: nat): (shared: set<nat>)
    requires count <= |index|
    ensures shared <= a.inodes.Keys
  {
    set j | 0 <= j < count && Place(root, index[j]) in names && names[Place(root, index[j])].Regular? &&
            names[Place(root, index[j])].inode in a.inodes :: names[Place(root, index[j])].inode
  }

  lemma SealSets(a: Snapshot, b: Snapshot, H: AuditBlock.Hash, root: Path, index: seq<Entry>, kinds: seq<Kind>, k: nat)
    requires FilesInPlace(a, b, H, root, index, kinds, k) && k < |kinds| == |index| && Sorted(index)
    requires ModesSet(a, b, SharedInodes(a, b.names, root, index, k))
    requires InPlace(a, b, H, Place(root, index[k]), index[k], kinds[k], false)
    ensures ModesSet(a, WithMode(b, Place(root, index[k]), ReadonlyMode(index[k].unixMode)), SharedInodes(a, b.names, root, index, k + 1))
  {
    hide Matches, Place, Sorted, Permissions, ReadonlyMode, Private, FilesInPlace;
    var i := b.names[Place(root, index[k])].inode;
    var done, more := SharedInodes(a, b.names, root, index, k), SharedInodes(a, b.names, root, index, k + 1);
    assert more == done + (if i in a.inodes then {i} else {}) by {
      forall x | x in more
        ensures x in done || (x == i && i in a.inodes)
      {
        var j :| 0 <= j < k + 1 && Place(root, index[j]) in b.names && b.names[Place(root, index[j])].Regular? &&
                 b.names[Place(root, index[j])].inode == x;
      }
    }
    if i in a.inodes {
      PermissionsTwice(a.inodes[i].mode);
    }
  }

  lemma PermissionsTwice(mode: bv16)
    ensures Permissions(Permissions(mode)) == Permissions(mode)
  {
  }

  /** enforce_file_permissions. */
  method EnforceFilePermissions(fs: FileSystem, H: AuditBlock.Hash, root: Path, index: seq<Entry>, ghost a: Snapshot, ghost kinds: seq<Kind>)
    returns (status: Status, ghost count: nat)
    requires fs.Valid() && Staging(a, Now(fs), H, root, index, kinds) && |kinds| == |index| && Sorted(index)
    modifies fs
    ensures fs.Valid() && fs.names == old(fs.names) && Kept(a, Now(fs), root)
    ensures status.Ok? || status.Io? || status.UnsafePath?
    ensures status.Ok? ==> FilesInPlace(a, Now(fs), H, root, index, kinds, |index|) && count == |index|
    ensures count <= |index| && ModesSet(a, Now(fs), SharedInodes(a, fs.names, root, index, count))
    ensures fs.reliable && AllFixed(index) ==> status.Ok?
  {
    count := 0;
    assert SharedInodes(a, fs.names, root, index, 0) == {};
    hide InPlace, Kept, ModesSet, SharedInodes, NewOnesClosed, Accounted, Sorted, FilesInPlace, Mutable, Reached;
    for position := 0 to |index|
      invariant fs.Valid() && fs.names == old(fs.names) && Kept(a, Now(fs), root)
      invariant FilesInPlace(a, Now(fs), H, root, index, kinds, position)
      invariant count == position && ModesSet(a, Now(fs), SharedInodes(a, fs.names, root, index, count))
    {
      ghost var before := Now(fs);
      SealStep(a, before, H, root, index, kinds, position);
      InPlaceIsFile(a, before, H, Place(root, index[position]), index[position], kinds[position], false);
      ReachedIfThere(fs.names, fs.inodes, root, Place(root, index[position]));
      var parent, filename;
      status, parent, filename := OpenParentDirectory(fs, root, index[position].path, false);
      if !status.Ok? {
        return;
      }
      var ok := fs.ChangeMode(parent + [filename], ReadonlyMode(index[position].unixMode));
      if !ok {
        return Io, count;
      }
      SealSets(a, before, H, root, index, kinds, position);
      count := count + 1;
    }
    status := Ok;
  }

  lemma InPlaceIsFile(a: Snapshot, b: Snapshot, H: AuditBlock.Hash, p: Path, entry: Entry, kind: Kind, final: bool)
    requires InPlace(a, b, H, p, entry, kind, final)
    ensures p in b.names && b.names[p].Regular? && b.names[p].inode in b.inodes
  {
  }

  /** Everything is in its final state, but under the staging name. */
  ghost predicate Sealed(a: Snapshot, b: Snapshot, H: AuditBlock.Hash, root: Path, index: seq<Entry>, kinds: seq<Kind>) {
    Installed(a, b, H, root, index, kinds) && Kept(a, b, root)
  }

  lemma ModesOfDirectoriesOnly(a: Snapshot, b: Snapshot, c: Snapshot, H: AuditBlock.Hash, root: Path, index: seq<Entry>, kinds: seq<Kind>)
    requires Kept(a, b, root) && OnlyModes(b.names, c.names, root) && b.inodes == c.inodes
    ensures Kept(a, c, root)
    ensures FilesInPlace(a, b, H, root, index, kinds, |index|) ==> FilesInPlace(a, c, H, root, index, kinds, |index|)
    ensures Accounted(b.names, root, index, |index|) ==> Accounted(c.names, root, index, |index|)
  {
    hide Matches, Permissions, ReadonlyMode, Place;
    if Accounted(b.names, root, index, |index|) {
      forall q | q in c.names && root < q
        ensures exists j :: 0 <= j < |index| && (q == Place(root, index[j]) || (c.names[q].Directory? && q < Place(root, index[j])))
      {
        var j :| 0 <= j < |index| && (q == Place(root, index[j]) || (b.names[q].Directory? && q < Place(root, index[j])));
      }
    }
  }

  lemma FilesHold(fs: FileSystem, a: Snapshot, H: AuditBlock.Hash, root: Path, index: seq<Entry>, kinds: seq<Kind>)
    requires FilesInPlace(a, Now(fs), H, root, index, kinds, 0) && |kinds| == |index|
    ensures forall j :: 0 <= j < |index| ==> Holds(fs, H, Place(root, index[j]), index[j])
  {
    hide Place, Matches, Permissions, ReadonlyMode;
    forall j | 0 <= j < |index|
      ensures Holds(fs, H, Place(root, index[j]), index[j])
    {
      assert InPlace(a, Now(fs), H, Place(root, index[j]), index[j], kinds[j], false);
    }
  }

  /** Every touched inode already had the permissions of some file of the package. */
  ghost predicate AllAgreed(a: Snapshot, touched: set<nat>, index: seq<Entry>) {
    forall i :: i in touched ==>
      i in a.inodes && exists j :: 0 <= j < |index| && Permissions(a.inodes[i].mode) == ReadonlyMode(index[j].unixMode)
  }

  lemma NoneAgreed(a: Snapshot, index: seq<Entry>)
    ensures AllAgreed(a, {}, index)
  {
  }

  lemma SharedAgree(a: Snapshot, b: Snapshot, H: AuditBlock.Hash, root: Path, index: seq<Entry>, kinds: seq<Kind>, count: nat)
    requires FilesInPlace(a, b, H, root, index, kinds, 0) && count <= |kinds| == |index| && Kept(a, b, root)
    ensures AllAgreed(a, SharedInodes(a, b.names, root, index, count), index)
  {
    hide Matches, Place, Permissions, ReadonlyMode, Private, SameOutside;
    var shared := SharedInodes(a, b.names, root, index, count);
    forall i | i in shared
      ensures exists j :: 0 <= j < |index| && Permissions(a.inodes[i].mode) == ReadonlyMode(index[j].unixMode)
    {
      var j :| 0 <= j < count && Place(root, index[j]) in b.names && b.names[Place(root, index[j])].Regular? &&
               b.names[Place(root, index[j])].inode == i;
      assert InPlace(a, b, H, Place(root, index[j]), index[j], kinds[j], false);
    }
  }

  lemma SameModes(a: Snapshot, b: Snapshot, c: Snapshot, touched: set<nat>)
    requires ModesSet(a, b, touched) && b.inodes == c.inodes
    ensures ModesSet(a, c, touched)
  {
  }

  lemma SameShared(a: Snapshot, names: map<Path, Object>, after: map<Path, Object>, root: Path, index: seq<Entry>)
    requires OnlyModes(names, after, root)
    ensures SharedInodes(a, after, root, index, |index|) == SharedInodes(a, names, root, index, |index|)
  {
    hide Place;
    forall j | 0 <= j < |index|
      ensures Place(root, index[j]) in names <==> Place(root, index[j]) in after
      ensures Place(root, index[j]) in names ==>
                (names[Place(root, index[j])].Regular? <==> after[Place(root, index[j])].Regular?) &&
                (names[Place(root, index[j])].Regular? ==> names[Place(root, index[j])] == after[Place(root, index[j])])
    {
    }
  }

  lemma MovedShared(a: Snapshot, names: map<Path, Object>, after: map<Path, Object>, staging: Path, target: Path, index: seq<Entry>)
    requires Moved(names, after, staging, target)
    ensures SharedInodes(a, after, target, index, |index|) == SharedInodes(a, names, staging, index, |index|)
  {
    forall j | 0 <= j < |index|
      ensures Place(staging, index[j]) in names <==> Place(target, index[j]) in after
      ensures Place(staging, index[j]) in names ==> names[Place(staging, index[j])] == after[Place(target, index[j])]
    {
      assert staging + Place(target, index[j])[|target|..] == Place(staging, index[j]);
    }
  }

  /** Verification, file modes, directory modes and the final sync of the staging directory. */
  method Seal(fs: FileSystem, H: AuditBlock.Hash, staging: Path, index: seq<Entry>, ghost a: Snapshot, ghost kinds: seq<Kind>)
    returns (status: Status, ghost touched: set<nat>)
    requires fs.Valid() && Staging(a, Now(fs), H, staging, index, kinds) && |kinds| == |index| && Sorted(index)
    modifies fs
    ensures fs.Valid() && Kept(a, Now(fs), staging) && IsDirectory(fs.names, staging)
    ensures status.Ok? || status.Io? || status.UnsafePath? || status.HashMismatch?
    ensures status.Ok? ==> Sealed(a, Now(fs), H, staging, index, kinds)
    ensures ModesSet(a, Now(fs), touched) && AllAgreed(a, touched, index)
    ensures status.Ok? ==> touched == SharedInodes(a, fs.names, staging, index, |index|)
    ensures fs.reliable && AllFixed(index) ==> status.Ok?
  {
    touched := {};
    ghost var staged := Now(fs);
    FilesHold(fs, a, H, staging, index, kinds);
    hide InPlace, Kept, ModesSet, SharedInodes, AllAgreed, NewOnesClosed, Accounted, Sorted, FilesInPlace, OnlyModes, AllReadonly, AllFixed, Holds, Place;
    NoneAgreed(a, index);
    status := VerifyDirectoryContents(fs, H, staging, index);
    if !status.Ok? {
      return;
    }
    ghost var count;
    status, count := EnforceFilePermissions(fs, H, staging, index, a, kinds);
    touched := SharedInodes(a, fs.names, staging, index, count);
    SharedAgree(a, staged, H, staging, index, kinds, count);
    if !status.Ok? {
      return;
    }
    ghost var before := Now(fs);
    status := MakeDirectoriesReadonly(fs, staging);
    ghost var middle := Now(fs);
    ModesOfDirectoriesOnly(a, before, middle, H, staging, index, kinds);
    SameModes(a, before, middle, touched);
    if !status.Ok? {
      return;
    }
    var ok := fs.ChangeDirectoryMode(staging, 0x16D);
    TopReadonly(before.names, middle.names, fs.names, staging, ok);
    ModesOfDirectoriesOnly(a, before, Now(fs), H, staging, index, kinds);
    SameModes(a, before, Now(fs), touched);
    SameShared(a, before.names, fs.names, staging, index);
    var synced := fs.Works();
    status := if ok && synced then Ok else Io;
  }

  // ----- Publication -----

  lemma InPlaceMoved(a: Snapshot, b: Snapshot, c: Snapshot, H: AuditBlock.Hash, staging: Path, target: Path, entry: Entry, kind: Kind)
    requires InPlace(a, b, H, Place(staging, entry), entry, kind, true)
    requires Moved(b.names, c.names, staging, target) && b.inodes == c.inodes
    ensures InPlace(a, c, H, Place(target, entry), entry, kind, true)
  {
    hide Matches, Permissions, ReadonlyMode;
    var p := Place(target, entry);
    var i := b.names[Place(staging, entry)].inode;
    assert staging + p[|target|..] == Place(staging, entry);
    if !kind.Hardlink? {
      forall q | q in c.names && c.names[q] == Regular(i)
        ensures q == p
      {
        if target <= q {
          assert staging + q[|target|..] == Place(staging, entry);
          assert q == target + q[|target|..];
          assert q[|target|..] == (staging + q[|target|..])[|staging|..];
        } else {
          BelowRoot(staging, entry);
        }
      }
    }
  }

  lemma AccountedMoved(b: map<Path, Object>, c: map<Path, Object>, staging: Path, target: Path, index: seq<Entry>, q: Path)
    requires Accounted(b, staging, index, |index|) && Moved(b, c, staging, target) && q in c && target < q
    ensures exists j :: 0 <= j < |index| && (q == Place(target, index[j]) || (c[q].Directory? && q < Place(target, index[j])))
  {
    hide Components;
    var p := staging + q[|target|..];
    var j :| 0 <= j < |index| && (p == Place(staging, index[j]) || (b[p].Directory? && p < Place(staging, index[j])));
    var names := Components(index[j].path);
    assert p[|staging|..] == q[|target|..] && Place(staging, index[j])[|staging|..] == names;
    assert q == target + q[|target|..];
    assert q[|target|..] <= names;
    assert target + names == Place(target, index[j]);
  }

  lemma RestMoved(a: Snapshot, b: Snapshot, c: Snapshot, staging: Path, target: Path)
    requires Kept(a, b, staging) && IsDirectory(b.names, staging) && AllReadonly(b.names, staging) && NoneAt(a.names, staging)
    requires Moved(b.names, c.names, staging, target) && b.inodes == c.inodes
    ensures Kept(a, c, target) && IsDirectory(c.names, target) && AllReadonly(c.names, target)
  {
    hide Permissions;
    assert staging + target[|target|..] == staging;
  }

  /** The rename carries a sealed directory over as it is. */
  lemma RenamePublishes(a: Snapshot, b: Snapshot, c: Snapshot, H: AuditBlock.Hash, staging: Path, target: Path, index: seq<Entry>, kinds: seq<Kind>)
    requires Sealed(a, b, H, staging, index, kinds) && NoneAt(a.names, staging)
    requires Moved(b.names, c.names, staging, target) && b.inodes == c.inodes
    ensures Installed(a, c, H, target, index, kinds) && Kept(a, c, target)
  {
    RestMoved(a, b, c, staging, target);
    hide InPlace, Kept, AllReadonly, NoneAt, Moved, Place;
    forall j | 0 <= j < |kinds|
      ensures InPlace(a, c, H, Place(target, index[j]), index[j], kinds[j], true)
    {
      assert InPlace(a, b, H, Place(staging, index[j]), index[j], kinds[j], true);
      InPlaceMoved(a, b, c, H, staging, target, index[j], kinds[j]);
    }
    forall q | q in c.names && target < q
      ensures exists j :: 0 <= j < |index| && (q == Place(target, index[j]) || (c.names[q].Directory? && q < Place(target, index[j])))
    {
      AccountedMoved(b.names, c.names, staging, target, index, q);
    }
  }

  // ----- Rollback and the whole installation -----

  lemma FreshHasNoneAt(names: map<Path, Object>, inodes: map<nat, Inode>, top: Path)
    requires WellFormed(names, inodes) && top !in names
    ensures NoneAt(names, top)
  {
    forall p | p in names
      ensures !(top <= p)
    {
      assert top <= p ==> top == p || top < p;
      if top < p {
        NothingBelow(names, inodes, top, p);
      }
    }
  }

  /** cleanup_staging: a directory that is already gone is no failure, anything else in its place is. */
  method CleanupStaging(fs: FileSystem, staging: Path) returns (status: Status)
    requires fs.Valid()
    modifies fs`names
    ensures fs.Valid() && SameOutside(old(fs.names), fs.names, staging)
    ensures status.Ok? || status.Rollback?
    ensures status.Ok? ==> NoneAt(fs.names, staging)
    ensures fs.reliable ==> (status.Ok? <==> staging !in old(fs.names) || old(fs.names)[staging].Directory?)
  {
    ghost var before := fs.names;
    SameAsItself(before, staging);
    if staging !in fs.names {
      FreshHasNoneAt(fs.names, fs.inodes, staging);
      var seen := fs.Works();
      return if seen then Ok else Rollback;
    }
    var ok := fs.OpenDirectory(staging);
    if !ok {
      return Rollback;
    }
    status := RemoveTreeContents(fs, staging);
    if status.Ok? {
      ghost var middle := fs.names;
      ok := fs.Remove(staging);
      OutsideTwice(before, middle, fs.names, staging, staging);
      if !ok {
        return Rollback;
      }
      FreshHasNoneAt(fs.names, fs.inodes, staging);
    }
  }

  /** After a successful cleanup the tree has exactly the names it had. */
  lemma CleanupRestores(a: Snapshot, b: Snapshot, c: Snapshot, staging: Path)
    requires Kept(a, b, staging) && SameOutside(b.names, c.names, staging) && b.inodes == c.inodes
    requires NoneAt(a.names, staging)
    ensures Kept(a, c, staging) && (NoneAt(c.names, staging) ==> c.names == a.names)
  {
    hide Permissions;
    if NoneAt(c.names, staging) {
      assert forall p :: p in c.names <==> p in a.names;
    }
  }

  /** What the file system must offer for a package to be installed. */
  ghost predicate Sources(a: Snapshot, H: AuditBlock.Hash, existing: Slot, payload: Path, index: seq<Entry>) {
    && IsDirectory(a.names, payload) && (existing.Slot? ==> IsDirectory(a.names, existing.directory))
    && AllAvailable(a, H, existing, payload, index) && NoConflicts(index) && TotalSize(index) < U64
  }

  lemma DirectoriesStand(a: Snapshot, b: Snapshot, top: Path, p: Path)
    requires Kept(a, b, top) && NoneAt(a.names, top)
    ensures IsDirectory(a.names, p) ==> IsDirectory(b.names, p)
  {
    hide Permissions;
  }

  /** The staging directory is filled and sealed. */
  method Stage(fs: FileSystem, H: AuditBlock.Hash, existing: Slot, payload: Path, staging: Path, index: seq<Entry>, ghost a: Snapshot)
    returns (status: Status, stats: Stats, ghost kinds: seq<Kind>, ghost touched: set<nat>)
    requires fs.Valid() && Sorted(index) && (existing.Slot? ==> Sorted(existing.index))
    requires Staging(a, Now(fs), H, staging, index, []) && WellFormed(a.names, a.inodes) && NoneAt(a.names, staging)
    modifies fs
    ensures fs.Valid() && Kept(a, Now(fs), staging) && IsDirectory(fs.names, staging)
    ensures status.Ok? || status.Io? || status.UnsafePath? || status.HashMismatch?
    ensures status.Ok? ==> Sealed(a, Now(fs), H, staging, index, kinds) && Tallied(stats, kinds)
    ensures status.Ok? ==> stats.bytes == TotalSize(index) < U64
    ensures status.Ok? ==> WereAvailable(a, H, existing, payload, staging, index, |index|)
    ensures status.Ok? && fs.reliable && fs.linkable ==> AllShared(a, existing, index, kinds)
    ensures ModesSet(a, Now(fs), touched) && AllAgreed(a, touched, index)
    ensures status.Ok? ==> touched == SharedInodes(a, fs.names, staging, index, |index|)
    ensures fs.reliable && AllFixed(index) && Sources(a, H, existing, payload, index) ==> status.Ok?
  {
    hide InPlace, Kept, ModesSet, AllAgreed, SharedInodes, NewOnesClosed, Accounted, Sorted, FilesInPlace, Sealed, Tallied, AllFixed, NoConflicts, AllAvailable, WereAvailable, AllShared;
    DirectoriesStand(a, Now(fs), staging, payload);
    if existing.Slot? {
      DirectoriesStand(a, Now(fs), staging, existing.directory);
    }
    stats, kinds, touched := NO_STATS, [], {};
    NoneAgreed(a, index);
    var ok := fs.OpenDirectory(staging);
    if !ok {
      return Io, stats, kinds, touched;
    }
    ok := fs.OpenDirectory(payload);
    if !ok {
      return Io, stats, kinds, touched;
    }
    if existing.Slot? {
      ok := fs.OpenDirectory(existing.directory);
      if !ok {
        return Io, stats, kinds, touched;
      }
    }
    status, stats, kinds := TransferAll(fs, H, existing, payload, staging, index, a);
    if status.Ok? {
      status, touched := Seal(fs, H, staging, index, a, kinds);
    }
  }

  lemma StagingBegins(a: Snapshot, b: Snapshot, H: AuditBlock.Hash, staging: Path, index: seq<Entry>)
    requires WellFormed(a.names, a.inodes) && staging !in a.names && b == Snapshot(a.names[staging := Directory(0x1C0)], a.inodes)
    ensures Staging(a, b, H, staging, index, [])
    ensures NoneAt(a.names, staging)
  {
    hide Permissions;
    FreshHasNoneAt(a.names, a.inodes, staging);
  }

  predicate ValidArguments(existing: Slot, index: seq<Entry>) {
    && Sorted(index) && AllFixed(index)
    && (existing.Slot? ==> Sorted(existing.index) && AllFixed(existing.index))
  }

  /** The sibling an installation works in: six characters of its name are made up. */
  function StagingPath(target: Path, suffix: string): (p: Path)
    requires target != []
    ensures |suffix| == 6 ==> p != target
    ensures p != [] && Parent(p) == Parent(target)
  {
    var name := target[|target| - 1];
    var p := Parent(target) + ["." + name + ".staging." + suffix];
    assert p[|target| - 1] != target[|target| - 1] || |suffix| != 6;
    p
  }

  /** What an installation that was refused or rolled back has done to the names. */
  ghost predicate Abandoned(a: Snapshot, b: Snapshot, staging: Path, cleaned: bool) {
    && (cleaned ==> b.names == a.names)
    && (b.names == a.names || (staging !in a.names && SameOutside(a.names, b.names, staging)))
  }

  /** What is checked before anything is made: both indexes, the parent of the target, and that the target is free. */
  method Admit(fs: FileSystem, existing: Slot, index: seq<Entry>, target: Path) returns (status: Status)
    requires target != []
    ensures status.Ok? || status.Argument? || status.Io? || status.Exists?
    ensures status.Argument? <==> !ValidArguments(existing, index)
    ensures status.Ok? ==> IsDirectory(fs.names, Parent(target)) && target !in fs.names
    ensures status.Exists? ==> target in fs.names
    ensures fs.reliable && ValidArguments(existing, index) && IsDirectory(fs.names, Parent(target)) && target !in fs.names ==>
              status.Ok?
  {
    hide Sorted, AllFixed;
    var fixed := ValidIndex(index);
    if fixed && existing.Slot? {
      fixed := ValidIndex(existing.index);
    }
    if !fixed {
      return Argument;
    }
    var ok := fs.OpenDirectory(Parent(target));
    if ok {
      ok := fs.Works();
    }
    if !ok {
      return Io;
    }
    return if target in fs.names then Exists else Ok;
  }

  /**
   alrios_layering_install. Whatever happens, every name that was there leads to the same
   file or directory with the same content and permissions. Either the target directory is
   published complete, or the target name stays free; `cleaned` says whether the staging
   directory could be removed, which the result code never tells. On a reliable file system
   it succeeds whenever the target and staging names are free and every file is available, and
   on one device it then links every file it can.
   */
  method Install(fs: FileSystem, H: AuditBlock.Hash, existing: Slot, payload: Path, index: seq<Entry>, target: Path, suffix: string)
    returns (status: Status, stats: Stats, ghost published: bool, ghost cleaned: bool, ghost kinds: seq<Kind>, ghost touched: set<nat>)
    requires fs.Valid() && target != [] && |suffix| == 6
    modifies fs
    ensures fs.Valid()
    ensures forall p :: p in old(fs.names) ==> p in fs.names && fs.names[p] == old(fs.names)[p]
    ensures forall i :: i in old(fs.inodes) ==>
              && i in fs.inodes && fs.inodes[i].content == old(fs.inodes)[i].content
              && Permissions(fs.inodes[i].mode) == Permissions(old(fs.inodes)[i].mode)
    ensures ModesSet(old(Now(fs)), Now(fs), touched) && AllAgreed(old(Now(fs)), touched, index)
    ensures published ==> touched == SharedInodes(old(Now(fs)), fs.names, target, index, |index|)
    ensures status.Argument? <==> !ValidArguments(existing, index)
    ensures target in old(fs.names) ==> (status.Argument? || status.Io? || status.Exists?) && fs.names == old(fs.names)
    ensures published ==> (status.Ok? || status.Io?) && target !in old(fs.names)
    ensures published ==> Installed(old(Now(fs)), Now(fs), H, target, index, kinds) && SameOutside(old(fs.names), fs.names, target)
    ensures !published ==> !status.Ok? && Abandoned(old(Now(fs)), Now(fs), StagingPath(target, suffix), cleaned)
    ensures published ==> WereAvailable(old(Now(fs)), H, existing, payload, StagingPath(target, suffix), index, |index|)
    ensures published && fs.reliable && fs.linkable ==> AllShared(old(Now(fs)), existing, index, kinds)
    ensures fs.reliable ==> cleaned
    ensures
      && fs.reliable && ValidArguments(existing, index) && Sources(old(Now(fs)), H, existing, payload, index)
      && IsDirectory(old(fs.names), Parent(target)) && target !in old(fs.names) && StagingPath(target, suffix) !in old(fs.names)
      ==> status.Ok?
    ensures status.Ok? ==> Tallied(stats, kinds) && stats.hardlinked + stats.reflinked + stats.copied == |index|
    ensures status.Ok? ==> stats.bytes == TotalSize(index) < U64
    ensures !status.Ok? ==> stats == NO_STATS
    ensures !status.Rollback?
  {
    hide InPlace, Kept, ModesSet, AllAgreed, SharedInodes, NewOnesClosed, Accounted, FilesInPlace, Sealed, Tallied, Installed, SameOutside, NoneAt, Moved, Sources, WereAvailable, Sorted, AllFixed, AllShared;
    stats, published, cleaned, kinds, touched := NO_STATS, false, true, [], {};
    NothingSet(Now(fs), index);
    ghost var a := Now(fs);
    status := Admit(fs, existing, index, target);
    if !status.Ok? {
      return;
    }
    FreshHasNoneAt(a.names, a.inodes, target);
    var ok, path := fs.MakeTemporary(Parent(target), "." + target[|target| - 1] + ".staging.", suffix);
    assert path == StagingPath(target, suffix);
    if !ok {
      status := Io;
      return;
    }
    StagingBegins(a, Now(fs), H, path, index);
    var counted;
    status, counted, kinds, touched := Stage(fs, H, existing, payload, path, index, a);
    ghost var last := Now(fs);
    if status.Ok? {
      ok := fs.Rename(path, target);
      if ok {
        published := true;
        RenamePublishes(a, last, Now(fs), H, path, target, index, kinds);
        MovedShared(a, last.names, fs.names, path, target, index);
        SameModes(a, last, Now(fs), touched);
        Aftermath(a, Now(fs), target);
        var synced := fs.Works();
        if !synced {
          status := Io;
          return;
        }
        stats := counted;
        TallySum(stats, kinds);
        InstalledAll(a, Now(fs), H, target, index, kinds);
        return;
      }
      status := if target in fs.names then Exists else Io;
    }
    var removed := CleanupStaging(fs, path);
    cleaned := removed.Ok?;
    if !removed.Ok? && status.Ok? {
      status := Rollback;
    }
    CleanupRestores(a, last, Now(fs), path);
    SameModes(a, last, Now(fs), touched);
    Aftermath(a, Now(fs), path);
  }

  lemma NothingSet(a: Snapshot, index: seq<Entry>)
    ensures ModesSet(a, a, {}) && AllAgreed(a, {}, index)
  {
  }

  lemma InstalledAll(a: Snapshot, b: Snapshot, H: AuditBlock.Hash, target: Path, index: seq<Entry>, kinds: seq<Kind>)
    requires Installed(a, b, H, target, index, kinds)
    ensures |kinds| == |index|
  {
  }

  /** What is kept, spelled out. */
  lemma Aftermath(a: Snapshot, b: Snapshot, top: Path)
    requires Kept(a, b, top) && NoneAt(a.names, top)
    ensures SameOutside(a.names, b.names, top)
    ensures forall p :: p in a.names ==> p in b.names && b.names[p] == a.names[p]
    ensures forall i :: i in a.inodes ==>
              && i in b.inodes && b.inodes[i].content == a.inodes[i].content
              && Permissions(b.inodes[i].mode) == Permissions(a.inodes[i].mode)
  {
  }

  lemma TallySum(stats: Stats, kinds: seq<Kind>)
    requires Tallied(stats, kinds)
    ensures stats.hardlinked + stats.reflinked + stats.copied == |kinds|
  {
    CountsSum(kinds);
  }

  // ----- What a published directory is -----

  lemma FileAccounted(names: map<Path, Object>, root: Path, index: seq<Entry>, q: Path)
    requires Accounted(names, root, index, |index|) && q in names && root < q && !names[q].Directory?
    ensures exists j :: 0 <= j < |index| && q == Place(root, index[j])
  {
    hide Place;
  }

  /** The files of a published directory are the indexed ones, no more and no fewer, and all its directories are read-only. */
  lemma InstalledExactly(a: Snapshot, b: Snapshot, H: AuditBlock.Hash, target: Path, index: seq<Entry>, kinds: seq<Kind>)
    requires Installed(a, b, H, target, index, kinds)
    ensures (set q | q in b.names && target <= q && !b.names[q].Directory?) == (set e | e in index :: Place(target, e))
    ensures forall q :: q in b.names && target <= q && b.names[q].Directory? ==> b.names[q] == Directory(0x16D)
  {
    hide Matches, Permissions, ReadonlyMode, Place;
    var files := set q | q in b.names && target <= q && !b.names[q].Directory?;
    var places := set e | e in index :: Place(target, e);
    forall q | q in files
      ensures q in places
    {
      assert target < q || target == q;
      FileAccounted(b.names, target, index, q);
      var j :| 0 <= j < |index| && q == Place(target, index[j]);
      assert index[j] in index;
    }
    forall q | q in places
      ensures q in files
    {
      var j :| 0 <= j < |index| && q == Place(target, index[j]);
      assert InPlace(a, b, H, q, index[j], kinds[j], true);
      BelowRoot(target, index[j]);
    }
  }

  /**
   Linking a file and setting its mode keeps the permissions, but not always the mode: bits
   above 0777 are cleared, in the old slot too. The full mode is kept exactly if there were none.
   */
  lemma LinkedModeKeptIff(a: Snapshot, b: Snapshot, H: AuditBlock.Hash, target: Path, index: seq<Entry>, kinds: seq<Kind>, j: nat)
    requires Installed(a, b, H, target, index, kinds) && Kept(a, b, target) && j < |index| && kinds[j].Hardlink?
    ensures var p := Place(target, index[j]);
            && p in b.names && b.names[p].Regular? && b.names[p].inode in a.inodes && b.names[p].inode in b.inodes
            && var i := b.names[p].inode;
               b.inodes[i].mode == a.inodes[i].mode <==> a.inodes[i].mode & 0xFE00 == 0
  {
    var p := Place(target, index[j]);
    assert InPlace(a, b, H, p, index[j], kinds[j], true);
    var i := b.names[p].inode;
    HighBits(a.inodes[i].mode, b.inodes[i].mode, index[j].unixMode);
  }

  /**
   In every outcome, also a failed one: an old inode keeps its whole mode exactly if its mode
   was not set or had no bits above 0777. A mode is set only where the permissions are those
   of an indexed file already, and after a publication just for the files that were linked.
   */
  lemma ModeKeptIff(a: Snapshot, b: Snapshot, touched: set<nat>, i: nat)
    requires ModesSet(a, b, touched) && i in a.inodes
    ensures i in b.inodes
    ensures b.inodes[i].mode == a.inodes[i].mode <==> i !in touched || a.inodes[i].mode & 0xFE00 == 0
  {
    NoHighBits(a.inodes[i].mode);
  }

  lemma NoHighBits(mode: bv16)
    ensures Permissions(mode) == mode <==> mode & 0xFE00 == 0
  {
  }

  lemma HighBits(before: bv16, after: bv16, indexed: bv32)
    requires Permissions(after) == Permissions(before) && after == ReadonlyMode(indexed)
    ensures after == before <==> before & 0xFE00 == 0
  {
  }

  const ROOT: Path := []
  const OLD_FILE: Path := ["old", "x"]

  /** A slot with one file. */
  function SlotNames(): map<Path, Object> {
    map[ROOT := Directory(0x1ED), ["old"] := Directory(0x16D), OLD_FILE := Regular(0)]
  }

  function SlotIndex(H: AuditBlock.Hash): seq<Entry> {
    [Entry("x", 0, 0x16D, H([]))]
  }

  lemma SlotIsTree(inode: Inode)
    ensures WellFormed(SlotNames(), map[0 := inode])
  {
    assert Parent(OLD_FILE) == ["old"] && Parent(["old"]) == ROOT;
  }

  lemma PlainPath()
    ensures Components("x") == ["x"] && !Mutable("x")
  {
    assert Components("x") == ["x"];
    assert AllGood(["x"]);
    assert forall i :: 0 <= i < |MUTABLE_EXTENSIONS| ==> |MUTABLE_EXTENSIONS[i]| > 1;
  }

  lemma SlotIsSource(H: AuditBlock.Hash, mode: bv16)
    requires Permissions(mode) == 0x16D
    ensures var a := Snapshot(SlotNames(), map[0 := Inode([], mode)]);
            var existing := Slot(["old"], SlotIndex(H));
            && ValidArguments(existing, SlotIndex(H)) && Sources(a, H, existing, ["old"], SlotIndex(H))
            && Shareable(a, existing, SlotIndex(H)[0])
            && Place(["new"], SlotIndex(H)[0]) == ["new", "x"]
  {
    PlainPath();
    hide Mutable, Components, Permissions;
    var index := SlotIndex(H);
    var existing := Slot(["old"], index);
    assert Place(["old"], index[0]) == OLD_FILE;
    assert index[..0] == [] && TotalSize([]) == 0;
    assert SameFile(existing.index[0], index[0]);
    ExecutableMode();
  }

  lemma ExecutableMode()
    ensures ReadonlyMode(0x16D) == 0x16D
  {
  }

  /**
   A set-user-ID file in the old slot shows it: the installation of the same package beside it
   succeeds, and 04555 has become 0555, also under the old name.
   */
  method HighBitsCanBeLost(H: AuditBlock.Hash) returns (fs: FileSystem, status: Status)
    ensures status.Ok? && fs.Valid()
    ensures OLD_FILE in fs.names && fs.names[OLD_FILE] == Regular(0) && 0 in fs.inodes
    ensures fs.inodes[0].mode == 0x16D != 0x96D
  {
    hide ValidArguments, Sources, Shareable, Installed, AllShared, WellFormed, SlotIndex, StagingPath, SameOutside,
         Abandoned, WereAvailable, Permissions, Tallied, TotalSize;
    fs := new FileSystem(SlotNames(), map[0 := Inode([], 0x96D)], true, true);
    SlotIsTree(Inode([], 0x96D));
    SetUserId();
    SlotIsSource(H, 0x96D);
    NewNamesAreFree();
    var existing := Slot(["old"], SlotIndex(H));
    var stats;
    ghost var published, cleaned, kinds, touched;
    ghost var a := Now(fs);
    status, stats, published, cleaned, kinds, touched := Install(fs, H, existing, ["old"], SlotIndex(H), ["new"], "abcdef");
    SlotShared(a, Now(fs), H, kinds);
  }

  lemma NewNamesAreFree()
    ensures IsDirectory(SlotNames(), Parent(["new"]))
    ensures ["new"] !in SlotNames() && StagingPath(["new"], "abcdef") !in SlotNames()
  {
    assert Parent(["new"]) == ROOT;
    assert StagingPath(["new"], "abcdef")[0] != "old";
  }

  /** With only one inode to share, the installed file has it, and its final mode. */
  lemma SlotShared(a: Snapshot, b: Snapshot, H: AuditBlock.Hash, kinds: seq<Kind>)
    requires Permissions(0x96D) == 0x16D && a == Snapshot(SlotNames(), map[0 := Inode([], 0x96D)])
    requires Installed(a, b, H, ["new"], SlotIndex(H), kinds) && AllShared(a, Slot(["old"], SlotIndex(H)), SlotIndex(H), kinds)
    ensures 0 in b.inodes && b.inodes[0].mode == 0x16D
  {
    SlotIsSource(H, 0x96D);
    hide Shareable, Accounted, AllReadonly, Place, Matches, Permissions, Private, Sources, ValidArguments;
    var entry := SlotIndex(H)[0];
    assert InPlace(a, b, H, Place(["new"], entry), entry, kinds[0], true);
    ExecutableMode();
  }

  lemma SetUserId()
    ensures Permissions(0x96D) == 0x16D
  {
  }
}

/** A mounted volume over whole runs: the invariant every call keeps, what each call leaves on the disk,
    and that mounting the disk again gives back the cache. */
module TcmkfsVolume {
  import opened Basics
  import opened LittleEndian
  import opened TcmkfsDisk
  import opened TcmkfsPaths
  import opened TcmkfsTree
  import opened Tcmkfs
  import opened TcmkfsFiles
  import opened TcmkfsWrites

  // ---- the disk mirrors the cache -----------------------------------------------------------------

  function Region(fs: Fs, from: nat, to: nat): Bytes
    requires from <= to && SectorAt(fs.lba, to) <= |fs.disk|
  {
    fs.disk[SectorAt(fs.lba, from)..SectorAt(fs.lba, to)]
  }

  ghost predicate TableOnDisk(fs: Fs)
    requires Sized(fs)
  {
    Region(fs, INODE_TABLE_SECTOR, BITMAP_SECTOR) == TableBytes(fs.inodes)
  }

  ghost predicate BitmapOnDisk(fs: Fs)
    requires Sized(fs)
  {
    Region(fs, BITMAP_SECTOR, META_SECTORS) == fs.bitmap
  }

  ghost predicate SuperOnDisk(fs: Fs, part: Partition)
    requires Sized(fs)
  {
    var s := SuperOf(fs);
    && s.magic == MAGIC && s.version == VERSION
    && fs.total == if s.total < Capacity(part.sectors) then s.total else Capacity(part.sectors)
  }

  ghost predicate Persisted(fs: Fs, part: Partition) {
    Sized(fs) && TableOnDisk(fs) && BitmapOnDisk(fs) && SuperOnDisk(fs, part)
  }

  /** The invariant of a mounted volume between calls, whatever the names in its table look like. */
  ghost predicate Volume(fs: Fs, part: Partition) {
    && fs.mounted && fs.lba == part.lba && DiskHolds(part, fs.disk)
    && Healthy(fs) && Persisted(fs, part)
  }

  lemma FlushedTable(fs: Fs)
    requires Sized(fs)
    ensures var g := InodesFlushed(fs);
            && Region(g, INODE_TABLE_SECTOR, BITMAP_SECTOR) == TableBytes(fs.inodes)
            && Region(g, 0, 1) == Region(fs, 0, 1)
            && Region(g, BITMAP_SECTOR, META_SECTORS) == Region(fs, BITMAP_SECTOR, META_SECTORS)
  {
  }

  lemma FlushedBitmap(fs: Fs)
    requires Sized(fs)
    ensures var g := BitmapFlushed(fs);
            && Region(g, BITMAP_SECTOR, META_SECTORS) == fs.bitmap
            && Region(g, 0, 1) == Region(fs, 0, 1)
            && Region(g, INODE_TABLE_SECTOR, BITMAP_SECTOR) == Region(fs, INODE_TABLE_SECTOR, BITMAP_SECTOR)
  {
  }

  lemma WrittenSuper(fs: Fs, s: Super)
    requires Sized(fs) && |s.title| == 16
    ensures var g := SuperWritten(fs, s);
            && SuperOf(g) == s
            && Region(g, INODE_TABLE_SECTOR, BITMAP_SECTOR) == Region(fs, INODE_TABLE_SECTOR, BITMAP_SECTOR)
            && Region(g, BITMAP_SECTOR, META_SECTORS) == Region(fs, BITMAP_SECTOR, META_SECTORS)
  {
    var g := SuperWritten(fs, s);
    assert Region(g, 0, 1) == SuperBytes(s);
    SuperRoundTrip(s);
  }

  // ---- what a call may touch ------------------------------------------------------------------------

  /** Disk addresses that are neither metadata nor data blocks of the volume: other partitions and the
      boot area. */
  ghost predicate Foreign(fs: Fs, a: nat) {
    || a < SectorAt(fs.lba, 0)
    || SectorAt(fs.lba, META_SECTORS) <= a < BlockAt(fs.lba, 0)
    || a >= BlockAt(fs.lba, fs.total)
  }

  ghost predicate ForeignKept(fs: Fs, g: Fs) {
    |g.disk| == |fs.disk| && forall a: nat {:trigger g.disk[a]} :: a < |fs.disk| && Foreign(fs, a) ==>
      g.disk[a] == fs.disk[a]
  }

  /** Data blocks lie between sector 4096 of the partition and its end. */
  lemma BlocksInsidePartition(fs: Fs, part: Partition, b: nat)
    requires Volume(fs, part) && b < fs.total
    ensures SectorAt(part.lba, DATA_START) <= BlockAt(part.lba, b)
    ensures BlockAt(part.lba, b) + BLOCK <= BlockAt(part.lba, fs.total) <= SectorAt(part.lba, part.sectors)
  {
  }

  // ---- directories ----------------------------------------------------------------------------------

  /** An inode without blocks replaced by another. */
  lemma BlocklessHealthy(fs: Fs, i: nat, x: Inode)
    requires Healthy(fs) && i < MAX_INODES && fs.inodes[i].size == 0 && x.size == 0 && x.blocks == NoBlocks()
    ensures Healthy(InodesFlushed(SetInode(fs, i, x)))
  {
    var g := InodesFlushed(SetInode(fs, i, x));
    forall l: nat, k: nat, b: nat ensures Owns(g.inodes, BY_SIZE, l, k, b) == Owns(fs.inodes, BY_SIZE, l, k, b) {
    }
    Reclaim(fs, g, BY_SIZE, BY_SIZE);
    forall j | 0 <= j < MAX_INODES
      ensures BlocksIn(g, j, BlockCount(g.inodes[j].size)) && ZeroFrom(g.inodes[j].blocks, BlockCount(g.inodes[j].size))
    {
      if j != i {
        assert BlocksIn(fs, j, BlockCount(fs.inodes[j].size));
      }
    }
  }

  lemma BlocklessOthers(fs: Fs, i: nat, x: Inode)
    requires Healthy(fs) && i < MAX_INODES && Healthy(InodesFlushed(SetInode(fs, i, x)))
    ensures SameOthers(fs, InodesFlushed(SetInode(fs, i, x)), i)
  {
    var g := InodesFlushed(SetInode(fs, i, x));
    forall j: nat | IsFile(fs, j) && j != i ensures IsFile(g, j) && Contents(g, j) == Contents(fs, j) {
      forall q: nat, o: nat | q < BlockCount(fs.inodes[j].size) && o < BLOCK
        ensures ByteOf(g, j, q, o) == ByteOf(fs, j, q, o) {
        FlushKeeps(SetInode(fs, i, x), BlockAt(fs.lba, fs.inodes[j].blocks[q]) + o);
      }
      SameContents(fs, g, j);
    }
  }

  lemma BlocklessVolume(fs: Fs, part: Partition, i: nat, x: Inode)
    requires Volume(fs, part) && i < MAX_INODES && fs.inodes[i].size == 0 && x.size == 0 && x.blocks == NoBlocks()
    ensures var g := InodesFlushed(SetInode(fs, i, x));
            Volume(g, part) && SameOthers(fs, g, i) && SameVolume(fs, g) && ForeignKept(fs, g)
  {
    BlocklessHealthy(fs, i, x);
    BlocklessOthers(fs, i, x);
    FlushedTable(SetInode(fs, i, x));
  }

  lemma {:induction false} CutPadded(s: Bytes, n: nat)
    ensures Cut(s + ZeroBytes(n)) == Cut(s)
  {
    if s == [] {
      assert s + ZeroBytes(n) == ZeroBytes(n);
    } else if s[0] != 0 {
      CutPadded(s[1..], n);
      assert (s + ZeroBytes(n))[1..] == s[1..] + ZeroBytes(n);
    }
  }

  lemma {:induction false} CutClean(s: Bytes)
    requires 0 !in s
    ensures Cut(s) == s
  {
    if s != [] {
      CutClean(s[1..]);
    }
  }

  /** Where a new inode goes: below a live directory at most seven steps from the root. */
  lemma ParentHangs(t: Table, path: Bytes)
    requires Tree(t) && SplitParent(t, path).Ok? && Resolve(t, path).None?
    ensures var (d, leaf) := SplitParent(t, path).value;
            && Live(t, d) && t[d].kind == KIND_DIR && leaf != [DOT] && SLASH !in leaf && ChildOf(t, d, leaf) == None
            && |Components(Dir(Trimmed(path)))| < MAX_DEPTH && Hangs(t, d, |Components(Dir(Trimmed(path)))|)
  {
    SplitParentResolves(t, path);
    ComponentsClean(Dir(Trimmed(path)));
    WalkEnds(t, Components(Dir(Trimmed(path))));
  }

  /** A new inode keeps the tree exactly when what can be read back of its name is well formed and not
      taken: `name_of` stops at a zero byte, but `create` looked up the whole component. */
  lemma MadeTree(fs: Fs, path: Bytes, kind: U32, now: U32)
    requires Sized(fs) && Tree(fs.inodes) && kind != KIND_FREE && Made(fs, path, kind, now).1.Ok?
    ensures SplitParent(fs.inodes, path).Ok?
    ensures var (d, leaf) := SplitParent(fs.inodes, path).value;
            Tree(Made(fs, path, kind, now).0.inodes) <==>
              GoodName(Cut(leaf)) && ChildOf(fs.inodes, d, Cut(leaf)) == None
  {
    ParentHangs(fs.inodes, path);
    var (d, leaf) := SplitParent(fs.inodes, path).value;
    var i := Made(fs, path, kind, now).1.value;
    CutPadded(leaf, MAX_NAME - |leaf|);
    TreeWith(fs.inodes, i, NewInode(d, leaf, kind, now), d, |Components(Dir(Trimmed(path)))|);
  }

  lemma LeafClean(p: Bytes)
    requires 0 !in p
    ensures 0 !in Leaf(p)
  {
    forall k | 0 <= k < |Leaf(p)| ensures Leaf(p)[k] != 0 {
      assert Leaf(p)[k] == p[|p| - |Leaf(p)| + k];
    }
  }

  lemma TrimmedClean(p: Bytes)
    requires 0 !in p
    ensures 0 !in Trimmed(p)
  {
    forall k | 0 <= k < |Trimmed(p)| ensures Trimmed(p)[k] != 0 {
      assert Trimmed(p)[k] == p[k];
    }
  }

  lemma SplitLeafIs(t: Table, path: Bytes)
    requires SplitParent(t, path).Ok?
    ensures SplitParent(t, path).value.1 == Leaf(Trimmed(path))
  {
  }

  /** A name without zero bytes reads back as it was given. */
  lemma NameReadBack(d: U32, leaf: Bytes, kind: U32, now: U32)
    requires 0 !in leaf && |leaf| < MAX_NAME
    ensures Cut(leaf) == leaf && NameOf(NewInode(d, leaf, kind, now)) == leaf
  {
    CutPadded(leaf, MAX_NAME - |leaf|);
    CutClean(leaf);
  }

  /** So does the leaf of a path without zero bytes. */
  lemma NewName(t: Table, path: Bytes, kind: U32, now: U32)
    requires SplitParent(t, path).Ok? && 0 !in path
    ensures var (d, leaf) := SplitParent(t, path).value;
            Cut(leaf) == leaf && NameOf(NewInode(d, leaf, kind, now)) == leaf
  {
    hide SplitParent, Leaf, Trimmed, Cut, NewInode, NameOf;
    TrimmedClean(path);
    LeafClean(Trimmed(path));
    SplitLeafIs(t, path);
    NameReadBack(SplitParent(t, path).value.0, SplitParent(t, path).value.1, kind, now);
  }

  /** A path without zero bytes is always fine. */
  lemma MadeCleanTree(fs: Fs, path: Bytes, kind: U32, now: U32)
    requires Sized(fs) && Tree(fs.inodes) && kind != KIND_FREE && Made(fs, path, kind, now).1.Ok? && 0 !in path
    ensures Tree(Made(fs, path, kind, now).0.inodes)
  {
    MadeTree(fs, path, kind, now);
    ParentHangs(fs.inodes, path);
    NewName(fs.inodes, path, kind, now);
  }

  // ---- resolving after a change ---------------------------------------------------------------------

  lemma {:induction false} NamesWith(t: Table, k: nat, x: Inode, i: nat, n: nat)
    requires Hangs(t, i, n) && k != ROOT && k < MAX_INODES && t[k].kind == KIND_FREE
    ensures Hangs(t[k := x], i, n) && Names(t[k := x], i, n) == Names(t, i, n)
    decreases n
  {
    HangsWith(t, k, x, i, n);
    if i != ROOT {
      NamesWith(t, k, x, t[i].parent, n - 1);
    }
  }

  /** Every path that led somewhere still leads there after a new inode. */
  lemma ResolveKept(t: Table, k: nat, x: Inode, path: Bytes)
    requires Tree(t) && k != ROOT && k < MAX_INODES && t[k].kind == KIND_FREE && Tree(t[k := x])
      && Resolve(t, path).Some?
    ensures Resolve(t[k := x], path) == Resolve(t, path)
  {
    var comps := Components(path);
    ComponentsClean(path);
    WalkEnds(t, comps);
    var i := Resolve(t, path).value;
    NamesWith(t, k, x, i, |comps|);
    WalkNames(t[k := x], i, |comps|);
  }

  /** Every path that led somewhere still leads there after `mkdir` or `create`. */
  lemma MadeKeepsPaths(fs: Fs, path: Bytes, kind: U32, now: U32, other: Bytes)
    requires Sized(fs) && Tree(fs.inodes) && kind != KIND_FREE && Made(fs, path, kind, now).1.Ok? && 0 !in path
    requires Resolve(fs.inodes, other).Some?
    ensures Resolve(Made(fs, path, kind, now).0.inodes, other) == Resolve(fs.inodes, other)
  {
    MadeCleanTree(fs, path, kind, now);
    var (d, leaf) := SplitParent(fs.inodes, path).value;
    ResolveKept(fs.inodes, Made(fs, path, kind, now).1.value, NewInode(d, leaf, kind, now), other);
  }

  /** `mkdir` and `create` make what the path then resolves to: an empty file, or a directory without
      children. */
  lemma MadeResolves(fs: Fs, path: Bytes, kind: U32, now: U32)
    requires Sized(fs) && Tree(fs.inodes) && kind != KIND_FREE && Made(fs, path, kind, now).1.Ok? && 0 !in path
    ensures var (g, r) := Made(fs, path, kind, now);
            && Resolve(g.inodes, path) == Some(r.value)
            && g.inodes[r.value].kind == kind && g.inodes[r.value].size == 0 && !HasChild(g.inodes, r.value)
  {
    hide Tree, Resolve, SplitParent, InodesFlushed, NewInode, Hangs, ChildOf;
    MadeShape(fs, path, kind, now);
    MadeCleanTree(fs, path, kind, now);
    ParentHangs(fs.inodes, path);
    SplitParentResolves(fs.inodes, path);
    var k, d, leaf := Made(fs, path, kind, now).1.value, SplitParent(fs.inodes, path).value.0,
      SplitParent(fs.inodes, path).value.1;
    MadeKeepsPaths(fs, path, kind, now, Dir(Trimmed(path)));
    MadeFound(fs.inodes, k, path, kind, now);
    NoChildYet(fs.inodes, k, NewInode(d, leaf, kind, now));
    NewFields(d, leaf, kind, now);
  }

  /** A new inode in a slot that was free. */
  lemma MadeShape(fs: Fs, path: Bytes, kind: U32, now: U32)
    requires Sized(fs) && Made(fs, path, kind, now).1.Ok?
    ensures SplitParent(fs.inodes, path).Ok? && Resolve(fs.inodes, path).None?
    ensures var (g, r) := Made(fs, path, kind, now);
            && r.value < MAX_INODES && r.value != ROOT && fs.inodes[r.value].kind == KIND_FREE
            && g.inodes == fs.inodes[r.value :=
               NewInode(SplitParent(fs.inodes, path).value.0, SplitParent(fs.inodes, path).value.1, kind, now)]
  {
  }

  lemma SameSplit(t: Table, u: Table, path: Bytes)
    requires SplitParent(t, path).Ok?
    requires var d := SplitParent(t, path).value.0; Resolve(u, Dir(Trimmed(path))) == Some(d) && u[d].kind == KIND_DIR
    ensures SplitParent(u, path) == SplitParent(t, path)
  {
  }

  lemma NewFields(d: U32, leaf: Bytes, kind: U32, now: U32)
    requires |leaf| <= MAX_NAME
    ensures var x := NewInode(d, leaf, kind, now);
            x.kind == kind && x.parent == d && x.size == 0 && x.blocks == NoBlocks()
  {
  }

  lemma MadeFound(t: Table, k: nat, path: Bytes, kind: U32, now: U32)
    requires SplitParent(t, path).Ok? && 0 !in path && k < MAX_INODES && k != ROOT && t[k].kind == KIND_FREE
      && kind != KIND_FREE
    requires SplitParent(t, path).value.1 != [DOT] && t[SplitParent(t, path).value.0].kind == KIND_DIR
    requires var (d, leaf) := SplitParent(t, path).value;
             var u := t[k := NewInode(d, leaf, kind, now)];
             Tree(u) && Resolve(u, Dir(Trimmed(path))) == Some(d)
    ensures var (d, leaf) := SplitParent(t, path).value; Resolve(t[k := NewInode(d, leaf, kind, now)], path) == Some(k)
  {
    hide Resolve, SplitParent, Tree, NewInode, Dir, Trimmed, Cut, ChildOf;
    var (d, leaf) := SplitParent(t, path).value;
    var u := t[k := NewInode(d, leaf, kind, now)];
    NewName(t, path, kind, now);
    SameSplit(t, u, path);
    SplitParentResolves(u, path);
    NewFields(d, leaf, kind, now);
    ChildFound(u, k);
  }

  lemma NoChildYet(t: Table, k: nat, x: Inode)
    requires Tree(t) && k < MAX_INODES && t[k].kind == KIND_FREE && k != ROOT
    ensures !HasChild(t[k := x], k)
  {
    forall j: nat | Live(t, j) ensures t[j].parent != k {
      if j != ROOT {
        assert Hangs(t, j, MAX_DEPTH);
      }
    }
    var u := t[k := x];
    forall j: nat | Live(u, j) && j != k ensures u[j].parent != k {
      assert Live(t, j);
    }
  }

  // ---- each call keeps the volume ---------------------------------------------------------------------

  lemma MadeVolume(fs: Fs, part: Partition, path: Bytes, kind: U32, now: U32)
    requires Volume(fs, part) && kind != KIND_FREE
    ensures var (g, r) := Made(fs, path, kind, now);
            && Volume(g, part) && SameVolume(fs, g) && ForeignKept(fs, g) && (r.Err? ==> g == fs)
            && (r.Ok? ==> SameOthers(fs, g, r.value))
  {
    hide Resolve, SplitParent, Region, Splice, TableBytes;
    var (g, r) := Made(fs, path, kind, now);
    if r.Ok? {
      var (d, leaf) := SplitParent(fs.inodes, path).value;
      assert fs.inodes[r.value].size == 0;
      BlocklessVolume(fs, part, r.value, NewInode(d, leaf, kind, now));
    }
  }

  /** A path leads to an inode of the table, also when the table is not a tree. */
  lemma ResolveBound(t: Table, path: Bytes)
    ensures Resolve(t, path).Some? ==> Resolve(t, path).value < MAX_INODES
  {
    ComponentsClean(path);
    hide Components;
    WalkBound(t, Components(path));
  }

  lemma WalkBound(t: Table, comps: seq<Bytes>)
    requires Clean(comps)
    ensures Walk(t, comps).Some? ==> Walk(t, comps).value < MAX_INODES
  {
    if comps != [] {
      assert !Skipped(comps[|comps| - 1]);
    }
  }

  /** `rmdir` removes a directory exactly when the path leads to one that is empty and not the root. */
  lemma DirRemovedVolume(fs: Fs, part: Partition, path: Bytes)
    requires Volume(fs, part)
    ensures var (g, r) := DirRemoved(fs, path);
            && Volume(g, part) && SameVolume(fs, g) && ForeignKept(fs, g) && (r.Err? ==> g == fs)
            && (r.Ok? <==> Resolve(fs.inodes, path).Some? && Resolve(fs.inodes, path).value != ROOT
                           && fs.inodes[Resolve(fs.inodes, path).value].kind == KIND_DIR
                           && !HasChild(fs.inodes, Resolve(fs.inodes, path).value))
            && (r.Ok? ==> g.inodes == fs.inodes[Resolve(fs.inodes, path).value := EmptyInode()]
                          && SameOthers(fs, g, Resolve(fs.inodes, path).value))
  {
    hide Resolve, Persisted, SameOthers;
    ResolveBound(fs.inodes, path);
    var (g, r) := DirRemoved(fs, path);
    if r.Ok? {
      var i := Resolve(fs.inodes, path).value;
      BlocklessVolume(fs, part, i, EmptyInode());
    }
  }

  /** Both tables flushed. */
  lemma FlushedVolume(fs: Fs, part: Partition, f: Fs)
    requires Volume(fs, part) && Sized(f) && SameVolume(fs, f) && Region(f, 0, 1) == Region(fs, 0, 1)
    requires var h := BitmapFlushed(InodesFlushed(f)); Healthy(h)
    ensures Volume(BitmapFlushed(InodesFlushed(f)), part)
  {
    FlushedTable(f);
    FlushedBitmap(InodesFlushed(f));
  }

  lemma FlushedForeign(f: Fs, a: nat)
    requires Sized(f) && Foreign(f, a) && a < |f.disk|
    ensures BitmapFlushed(InodesFlushed(f)).disk[a] == f.disk[a]
  {
  }

  lemma RemovedVolume(fs: Fs, part: Partition, i: nat)
    requires Volume(fs, part)
    ensures var (g, r) := FileRemoved(fs, i); Volume(g, part) && SameVolume(fs, g) && ForeignKept(fs, g)
  {
    RemoveSpec(fs, i);
    if IsFile(fs, i) {
      var f := SetInode(RemovedAll(fs, i), i, EmptyInode());
      FlushedVolume(fs, part, f);
      forall a: nat | a < |fs.disk| && Foreign(fs, a) ensures FileRemoved(fs, i).0.disk[a] == fs.disk[a] {
        FlushedForeign(f, a);
      }
    }
  }

  /** The file system once the loop of `write` is done, before anything is flushed. */
  ghost function Unflushed(fs: Fs, g: Fs, i: nat, offset: nat, data: Bytes, now: U32): (f: Fs)
    requires Ready(fs, g, i, offset, data)
    ensures Sized(f) && Stored(fs, g, i, offset, data, now) == BitmapFlushed(InodesFlushed(f))
  {
    ReadyBlocks(fs, g, i, offset, data);
    SetInode(g.(disk := DataPut(fs, g, i, offset, data)), i,
      g.inodes[i].(size := GrownSize(g, i, offset + |data|), mtime := now))
  }

  /** The loop of `write` touches no foreign sector and no metadata. */
  lemma UnflushedDisk(fs: Fs, g: Fs, i: nat, offset: nat, data: Bytes, now: U32, a: nat)
    requires Ready(fs, g, i, offset, data) && a < |fs.disk| && (Foreign(fs, a) || a < BlockAt(fs.lba, 0))
    ensures var f := Unflushed(fs, g, i, offset, data, now); |f.disk| == |fs.disk| && f.disk[a] == fs.disk[a]
  {
    var n, blocks := BlockCount(GrownSize(fs, i, offset + |data|)), g.inodes[i].blocks;
    ReadyBlocks(fs, g, i, offset, data);
    ClaimedBlocks(g, i, n);
    assert !InBlocks(g.lba, blocks, n, a);
    PutFrame(g.disk, g.lba, blocks, n, BlockCount(fs.inodes[i].size), offset, data, 0, a);
  }

  lemma StoredSuper(fs: Fs, g: Fs, i: nat, offset: nat, data: Bytes, now: U32)
    requires Sized(fs) && Ready(fs, g, i, offset, data)
    ensures var f := Unflushed(fs, g, i, offset, data, now); SameVolume(fs, f) && Region(f, 0, 1) == Region(fs, 0, 1)
  {
    var f := Unflushed(fs, g, i, offset, data, now);
    UnflushedDisk(fs, g, i, offset, data, now, 0);
    forall a | SectorAt(fs.lba, 0) <= a < SectorAt(fs.lba, 1) ensures f.disk[a] == fs.disk[a] {
      UnflushedDisk(fs, g, i, offset, data, now, a);
    }
  }

  lemma StoredForeign(fs: Fs, g: Fs, i: nat, offset: nat, data: Bytes, now: U32, a: nat)
    requires Ready(fs, g, i, offset, data) && a < |fs.disk| && Foreign(fs, a)
    ensures var h := Stored(fs, g, i, offset, data, now); |h.disk| == |fs.disk| && h.disk[a] == fs.disk[a]
  {
    UnflushedDisk(fs, g, i, offset, data, now, a);
    FlushedForeign(Unflushed(fs, g, i, offset, data, now), a);
  }

  lemma StoredVolume(fs: Fs, part: Partition, g: Fs, i: nat, offset: nat, data: Bytes, now: U32)
    requires Volume(fs, part) && Ready(fs, g, i, offset, data)
    ensures var h := Stored(fs, g, i, offset, data, now); Volume(h, part) && ForeignKept(fs, h)
  {
    hide Healthy, Ready;
    var h := Stored(fs, g, i, offset, data, now);
    StoredSpec(fs, g, i, offset, data, now);
    StoredSuper(fs, g, i, offset, data, now);
    FlushedVolume(fs, part, Unflushed(fs, g, i, offset, data, now));
    forall a: nat | a < |fs.disk| && Foreign(fs, a) ensures h.disk[a] == fs.disk[a] {
      StoredForeign(fs, g, i, offset, data, now, a);
    }
  }

  lemma StoredTree(fs: Fs, g: Fs, i: nat, offset: nat, data: Bytes, now: U32)
    requires Tree(fs.inodes) && Ready(fs, g, i, offset, data)
    ensures Tree(Stored(fs, g, i, offset, data, now).inodes)
  {
    SameTree(fs.inodes, Stored(fs, g, i, offset, data, now).inodes);
  }

  lemma WrittenVolume(fs: Fs, part: Partition, i: nat, offset: nat, data: Bytes, now: U32)
    requires Volume(fs, part)
    ensures var (g, r) := Written(fs, i, offset, data, now); Volume(g, part) && SameVolume(fs, g) && ForeignKept(fs, g)
  {
    WriteSpec(fs, i, offset, data, now);
    if IsFile(fs, i) && offset + |data| <= MAX_FILE_SIZE {
      WriteOutcome(fs, i, offset, data, now);
      var (g, ok) := WithRoom(fs, i, BlockCount(offset + |data|));
      if ok {
        StoredVolume(fs, part, g, i, offset, data, now);
      }
    }
  }

  /** The free count fits the superblock. */
  lemma FreeFits(fs: Fs)
    requires Healthy(fs)
    ensures SuperFits(fs)
  {
  }

  lemma SyncedVolume(fs: Fs, part: Partition)
    requires Volume(fs, part)
    ensures SuperFits(fs)
    ensures var (g, r) := Synced(fs);
            && r == Ok(()) && Volume(g, part) && SameVolume(fs, g) && ForeignKept(fs, g)
            && g.inodes == fs.inodes && g.bitmap == fs.bitmap && SameOthers(fs, g, MAX_INODES)
            && SuperOf(g).free == fs.free && SuperOf(g).files == FilesBelow(fs.inodes, MAX_INODES)
  {
    VolumeParts(fs, part);
    FreeFits(fs);
    SuperKept(fs);
    var f := BitmapFlushed(InodesFlushed(fs));
    var s := SuperOf(f).(free := f.free, files := FilesBelow(f.inodes, MAX_INODES));
    SyncedPersisted(fs, part, s);
    SyncedHealthy(fs, s);
    SyncedFiles(fs, s);
  }

  lemma VolumeParts(fs: Fs, part: Partition)
    requires Volume(fs, part)
    ensures Sized(fs) && Healthy(fs) && Persisted(fs, part)
  {
  }

  lemma SyncedFiles(fs: Fs, s: Super)
    requires Healthy(fs) && |s.title| == 16 && Healthy(SuperWritten(BitmapFlushed(InodesFlushed(fs)), s))
    ensures var g := SuperWritten(BitmapFlushed(InodesFlushed(fs)), s);
            SameVolume(fs, g) && ForeignKept(fs, g) && SameOthers(fs, g, MAX_INODES)
  {
    assert Sound(fs);
    var g := SuperWritten(BitmapFlushed(InodesFlushed(fs)), s);
    SyncedDisk(fs, s);
    forall j: nat | IsFile(fs, j) ensures IsFile(g, j) && Contents(g, j) == Contents(fs, j) {
      SyncedBytes(fs, g, j);
    }
  }

  lemma SuperKept(fs: Fs)
    requires Sized(fs)
    ensures SuperOf(BitmapFlushed(InodesFlushed(fs))) == SuperOf(fs)
  {
    FlushedTable(fs);
    FlushedBitmap(InodesFlushed(fs));
  }

  lemma SyncedHealthy(fs: Fs, s: Super)
    requires Healthy(fs) && |s.title| == 16
    ensures Healthy(SuperWritten(BitmapFlushed(InodesFlushed(fs)), s))
  {
    var g := SuperWritten(BitmapFlushed(InodesFlushed(fs)), s);
    Reclaim(fs, g, BY_SIZE, BY_SIZE);
    forall i | 0 <= i < MAX_INODES ensures BlocksIn(g, i, BlockCount(g.inodes[i].size)) {
      assert BlocksIn(fs, i, BlockCount(fs.inodes[i].size));
    }
  }

  lemma SyncedPersisted(fs: Fs, part: Partition, s: Super)
    requires Persisted(fs, part) && s.title == SuperOf(fs).title && s.magic == MAGIC && s.version == VERSION
      && s.total == SuperOf(fs).total
    ensures |s.title| == 16
    ensures var g := SuperWritten(BitmapFlushed(InodesFlushed(fs)), s); Persisted(g, part) && SuperOf(g) == s
  {
    var f := BitmapFlushed(InodesFlushed(fs));
    FlushedTable(fs);
    FlushedBitmap(InodesFlushed(fs));
    WrittenSuper(f, s);
  }

  lemma SyncedDisk(fs: Fs, s: Super)
    requires Sized(fs) && |s.title| == 16
    ensures var g := SuperWritten(BitmapFlushed(InodesFlushed(fs)), s);
            && |g.disk| == |fs.disk|
            && forall a: nat {:trigger g.disk[a]} ::
               a < |fs.disk| && (Foreign(fs, a) || a >= SectorAt(fs.lba, META_SECTORS)) ==> g.disk[a] == fs.disk[a]
  {
  }

  lemma SyncedBytes(fs: Fs, g: Fs, j: nat)
    requires Healthy(fs) && Healthy(g) && SameVolume(fs, g) && g.inodes == fs.inodes && IsFile(fs, j)
    requires forall a: nat :: SectorAt(fs.lba, META_SECTORS) <= a < |fs.disk| ==> g.disk[a] == fs.disk[a]
    ensures IsFile(g, j) && Contents(g, j) == Contents(fs, j)
  {
    forall q: nat, o: nat | q < BlockCount(fs.inodes[j].size) && o < BLOCK
      ensures ByteOf(g, j, q, o) == ByteOf(fs, j, q, o) {
    }
    SameContents(fs, g, j);
  }
}

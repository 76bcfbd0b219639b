/** What `read`, `write` and `remove` mean for the contents of files. */
module TcmkfsWrites {
  import opened Basics
  import opened LittleEndian
  import opened TcmkfsDisk
  import opened TcmkfsPaths
  import opened Tcmkfs
  import opened TcmkfsFiles

  /** Inode `i` claims its first `n` blocks, and only those. */
  ghost predicate Claimed(fs: Fs, i: nat, n: nat) {
    i < MAX_INODES && n <= DIRECT_BLOCKS && Books(fs, Claims(i, n, n, n))
  }

  lemma ClaimedBlocks(fs: Fs, i: nat, n: nat)
    requires Claimed(fs, i, n)
    ensures BlocksIn(fs, i, n) && Distinct(fs.inodes[i].blocks, n) && OnDisk(fs.disk, fs.lba, fs.inodes[i].blocks, n)
  {
    var c, blocks := Claims(i, n, n, n), fs.inodes[i].blocks;
    forall k | 0 <= k < n ensures blocks[k] < fs.total {
      assert Owns(fs.inodes, c, i, k, blocks[k]);
    }
    forall j, k | 0 <= j < k < n ensures blocks[j] != blocks[k] {
      assert Owns(fs.inodes, c, i, j, blocks[j]) && Owns(fs.inodes, c, i, k, blocks[k]);
    }
  }

  /** The blocks of another inode lie outside. */
  lemma OthersOutside(fs: Fs, i: nat, n: nat, j: nat, q: nat, o: nat)
    requires Claimed(fs, i, n) && j < MAX_INODES && j != i && q < BlockCount(fs.inodes[j].size) && q < DIRECT_BLOCKS
      && o < BLOCK
    ensures !InBlocks(fs.lba, fs.inodes[i].blocks, n, BlockAt(fs.lba, fs.inodes[j].blocks[q]) + o)
  {
    var c, b := Claims(i, n, n, n), fs.inodes[j].blocks[q];
    assert Owns(fs.inodes, c, j, q, b);
    forall k | 0 <= k < n ensures fs.inodes[i].blocks[k] != b {
      assert Owns(fs.inodes, c, i, k, fs.inodes[i].blocks[k]);
    }
  }

  /** The metadata and the boot area are not data. */
  lemma FlushKeeps(fs: Fs, a: nat)
    requires Sized(fs) && a < |fs.disk|
      && (a < SectorAt(fs.lba, INODE_TABLE_SECTOR) || a >= SectorAt(fs.lba, META_SECTORS))
    ensures BitmapFlushed(InodesFlushed(fs)).disk[a] == InodesFlushed(fs).disk[a] == fs.disk[a]
  {
  }

  ghost predicate SameBytes(fs: Fs, g: Fs, j: nat)
    requires Sound(fs) && Sound(g) && j < MAX_INODES
  {
    && g.inodes[j].kind == fs.inodes[j].kind && g.inodes[j].size == fs.inodes[j].size
    && forall q: nat, o: nat {:trigger ByteOf(g, j, q, o)} :: q < BlockCount(fs.inodes[j].size) && o < BLOCK ==>
       ByteOf(g, j, q, o) == ByteOf(fs, j, q, o)
  }

  /** Byte `o` of block `q` of file `j`. */
  ghost function ByteOf(fs: Fs, j: nat, q: nat, o: nat): Byte
    requires Sound(fs) && j < MAX_INODES && q < BlockCount(fs.inodes[j].size) && o < BLOCK
  {
    InOnDisk(fs, j, BlockCount(fs.inodes[j].size));
    FileByte(fs.disk, fs.lba, fs.inodes[j].blocks, q, o)
  }

  lemma SameContents(fs: Fs, g: Fs, j: nat)
    requires Sound(fs) && Sound(g) && IsFile(fs, j) && SameBytes(fs, g, j)
    ensures IsFile(g, j) && Contents(g, j) == Contents(fs, j)
  {
    forall p | 0 <= p < fs.inodes[j].size ensures Contents(g, j)[p] == Contents(fs, j)[p] {
      BlockReached(p, fs.inodes[j].size);
      assert ByteOf(g, j, p / BLOCK, p % BLOCK) == ByteOf(fs, j, p / BLOCK, p % BLOCK);
    }
  }

  // ---- write --------------------------------------------------------------------------------------

  ghost predicate SameVolume(fs: Fs, g: Fs) {
    g.mounted == fs.mounted && g.lba == fs.lba && g.total == fs.total && |g.disk| == |fs.disk|
  }

  ghost predicate SameOthers(fs: Fs, g: Fs, i: nat)
    requires Sound(fs) && Sound(g)
  {
    forall j: nat :: IsFile(fs, j) && j != i ==> IsFile(g, j) && Contents(g, j) == Contents(fs, j)
  }

  /** After the allocations inode `i` claims the blocks it had and the blocks it needs. */
  lemma Allocated(fs: Fs, i: nat, needed: nat)
    requires Healthy(fs) && IsFile(fs, i) && needed <= DIRECT_BLOCKS
    ensures var have := BlockCount(fs.inodes[i].size);
            var (g, ok) := WithRoom(fs, i, needed);
            var n := if have <= needed then needed else have;
            && (ok <==> fs.free >= needed - have) && (!ok ==> g == fs)
            && (ok ==>
                && Claimed(g, i, n) && OnlyPointers(fs, g, i) && ZeroFrom(g.inodes[i].blocks, n)
                && g.inodes[i].blocks[..have] == fs.inodes[i].blocks[..have])
  {
    var have := BlockCount(fs.inodes[i].size);
    OwnClaims(fs, i, have);
    if have <= needed {
      GrownSpec(fs, i, have, have, needed);
      var (g, ok) := Grown(fs, i, have, have, needed);
      if !ok {
        SamePointers(fs.inodes[i].blocks, g.inodes[i].blocks, have);
        assert g.inodes == fs.inodes;
        BooksDetermine(fs, g, Claims(i, have, have, have));
      }
    }
  }

  lemma SamePointers(a: seq<U32>, b: seq<U32>, n: nat)
    requires |a| == |b| && n <= |a| && a[..n] == b[..n] && ZeroFrom(a, n) && ZeroFrom(b, n)
    ensures a == b
  {
    assert forall k :: 0 <= k < n ==> a[k] == a[..n][k] && b[k] == b[..n][k];
  }

  function GrownSize(fs: Fs, i: nat, end: nat): nat
    requires i < MAX_INODES
  {
    if end > fs.inodes[i].size then end else fs.inodes[i].size
  }

  /** `g` is `fs` with the blocks for a write allocated. */
  ghost predicate Ready(fs: Fs, g: Fs, i: nat, offset: nat, data: Bytes) {
    && Healthy(fs) && IsFile(fs, i) && offset + |data| <= MAX_FILE_SIZE && OnlyPointers(fs, g, i)
    && Claimed(g, i, BlockCount(GrownSize(fs, i, offset + |data|)))
    && ZeroFrom(g.inodes[i].blocks, BlockCount(GrownSize(fs, i, offset + |data|)))
    && BlockCount(offset + |data|) <= BlockCount(GrownSize(fs, i, offset + |data|))
    && BlockCount(fs.inodes[i].size) <= BlockCount(GrownSize(fs, i, offset + |data|))
    && g.inodes[i].blocks[..BlockCount(fs.inodes[i].size)] == fs.inodes[i].blocks[..BlockCount(fs.inodes[i].size)]
  }

  lemma ReadyBlocks(fs: Fs, g: Fs, i: nat, offset: nat, data: Bytes)
    requires Ready(fs, g, i, offset, data)
    ensures Sized(g) && OnDisk(g.disk, g.lba, g.inodes[i].blocks, BlockCount(offset + |data|))
    ensures var n := BlockCount(GrownSize(fs, i, offset + |data|));
            OnDisk(g.disk, g.lba, g.inodes[i].blocks, n) && Distinct(g.inodes[i].blocks, n)
  {
    ClaimedBlocks(g, i, BlockCount(GrownSize(fs, i, offset + |data|)));
  }

  lemma LargerCount(a: nat, b: nat)
    ensures BlockCount(if a > b then a else b) == if BlockCount(b) <= BlockCount(a) then BlockCount(a)
      else BlockCount(b)
  {
  }

  /** The disk once the loop of `write` is done. */
  ghost function DataPut(fs: Fs, g: Fs, i: nat, offset: nat, data: Bytes): (d: Bytes)
    requires Ready(fs, g, i, offset, data)
    ensures |d| == |g.disk|
  {
    ReadyBlocks(fs, g, i, offset, data);
    Put(g.disk, g.lba, g.inodes[i].blocks, BlockCount(fs.inodes[i].size), offset, data, 0)
  }

  /** The file system after a successful write. */
  ghost function Stored(fs: Fs, g: Fs, i: nat, offset: nat, data: Bytes, now: U32): (h: Fs)
    requires Ready(fs, g, i, offset, data)
    ensures Sized(h)
  {
    ReadyBlocks(fs, g, i, offset, data);
    var x := g.inodes[i].(size := GrownSize(g, i, offset + |data|), mtime := now);
    BitmapFlushed(InodesFlushed(SetInode(g.(disk := DataPut(fs, g, i, offset, data)), i, x)))
  }

  lemma StoredHealthy(fs: Fs, g: Fs, i: nat, offset: nat, data: Bytes, now: U32)
    requires Ready(fs, g, i, offset, data)
    ensures Healthy(Stored(fs, g, i, offset, data, now))
  {
    var h := Stored(fs, g, i, offset, data, now);
    var n := BlockCount(h.inodes[i].size);
    ClaimedBlocks(g, i, n);
    forall l: nat, k: nat, b: nat
      ensures Owns(h.inodes, Claims(i, n, n, n), l, k, b) == Owns(g.inodes, Claims(i, n, n, n), l, k, b) {
    }
    Reclaim(g, h, Claims(i, n, n, n), Claims(i, n, n, n));
    OwnClaims(h, i, n);
    forall j | 0 <= j < MAX_INODES ensures BlocksIn(h, j, BlockCount(h.inodes[j].size)) {
      if j != i {
        assert h.inodes[j] == fs.inodes[j];
      }
    }
  }

  /** Data addresses on the disk after the write are those after the loop. */
  lemma StoredDisk(fs: Fs, g: Fs, i: nat, offset: nat, data: Bytes, now: U32, b: nat, o: nat)
    requires Ready(fs, g, i, offset, data) && BlockAt(g.lba, b) + BLOCK <= |g.disk| && o < BLOCK
    ensures |Stored(fs, g, i, offset, data, now).disk| == |g.disk|
    ensures Stored(fs, g, i, offset, data, now).disk[BlockAt(g.lba, b) + o]
      == DataPut(fs, g, i, offset, data)[BlockAt(g.lba, b) + o]
  {
    ReadyBlocks(fs, g, i, offset, data);
    var x := g.inodes[i].(size := GrownSize(g, i, offset + |data|), mtime := now);
    FlushKeeps(SetInode(g.(disk := DataPut(fs, g, i, offset, data)), i, x), BlockAt(g.lba, b) + o);
  }

  lemma StoredOther(fs: Fs, g: Fs, i: nat, offset: nat, data: Bytes, now: U32, j: nat)
    requires Ready(fs, g, i, offset, data) && Healthy(Stored(fs, g, i, offset, data, now)) && IsFile(fs, j) && j != i
    ensures SameBytes(fs, Stored(fs, g, i, offset, data, now), j)
  {
    var h := Stored(fs, g, i, offset, data, now);
    assert h.inodes[j] == fs.inodes[j] == g.inodes[j];
    assert h.lba == fs.lba == g.lba && g.disk == fs.disk;
    forall q: nat, o: nat | q < BlockCount(fs.inodes[j].size) && o < BLOCK
      ensures ByteOf(h, j, q, o) == ByteOf(fs, j, q, o) {
      InOnDisk(fs, j, BlockCount(fs.inodes[j].size));
      StoredOtherByte(fs, g, i, offset, data, now, j, q, o);
    }
  }

  lemma StoredOtherByte(fs: Fs, g: Fs, i: nat, offset: nat, data: Bytes, now: U32, j: nat, q: nat, o: nat)
    requires Ready(fs, g, i, offset, data) && IsFile(fs, j) && j != i && q < BlockCount(fs.inodes[j].size) && o < BLOCK
    requires q < DIRECT_BLOCKS && BlockAt(g.lba, g.inodes[j].blocks[q]) + BLOCK <= |g.disk|
    ensures |Stored(fs, g, i, offset, data, now).disk| == |g.disk|
    ensures var a := BlockAt(g.lba, g.inodes[j].blocks[q]) + o; Stored(fs, g, i, offset, data, now).disk[a] == g.disk[a]
  {
    hide Stored, Put, BlockCount, BlockAt, Distinct, InBlocks, Healthy, Books;
    var n, b := BlockCount(GrownSize(fs, i, offset + |data|)), g.inodes[j].blocks[q];
    ReadyBlocks(fs, g, i, offset, data);
    OthersOutside(g, i, n, j, q, o);
    PutFrame(g.disk, g.lba, g.inodes[i].blocks, n, BlockCount(fs.inodes[i].size), offset, data, 0,
      BlockAt(g.lba, b) + o);
    StoredDisk(fs, g, i, offset, data, now, b, o);
  }

  /** Byte `o` of block `q` of the written file: the data where they were written, otherwise what was
      there. */
  lemma StoredByte(fs: Fs, g: Fs, i: nat, offset: nat, data: Bytes, now: U32, q: nat, o: nat)
    requires Ready(fs, g, i, offset, data) && q < BlockCount(GrownSize(fs, i, offset + |data|)) && o < BLOCK
    requires q < DIRECT_BLOCKS && BlockAt(g.lba, g.inodes[i].blocks[q]) + BLOCK <= |g.disk|
    ensures |Stored(fs, g, i, offset, data, now).disk| == |g.disk|
    ensures var p, a := BLOCK * q + o, BlockAt(g.lba, g.inodes[i].blocks[q]) + o;
            var d := Stored(fs, g, i, offset, data, now).disk;
            && (offset <= p < offset + |data| ==> d[a] == data[p - offset])
            && (!(offset <= p < offset + |data|) && q < BlockCount(fs.inodes[i].size) ==> d[a] == g.disk[a])
  {
    hide Stored, Put, BlockCount, BlockAt, Distinct, InBlocks, Healthy, Books;
    var n, have, blocks := BlockCount(GrownSize(fs, i, offset + |data|)), BlockCount(fs.inodes[i].size),
      g.inodes[i].blocks;
    var p := BLOCK * q + o;
    ReadyBlocks(fs, g, i, offset, data);
    StoredDisk(fs, g, i, offset, data, now, blocks[q], o);
    if offset <= p < offset + |data| {
      PutStores(g.disk, g.lba, blocks, n, have, offset, data, 0, q, o);
    } else if q < have {
      PutKeeps(g.disk, g.lba, blocks, n, have, offset, data, 0, q, o, 0);
    }
  }

  lemma StoredContents(fs: Fs, g: Fs, i: nat, offset: nat, data: Bytes, now: U32, p: nat)
    requires Ready(fs, g, i, offset, data) && Sound(Stored(fs, g, i, offset, data, now))
    requires p < GrownSize(fs, i, offset + |data|) && (offset <= p || p < fs.inodes[i].size)
    ensures Contents(Stored(fs, g, i, offset, data, now), i)[p]
         == if offset <= p < offset + |data| then data[p - offset] else Contents(fs, i)[p]
  {
    hide Stored, Healthy, Contents, BlockAt, BlockCount, Claimed, Sound, Ready, IsFile;
    var h := Stored(fs, g, i, offset, data, now);
    var q, o := p / BLOCK, p % BLOCK;
    StoredInode(fs, g, i, offset, data, now, q);
    ContentsAt(h, i, p);
    StoredByte(fs, g, i, offset, data, now, q, o);
    assert p == BLOCK * q + o;
    if p < fs.inodes[i].size {
      ContentsAt(fs, i, p);
    }
  }

  lemma StoredInode(fs: Fs, g: Fs, i: nat, offset: nat, data: Bytes, now: U32, q: nat)
    requires Ready(fs, g, i, offset, data)
    ensures Sound(fs) && IsFile(fs, i)
    ensures var h := Stored(fs, g, i, offset, data, now);
            && h.inodes[i].blocks == g.inodes[i].blocks && h.inodes[i].size == GrownSize(fs, i, offset + |data|)
            && h.lba == g.lba == fs.lba && g.disk == fs.disk && |h.disk| == |g.disk| && IsFile(h, i)
            && (q < BlockCount(fs.inodes[i].size) ==>
               q < DIRECT_BLOCKS && g.inodes[i].blocks[q] == fs.inodes[i].blocks[q])
  {
    var have := BlockCount(fs.inodes[i].size);
    if q < have {
      assert g.inodes[i].blocks[q] == g.inodes[i].blocks[..have][q] == fs.inodes[i].blocks[q];
    }
  }

  lemma ContentsAt(fs: Fs, i: nat, p: nat)
    requires Sound(fs) && IsFile(fs, i) && p < fs.inodes[i].size
    ensures p / BLOCK < BlockCount(fs.inodes[i].size) && p / BLOCK < DIRECT_BLOCKS
    ensures BlockAt(fs.lba, fs.inodes[i].blocks[p / BLOCK]) + BLOCK <= |fs.disk|
    ensures Contents(fs, i)[p] == fs.disk[BlockAt(fs.lba, fs.inodes[i].blocks[p / BLOCK]) + p % BLOCK]
  {
    BlockReached(p, fs.inodes[i].size);
    InOnDisk(fs, i, BlockCount(fs.inodes[i].size));
  }

  lemma StoredSpec(fs: Fs, g: Fs, i: nat, offset: nat, data: Bytes, now: U32)
    requires Ready(fs, g, i, offset, data)
    ensures var h := Stored(fs, g, i, offset, data, now);
            && Healthy(h) && SameVolume(fs, h) && IsFile(fs, i) && IsFile(h, i) && SameOthers(fs, h, i)
            && Overwritten(Contents(fs, i), Contents(h, i), offset, data)
  {
    StoredHealthy(fs, g, i, offset, data, now);
    var h := Stored(fs, g, i, offset, data, now);
    StoredInode(fs, g, i, offset, data, now, 0);
    forall j: nat | IsFile(fs, j) && j != i ensures IsFile(h, j) && Contents(h, j) == Contents(fs, j) {
      StoredOther(fs, g, i, offset, data, now, j);
      SameContents(fs, h, j);
    }
    forall p | 0 <= p < |Contents(h, i)| && (offset <= p || p < fs.inodes[i].size)
      ensures Contents(h, i)[p] == if offset <= p < offset + |data| then data[p - offset] else Contents(fs, i)[p]
    {
      StoredContents(fs, g, i, offset, data, now, p);
    }
  }

  /** The allocations made, `write` stores the data; not made, it has changed nothing. */
  lemma WriteOutcome(fs: Fs, i: nat, offset: nat, data: Bytes, now: U32)
    requires Healthy(fs) && fs.mounted && IsFile(fs, i) && offset + |data| <= MAX_FILE_SIZE
    ensures var (g, ok) := WithRoom(fs, i, BlockCount(offset + |data|));
            && (ok <==> fs.free >= BlockCount(offset + |data|) - BlockCount(fs.inodes[i].size))
            && (ok ==>
               Ready(fs, g, i, offset, data)
                 && Written(fs, i, offset, data, now) == (Stored(fs, g, i, offset, data, now), Ok(|data|)))
            && (!ok ==> Written(fs, i, offset, data, now) == (fs, Err(Full)))
  {
    var end := offset + |data|;
    Allocated(fs, i, BlockCount(end));
    LargerCount(end, fs.inodes[i].size);
    var (g, ok) := WithRoom(fs, i, BlockCount(end));
    if ok {
      assert Ready(fs, g, i, offset, data);
    }
  }

  /** `write`: it fails only for the stated reasons and then changes nothing; otherwise the file holds
      the data from `offset` on and its old bytes elsewhere, and every other file what it held. */
  lemma WriteSpec(fs: Fs, i: nat, offset: nat, data: Bytes, now: U32)
    requires Healthy(fs) && fs.mounted
    ensures var (g, r) := Written(fs, i, offset, data, now);
            var end := offset + |data|;
            && Healthy(g) && SameVolume(fs, g)
            && (r.Err? ==> g == fs)
            && r == (if !IsFile(fs, i) then Err(NotFound)
                     else if end > MAX_FILE_SIZE then Err(FileTooLarge)
                     else if fs.free < BlockCount(end) - BlockCount(fs.inodes[i].size) then Err(Full)
                     else Ok(|data|))
            && (r.Ok? ==>
                && IsFile(fs, i) && IsFile(g, i) && SameOthers(fs, g, i)
                && Overwritten(Contents(fs, i), Contents(g, i), offset, data))
  {
    if IsFile(fs, i) && offset + |data| <= MAX_FILE_SIZE {
      WriteOutcome(fs, i, offset, data, now);
      var (g, ok) := WithRoom(fs, i, BlockCount(offset + |data|));
      if ok {
        StoredSpec(fs, g, i, offset, data, now);
      }
    }
  }

  /** `data` over `s` from `offset` on, longer than `s` if need be. */
  function Spliced(s: Bytes, offset: nat, data: Bytes): Bytes
    requires offset <= |s|
  {
    s[..offset] + data + (if offset + |data| < |s| then s[offset + |data|..] else [])
  }

  /** `t` is `s` with `data` written over it from `offset` on, as far as `write` promises. */
  ghost predicate Overwritten(s: Bytes, t: Bytes, offset: nat, data: Bytes) {
    && |t| == (if offset + |data| > |s| then offset + |data| else |s|)
    && forall p :: 0 <= p < |t| && (offset <= p || p < |s|) ==>
       t[p] == if offset <= p < offset + |data| then data[p - offset] else s[p]
  }

  lemma OverwrittenSpliced(s: Bytes, t: Bytes, offset: nat, data: Bytes)
    requires Overwritten(s, t, offset, data) && offset <= |s|
    ensures t == Spliced(s, offset, data)
  {
  }

  lemma OverwrittenSlice(s: Bytes, t: Bytes, offset: nat, data: Bytes)
    requires Overwritten(s, t, offset, data)
    ensures t[offset..offset + |data|] == data
  {
  }

  /** A write that starts inside the file splices the data into its bytes. */
  lemma WriteSplices(fs: Fs, i: nat, offset: nat, data: Bytes, now: U32)
    requires Healthy(fs) && fs.mounted && IsFile(fs, i) && offset <= fs.inodes[i].size
    ensures var (g, r) := Written(fs, i, offset, data, now);
            r.Ok? ==> Healthy(g) && IsFile(g, i) && Contents(g, i) == Spliced(Contents(fs, i), offset, data)
  {
    hide Written, Contents, Overwritten;
    WriteSpec(fs, i, offset, data, now);
    var (g, r) := Written(fs, i, offset, data, now);
    if r.Ok? {
      OverwrittenSpliced(Contents(fs, i), Contents(g, i), offset, data);
    }
  }

  /** What was written is read back. */
  lemma ReadBack(fs: Fs, i: nat, offset: nat, data: Bytes, now: U32)
    requires Healthy(fs) && fs.mounted && Written(fs, i, offset, data, now).1.Ok?
    ensures Healthy(Written(fs, i, offset, data, now).0)
    ensures ReadAt(Written(fs, i, offset, data, now).0, i, offset, |data|) == Ok(data)
  {
    hide Written, Contents;
    WriteSpec(fs, i, offset, data, now);
    var g := Written(fs, i, offset, data, now).0;
    var s := Contents(g, i);
    OverwrittenSlice(Contents(fs, i), s, offset, data);
    assert |data| == 0 || offset < |s|;
    assert |s| == offset + |data| ==> s[offset..] == s[offset..offset + |data|];
  }

  // ---- remove -------------------------------------------------------------------------------------

  ghost function RemovedAll(fs: Fs, i: nat): (g: Fs)
    requires Sound(fs) && IsFile(fs, i)
    ensures Sized(g)
  {
    assert BlocksIn(fs, i, BlockCount(fs.inodes[i].size));
    Released(fs, fs.inodes[i].blocks, 0, BlockCount(fs.inodes[i].size))
  }

  /** `remove` gives back exactly the blocks of the file, and every other file keeps its bytes. */
  lemma RemoveSpec(fs: Fs, i: nat)
    requires Healthy(fs) && fs.mounted
    ensures var (g, r) := FileRemoved(fs, i);
            && Healthy(g) && (r.Err? ==> g == fs) && r == (if IsFile(fs, i) then Ok(()) else Err(NotFound))
            && (r.Ok? ==> g.inodes == fs.inodes[i := EmptyInode()] && SameOthers(fs, g, i))
  {
    if IsFile(fs, i) {
      var n := BlockCount(fs.inodes[i].size);
      assert BlocksIn(fs, i, n);
      OwnClaims(fs, i, n);
      forall l: nat, k: nat, b: nat
        ensures Owns(fs.inodes, Claims(i, 0, 0, n), l, k, b) == Owns(fs.inodes, Claims(i, n, n, n), l, k, b) {
      }
      Reclaim(fs, fs, Claims(i, n, n, n), Claims(i, 0, 0, n));
      ReleasedSpec(fs, i, 0, n);
      var f := RemovedAll(fs, i);
      var g := FileRemoved(fs, i).0;
      forall l: nat, k: nat, b: nat
        ensures Owns(g.inodes, BY_SIZE, l, k, b) == Owns(f.inodes, Claims(i, 0, n, n), l, k, b) {
      }
      Reclaim(f, g, Claims(i, 0, n, n), BY_SIZE);
      RemovedHealthy(fs, i);
      forall j: nat | IsFile(fs, j) && j != i ensures IsFile(g, j) && Contents(g, j) == Contents(fs, j) {
        RemovedOther(fs, i, j);
        SameContents(fs, g, j);
      }
    }
  }

  lemma RemovedHealthy(fs: Fs, i: nat)
    requires Healthy(fs) && fs.mounted && IsFile(fs, i) && Books(FileRemoved(fs, i).0, BY_SIZE)
    ensures Healthy(FileRemoved(fs, i).0)
  {
    var g := FileRemoved(fs, i).0;
    assert g.total == fs.total && g.inodes == fs.inodes[i := EmptyInode()];
    forall j | 0 <= j < MAX_INODES
      ensures BlocksIn(g, j, BlockCount(g.inodes[j].size)) && ZeroFrom(g.inodes[j].blocks, BlockCount(g.inodes[j].size))
    {
      if j != i {
        assert BlocksIn(fs, j, BlockCount(fs.inodes[j].size));
      }
    }
  }

  lemma RemovedOther(fs: Fs, i: nat, j: nat)
    requires Healthy(fs) && fs.mounted && IsFile(fs, i) && Healthy(FileRemoved(fs, i).0) && IsFile(fs, j) && j != i
    ensures SameBytes(fs, FileRemoved(fs, i).0, j)
  {
    var g := FileRemoved(fs, i).0;
    var h := SetInode(RemovedAll(fs, i), i, EmptyInode());
    forall q: nat, o: nat | q < BlockCount(fs.inodes[j].size) && o < BLOCK
      ensures ByteOf(g, j, q, o) == ByteOf(fs, j, q, o) {
      FlushKeeps(h, BlockAt(fs.lba, fs.inodes[j].blocks[q]) + o);
    }
  }
}

/** TCMKFS (kernel/src/level0a/core/tcmkfs.rs): the mounted file system as a value, and what one call
    does to it. The disk never fails; the clock is a parameter. */
module Tcmkfs {
  import opened Basics
  import opened LittleEndian
  import opened TcmkfsDisk
  import opened TcmkfsPaths

  /** The first sector of the partition, the block counts, the cached inode table and bitmap, and the
      whole disk. */
  datatype Fs = Fs(mounted: bool, lba: nat, total: nat, free: int, inodes: Table, bitmap: Bytes, disk: Bytes)

  /** What the partition table says: where the partition starts and how many sectors it has. */
  datatype Partition = Partition(lba: nat, sectors: nat)

  /** `capacity_blocks` */
  function Capacity(sectors: nat): (n: nat)
    ensures n <= MAX_BLOCKS
    ensures n > 0 ==> DATA_START + n * SECTORS_PER_BLOCK <= sectors
  {
    if sectors <= DATA_START then 0
    else
      var usable := (sectors - DATA_START) / SECTORS_PER_BLOCK;
      if usable < MAX_BLOCKS then usable else MAX_BLOCKS
  }

  /** The metadata and the data blocks lie on the disk. */
  ghost predicate Sized(fs: Fs) {
    && |fs.bitmap| == BITMAP_BYTES && fs.total <= MAX_BLOCKS
    && SectorAt(fs.lba, META_SECTORS) <= |fs.disk|
    && (fs.total > 0 ==> BlockAt(fs.lba, fs.total) <= |fs.disk|)
  }

  function BlockCount(size: nat): nat {
    (size + BLOCK - 1) / BLOCK
  }

  ghost predicate IsFile(fs: Fs, i: nat) {
    i < MAX_INODES && fs.inodes[i].kind == KIND_FILE
  }

  /** The first `n` blocks of inode `i` are data blocks. */
  ghost predicate BlocksIn(fs: Fs, i: nat, n: nat)
    requires i < MAX_INODES
  {
    n <= DIRECT_BLOCKS && forall k :: 0 <= k < n ==> fs.inodes[i].blocks[k] < fs.total
  }

  /** What every call relies on. */
  ghost predicate Sound(fs: Fs) {
    && Sized(fs)
    && forall i :: 0 <= i < MAX_INODES ==> BlocksIn(fs, i, BlockCount(fs.inodes[i].size))
  }

  // ---- metadata on disk ---------------------------------------------------------------------------

  function SetInode(fs: Fs, i: nat, x: Inode): Fs
    requires i < MAX_INODES
  {
    fs.(inodes := fs.inodes[i := x])
  }

  ghost function InodesFlushed(fs: Fs): (r: Fs)
    requires Sized(fs)
    ensures Sized(r)
  {
    fs.(disk := Splice(fs.disk, SectorAt(fs.lba, INODE_TABLE_SECTOR), TableBytes(fs.inodes)))
  }

  ghost function BitmapFlushed(fs: Fs): (r: Fs)
    requires Sized(fs)
    ensures Sized(r)
  {
    fs.(disk := Splice(fs.disk, SectorAt(fs.lba, BITMAP_SECTOR), fs.bitmap))
  }

  function SuperOf(fs: Fs): Super
    requires SectorAt(fs.lba, META_SECTORS) <= |fs.disk|
  {
    SuperFrom(fs.disk[SectorAt(fs.lba, 0)..SectorAt(fs.lba, 1)])
  }

  ghost function SuperWritten(fs: Fs, s: Super): (r: Fs)
    requires Sized(fs) && |s.title| == 16
    ensures Sized(r)
  {
    fs.(disk := Splice(fs.disk, SectorAt(fs.lba, 0), SuperBytes(s)))
  }

  // ---- blocks -------------------------------------------------------------------------------------

  /** `alloc_block` */
  ghost function BlockTaken(fs: Fs): (r: (Fs, Option<nat>))
    requires Sized(fs)
    ensures Sized(r.0) && r.0 == fs.(bitmap := r.0.bitmap, free := r.0.free)
    ensures r.1.Some? ==> r.1.value < fs.total
  {
    var b := FirstClear(fs.bitmap, 0, fs.total);
    if b == fs.total then (fs, None)
    else (fs.(bitmap := BitSet(fs.bitmap, b, true), free := fs.free - 1), Some(b))
  }

  /** `free_block` */
  function BlockFreed(fs: Fs, b: nat): (r: Fs)
    requires |fs.bitmap| == BITMAP_BYTES && b < MAX_BLOCKS
    ensures r == fs.(bitmap := r.bitmap, free := r.free) && |r.bitmap| == BITMAP_BYTES
  {
    if BitGet(fs.bitmap, b) then fs.(bitmap := BitSet(fs.bitmap, b, false), free := fs.free + 1) else fs
  }

  function WithBlock(fs: Fs, i: nat, k: nat, b: U32): Fs
    requires i < MAX_INODES && k < DIRECT_BLOCKS
  {
    SetInode(fs, i, fs.inodes[i].(blocks := fs.inodes[i].blocks[k := b]))
  }

  /** The roll-back of `write`: blocks `j..end` of inode `i` are given back. */
  ghost function Undone(fs: Fs, i: nat, j: nat, end: nat): (r: Fs)
    requires Sized(fs) && i < MAX_INODES && j <= end && BlocksIn(fs, i, end)
    ensures Sized(r)
    decreases end - j
  {
    if j == end then fs
    else Undone(WithBlock(BlockFreed(fs, fs.inodes[i].blocks[j]), i, j, 0), i, j + 1, end)
  }

  /** The allocations of `write`: blocks `k..needed` of inode `i`, or none of `have..needed`. */
  ghost function Grown(fs: Fs, i: nat, have: nat, k: nat, needed: nat): (r: (Fs, bool))
    requires Sized(fs) && i < MAX_INODES && have <= k <= needed <= DIRECT_BLOCKS && BlocksIn(fs, i, k)
    ensures Sized(r.0)
    ensures r.1 ==> BlocksIn(r.0, i, needed)
    decreases needed - k
  {
    if k == needed then (fs, true)
    else
      var (g, b) := BlockTaken(fs);
      if b.None? then (Undone(g, i, have, k), false)
      else Grown(WithBlock(g, i, k, b.value), i, have, k + 1, needed)
  }

  // ---- file contents ------------------------------------------------------------------------------

  /** The blocks of a file lie on the disk. */
  ghost predicate OnDisk(disk: Bytes, lba: nat, blocks: seq<U32>, n: nat) {
    n <= |blocks| && forall k :: 0 <= k < n ==> BlockAt(lba, blocks[k]) + BLOCK <= |disk|
  }

  function ReadBlock(disk: Bytes, lba: nat, b: nat): (s: Bytes)
    requires BlockAt(lba, b) + BLOCK <= |disk|
    ensures |s| == BLOCK
  {
    disk[BlockAt(lba, b)..BlockAt(lba, b) + BLOCK]
  }

  /** What the loop of `write` puts into the block around `position`: the block as it was, or zeros if
      it is new, with the chunk of data in place. */
  ghost function NewBlock(disk: Bytes, lba: nat, blocks: seq<U32>, have: nat, position: nat, chunk: Bytes): (s: Bytes)
    requires OnDisk(disk, lba, blocks, position / BLOCK + 1) && position % BLOCK + |chunk| <= BLOCK
    ensures |s| == BLOCK
  {
    var k := position / BLOCK;
    Splice(if |chunk| < BLOCK && k < have then ReadBlock(disk, lba, blocks[k])
      else ZeroBytes(BLOCK), position % BLOCK, chunk)
  }

  /** How much of the remaining data goes into the block around `position`. */
  function ChunkAt(position: nat, left: nat): (n: nat)
    ensures n <= left
  {
    var room := BLOCK - position % BLOCK;
    if room < left then room else left
  }

  function Chunk(offset: nat, data: Bytes, done: nat): (c: Bytes)
    requires done < |data|
    ensures 0 < |c| <= |data| - done
  {
    data[done..done + ChunkAt(offset + done, |data| - done)]
  }

  lemma ChunkFits(offset: nat, data: Bytes, done: nat)
    requires done < |data|
    ensures (offset + done) % BLOCK + |Chunk(offset, data, done)| <= BLOCK
  {
  }

  lemma BlockReached(position: nat, end: nat)
    requires position < end
    ensures position / BLOCK < BlockCount(end)
  {
  }

  /** One round of the loop of `write`. */
  ghost function PutOne(disk: Bytes, lba: nat, blocks: seq<U32>, have: nat, offset: nat, data: Bytes,
      done: nat): (r: Bytes)
    requires done < |data| && OnDisk(disk, lba, blocks, BlockCount(offset + |data|))
    ensures |r| == |disk|
  {
    BlockReached(offset + done, offset + |data|);
    ChunkFits(offset, data, done);
    Splice(disk, BlockAt(lba, blocks[(offset + done) / BLOCK]),
      NewBlock(disk, lba, blocks, have, offset + done, Chunk(offset, data, done)))
  }

  /** The loop of `write` from `done` on. */
  ghost function Put(disk: Bytes, lba: nat, blocks: seq<U32>, have: nat, offset: nat, data: Bytes,
      done: nat): (r: Bytes)
    requires done <= |data| && OnDisk(disk, lba, blocks, BlockCount(offset + |data|))
    ensures |r| == |disk|
    decreases |data| - done
  {
    if done == |data| then disk
    else Put(PutOne(disk, lba, blocks, have, offset, data, done), lba, blocks, have, offset, data,
      done + |Chunk(offset, data, done)|)
  }

  /** Byte `o` of block `q` of the file whose blocks these are. */
  function FileByte(disk: Bytes, lba: nat, blocks: seq<U32>, q: nat, o: nat): Byte
    requires q < |blocks| && o < BLOCK && BlockAt(lba, blocks[q]) + BLOCK <= |disk|
  {
    disk[BlockAt(lba, blocks[q]) + o]
  }

  lemma InOnDisk(fs: Fs, i: nat, n: nat)
    requires Sized(fs) && i < MAX_INODES && BlocksIn(fs, i, n)
    ensures OnDisk(fs.disk, fs.lba, fs.inodes[i].blocks, n)
  {
  }

  /** The contents of a file. */
  ghost function Contents(fs: Fs, i: nat): (s: Bytes)
    requires Sound(fs) && IsFile(fs, i)
    ensures |s| == fs.inodes[i].size
  {
    InOnDisk(fs, i, BlockCount(fs.inodes[i].size));
    seq(fs.inodes[i].size, p requires 0 <= p < fs.inodes[i].size =>
      FileByte(fs.disk, fs.lba, fs.inodes[i].blocks, p / BLOCK, p % BLOCK))
  }

  /** `read`: at most `n` bytes from `offset` on. */
  ghost function ReadAt(fs: Fs, i: nat, offset: nat, n: nat): Result<Bytes>
    requires Sound(fs)
  {
    if !fs.mounted then Err(NotMounted)
    else if !IsFile(fs, i) then Err(NotFound)
    else
      var s := Contents(fs, i);
      Ok(if offset >= |s| then [] else if |s| - offset < n then s[offset..] else s[offset..offset + n])
  }

  /** The allocations of `write`, if any. */
  ghost function WithRoom(fs: Fs, i: nat, needed: nat): (r: (Fs, bool))
    requires Sound(fs) && i < MAX_INODES && needed <= DIRECT_BLOCKS
    ensures Sized(r.0)
    ensures r.1 ==> BlocksIn(r.0, i, needed)
  {
    var have := BlockCount(fs.inodes[i].size);
    if have <= needed then Grown(fs, i, have, have, needed) else (fs, true)
  }

  /** `write` */
  ghost function Written(fs: Fs, i: nat, offset: nat, data: Bytes, now: U32): (r: (Fs, Result<nat>))
    requires Sound(fs)
    ensures Sized(r.0)
  {
    var end := offset + |data|;
    if !fs.mounted then (fs, Err(NotMounted))
    else if !IsFile(fs, i) then (fs, Err(NotFound))
    else if end > MAX_FILE_SIZE then (fs, Err(FileTooLarge))
    else
      var have := BlockCount(fs.inodes[i].size);
      var needed := BlockCount(end);
      var (g, ok) := WithRoom(fs, i, needed);
      if !ok then (g, Err(Full))
      else
        InOnDisk(g, i, needed);
        var x := g.inodes[i];
        var d := Put(g.disk, g.lba, x.blocks, have, offset, data, 0);
        var h := SetInode(g.(disk := d), i, x.(size := if end > x.size then end else x.size, mtime := now));
        (BitmapFlushed(InodesFlushed(h)), Ok(|data|))
  }

  // ---- directories --------------------------------------------------------------------------------

  ghost function FirstFreeInode(t: Table, i: nat): (r: nat)
    requires i <= MAX_INODES
    ensures i <= r <= MAX_INODES
    ensures r < MAX_INODES ==> t[r].kind == KIND_FREE && r != ROOT
    ensures forall j :: i <= j < r ==> t[j].kind != KIND_FREE || j == ROOT
    decreases MAX_INODES - i
  {
    if i == MAX_INODES || (t[i].kind == KIND_FREE && i != ROOT) then i else FirstFreeInode(t, i + 1)
  }

  function NewInode(parent: U32, name: Bytes, kind: U32, now: U32): Inode
    requires |name| <= MAX_NAME
  {
    EmptyInode().(kind := kind, parent := parent, mtime := now, name := Padded(name))
  }

  /** `mkdir` and `create` */
  ghost function Made(fs: Fs, path: Bytes, kind: U32, now: U32): (r: (Fs, Result<nat>))
    requires Sized(fs)
    ensures Sized(r.0)
  {
    if !fs.mounted then (fs, Err(NotMounted))
    else if Resolve(fs.inodes, path).Some? then (fs, Err(Exists))
    else
      match SplitParent(fs.inodes, path)
      case Err(e) => (fs, Err(e))
      case Ok((parent, leaf)) =>
        var i := FirstFreeInode(fs.inodes, 0);
        if i == MAX_INODES then (fs, Err(TooManyFiles))
        else (InodesFlushed(SetInode(fs, i, NewInode(parent, leaf, kind, now))), Ok(i))
  }

  ghost predicate HasChild(t: Table, i: nat) {
    exists j: nat :: Live(t, j) && t[j].parent == i && j != i
  }

  /** `rmdir` */
  ghost function DirRemoved(fs: Fs, path: Bytes): (r: (Fs, Result<()>))
    requires Sized(fs)
    ensures Sized(r.0)
  {
    if !fs.mounted then (fs, Err(NotMounted))
    else
      match Resolve(fs.inodes, path)
      case None => (fs, Err(NotFound))
      case Some(i) =>
        if i == ROOT then (fs, Err(BadPath))
        else if i >= MAX_INODES || fs.inodes[i].kind != KIND_DIR then (fs, Err(NotFound))
        else if HasChild(fs.inodes, i) then (fs, Err(NotEmpty))
        else (InodesFlushed(SetInode(fs, i, EmptyInode())), Ok(()))
  }

  /** Blocks `k..n` of a list given back. */
  ghost function Released(fs: Fs, blocks: seq<U32>, k: nat, n: nat): (r: Fs)
    requires Sized(fs) && k <= n <= |blocks| && forall j :: k <= j < n ==> blocks[j] < MAX_BLOCKS
    ensures Sized(r) && r == fs.(bitmap := r.bitmap, free := r.free)
    decreases n - k
  {
    if k == n then fs else Released(BlockFreed(fs, blocks[k]), blocks, k + 1, n)
  }

  /** `remove` */
  ghost function FileRemoved(fs: Fs, i: nat): (r: (Fs, Result<()>))
    requires Sound(fs)
    ensures Sized(r.0)
  {
    if !fs.mounted then (fs, Err(NotMounted))
    else if !IsFile(fs, i) then (fs, Err(NotFound))
    else
      assert BlocksIn(fs, i, BlockCount(fs.inodes[i].size));
      var g := Released(fs, fs.inodes[i].blocks, 0, BlockCount(fs.inodes[i].size));
      (BitmapFlushed(InodesFlushed(SetInode(g, i, EmptyInode()))), Ok(()))
  }

  // ---- the whole file system ----------------------------------------------------------------------

  /** How many of the first `n` inodes are files. */
  ghost function FilesBelow(t: Table, n: nat): (c: nat)
    requires n <= MAX_INODES
    ensures c <= n
  {
    if n == 0 then 0 else FilesBelow(t, n - 1) + (if t[n - 1].kind == KIND_FILE then 1 else 0)
  }

  ghost predicate SuperFits(fs: Fs) {
    0 <= fs.free < 0x1_0000_0000
  }

  /** `sync` */
  ghost function Synced(fs: Fs): (r: (Fs, Result<()>))
    requires Sized(fs) && SuperFits(fs)
    ensures Sized(r.0)
  {
    if !fs.mounted then (fs, Err(NotMounted))
    else
      var g := BitmapFlushed(InodesFlushed(fs));
      (SuperWritten(g, SuperOf(g).(free := g.free, files := FilesBelow(g.inodes, MAX_INODES))), Ok(()))
  }

  function EmptyTable(): (t: Table)
    ensures forall i :: 0 <= i < MAX_INODES ==> t[i] == EmptyInode()
  {
    seq(MAX_INODES, _ => EmptyInode())
  }

  function Title(text: Bytes): (r: Bytes)
    ensures |r| == 16
  {
    var n := if |text| < 15 then |text| else 15;
    text[..n] + ZeroBytes(16 - n)
  }

  const HOME: Bytes := [47, 104, 111, 109, 101]
  const TMP: Bytes := [47, 116, 109, 112]

  ghost predicate DiskHolds(part: Partition, disk: Bytes) {
    && SectorAt(part.lba, META_SECTORS) <= |disk|
    && (part.sectors > DATA_START ==> SectorAt(part.lba, part.sectors) <= |disk|)
  }

  /** The part of `format` before the skeleton directories. */
  ghost function Blank(part: Partition, text: Bytes, disk: Bytes, now: U32): (r: Fs)
    requires DiskHolds(part, disk)
    ensures Sized(r)
  {
    var total := Capacity(part.sectors);
    var root := EmptyInode().(kind := KIND_DIR, parent := ROOT, mtime := now);
    var fs := Fs(false, part.lba, total, total, EmptyTable()[ROOT := root], ZeroBytes(BITMAP_BYTES), disk);
    var s := Super(MAGIC, VERSION, total, total, MAX_INODES, 0, BLOCK, DATA_START, Title(text));
    SuperWritten(BitmapFlushed(InodesFlushed(fs)), s).(mounted := true)
  }

  /** `format` */
  ghost function Formatted(fs: Fs, part: Option<Partition>, device: bool, text: Bytes, now: U32, home: U32,
      tmp: U32): (r: (Fs, Result<()>))
    requires part.Some? ==> DiskHolds(part.value, fs.disk)
  {
    if part.None? then (fs, Err(NoPartition))
    else if !device then (fs, Err(NoDevice))
    else
      var a := Blank(part.value, text, fs.disk, now);
      var (b, r) := Made(a, HOME, KIND_DIR, home);
      if r.Err? then (b, Err(r.error))
      else
        var (c, q) := Made(b, TMP, KIND_DIR, tmp);
        (c, if q.Err? then Err(q.error) else Ok(()))
  }

  /** `mount` */
  ghost function Mounted(fs: Fs, part: Option<Partition>, device: bool): (r: (Fs, Result<()>))
    requires part.Some? ==> DiskHolds(part.value, fs.disk)
  {
    if part.None? then (fs, Err(NoPartition))
    else if !device then (fs, Err(NoDevice))
    else
      var lba := part.value.lba;
      var s := SuperOf(fs.(lba := lba));
      if s.magic != MAGIC then (fs.(lba := lba), Err(NotFormatted))
      else if s.version != VERSION then (fs.(lba := lba), Err(BadVersion))
      else
        var capacity := Capacity(part.value.sectors);
        var total := if s.total < capacity then s.total else capacity;
        var inodes := TableFrom(fs.disk[SectorAt(lba, INODE_TABLE_SECTOR)..SectorAt(lba, BITMAP_SECTOR)]);
        var bitmap := fs.disk[SectorAt(lba, BITMAP_SECTOR)..SectorAt(lba, META_SECTORS)];
        (Fs(true, lba, total, FreeBelow(bitmap, total), inodes, bitmap, fs.disk), Ok(()))
  }
}

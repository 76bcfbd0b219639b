/** The disk format of TCMKFS (kernel/src/level0a/core/tcmkfs.rs): sectors and blocks as stretches of a
    flat disk, the little-endian records on it, and the block bitmap. */
module TcmkfsDisk {
  import opened Basics
  import opened LittleEndian

  const SECTOR: nat := 512
  const BLOCK: nat := 4096
  const SECTORS_PER_BLOCK: nat := 8

  const MAX_INODES: nat := 64
  const INODE_SIZE: nat := 256
  const INODE_TABLE_SECTOR: nat := 1
  const INODE_TABLE_SECTORS: nat := 32
  const TABLE_BYTES: nat := 16384
  const BITMAP_SECTOR: nat := 33
  const BITMAP_SECTORS: nat := 4
  const BITMAP_BYTES: nat := 2048
  const MAX_BLOCKS: nat := 16384
  /** The first sector after the metadata; from here to the data lies the boot area. */
  const META_SECTORS: nat := 37
  const DATA_START: nat := 4096

  const DIRECT_BLOCKS: nat := 40
  const MAX_FILE_SIZE: nat := 163840
  const MAX_NAME: nat := 64

  const MAGIC: U32 := 0x4B4D_4354
  const VERSION: U32 := 2

  const KIND_FREE: U32 := 0
  const KIND_FILE: U32 := 1
  const KIND_DIR: U32 := 2
  const ROOT: nat := 0

  // ---- places on the disk --------------------------------------------------------------------------

  /** Where the sectors of the metadata and byte `o` of data block `b` lie, `lba` being the first sector
      of the partition. */
  function SectorAt(lba: nat, sector: nat): nat {
    SECTOR * (lba + sector)
  }

  function BlockAt(lba: nat, b: nat): nat {
    SECTOR * (lba + DATA_START + b * SECTORS_PER_BLOCK)
  }

  // ---- little-endian words ----------------------------------------------------------------------

  function Words(ws: seq<U32>): (s: Bytes)
    ensures |s| == 4 * |ws|
  {
    seq(4 * |ws|, k requires 0 <= k < 4 * |ws| => Le(ws[k / 4])[k % 4])
  }

  lemma WordsAt(ws: seq<U32>, s: Bytes, at: nat, j: nat)
    requires j < |ws| && at + 4 * |ws| <= |s| && s[at..at + 4 * |ws|] == Words(ws)
    ensures WordAt(s, at + 4 * j) == ws[j]
  {
    var w := Words(ws);
    forall m | 0 <= m < 4 ensures s[at + 4 * j + m] == Le(ws[j])[m] {
      assert s[at..at + 4 * |ws|][4 * j + m] == w[4 * j + m];
    }
    assert s[at + 4 * j..at + 4 * j + 4] == Le(ws[j]);
    LeRoundTrip(ws[j], s, at + 4 * j);
  }

  // ---- inodes -----------------------------------------------------------------------------------

  datatype InodeRecord = InodeRecord(kind: U32, size: U32, mtime: U32, flags: U32, parent: U32, name: Bytes,
    blocks: seq<U32>)

  type Inode = i: InodeRecord | |i.name| == MAX_NAME && |i.blocks| == DIRECT_BLOCKS witness EmptyInode()

  function NoBlocks(): (s: seq<U32>)
    ensures |s| == DIRECT_BLOCKS && forall k :: 0 <= k < DIRECT_BLOCKS ==> s[k] == 0
  {
    seq(DIRECT_BLOCKS, _ => 0)
  }

  function EmptyInode(): InodeRecord {
    InodeRecord(KIND_FREE, 0, 0, 0, 0, ZeroBytes(MAX_NAME), NoBlocks())
  }

  function InodeHead(i: Inode): (s: seq<U32>) {
    [i.kind, i.size, i.mtime, i.flags, i.parent]
  }

  function InodeBytes(i: Inode): (s: Bytes)
    ensures |s| == INODE_SIZE
  {
    Words(InodeHead(i)) + i.name + Words(i.blocks) + ZeroBytes(12)
  }

  function HeadFrom(s: Bytes): (ws: seq<U32>)
    requires |s| == INODE_SIZE
    ensures |ws| == 5
  {
    [WordAt(s, 0), WordAt(s, 4), WordAt(s, 8), WordAt(s, 12), WordAt(s, 16)]
  }

  function BlocksFrom(s: Bytes): (ws: seq<U32>)
    requires |s| == INODE_SIZE
    ensures |ws| == DIRECT_BLOCKS
  {
    seq(DIRECT_BLOCKS, k requires 0 <= k < DIRECT_BLOCKS => WordAt(s, 84 + 4 * k))
  }

  function InodeFrom(s: Bytes): Inode
    requires |s| == INODE_SIZE
  {
    var h := HeadFrom(s);
    InodeRecord(h[0], h[1], h[2], h[3], h[4], s[20..84], BlocksFrom(s))
  }

  lemma InodeParts(i: Inode)
    ensures var s := InodeBytes(i);
            s[0..20] == Words(InodeHead(i)) && s[20..84] == i.name && s[84..244] == Words(i.blocks)
  {
  }

  lemma HeadRoundTrip(i: Inode)
    ensures HeadFrom(InodeBytes(i)) == InodeHead(i)
  {
    InodeParts(i);
    WordsAt(InodeHead(i), InodeBytes(i), 0, 0);
    WordsAt(InodeHead(i), InodeBytes(i), 0, 1);
    WordsAt(InodeHead(i), InodeBytes(i), 0, 2);
    WordsAt(InodeHead(i), InodeBytes(i), 0, 3);
    WordsAt(InodeHead(i), InodeBytes(i), 0, 4);
  }

  lemma BlocksRoundTrip(i: Inode)
    ensures BlocksFrom(InodeBytes(i)) == i.blocks
  {
    InodeParts(i);
    forall k | 0 <= k < DIRECT_BLOCKS ensures BlocksFrom(InodeBytes(i))[k] == i.blocks[k] {
      WordsAt(i.blocks, InodeBytes(i), 84, k);
    }
  }

  lemma InodeRoundTrip(i: Inode)
    ensures InodeFrom(InodeBytes(i)) == i
  {
    InodeParts(i);
    HeadRoundTrip(i);
    BlocksRoundTrip(i);
  }

  function TableBytes(t: seq<Inode>): (s: Bytes)
    requires |t| == MAX_INODES
    ensures |s| == TABLE_BYTES
  {
    seq(TABLE_BYTES, k requires 0 <= k < TABLE_BYTES => InodeBytes(t[k / INODE_SIZE])[k % INODE_SIZE])
  }

  function TableEntry(s: Bytes, i: nat): (e: Bytes)
    requires |s| == TABLE_BYTES && i < MAX_INODES
    ensures |e| == INODE_SIZE
  {
    s[INODE_SIZE * i..INODE_SIZE * i + INODE_SIZE]
  }

  function TableFrom(s: Bytes): (t: seq<Inode>)
    requires |s| == TABLE_BYTES
    ensures |t| == MAX_INODES
  {
    seq(MAX_INODES, i requires 0 <= i < MAX_INODES => InodeFrom(TableEntry(s, i)))
  }

  lemma TableEntryBytes(t: seq<Inode>, i: nat)
    requires |t| == MAX_INODES && i < MAX_INODES
    ensures TableEntry(TableBytes(t), i) == InodeBytes(t[i])
  {
    var part := TableEntry(TableBytes(t), i);
    forall k | 0 <= k < INODE_SIZE ensures part[k] == InodeBytes(t[i])[k] {
      var at := INODE_SIZE * i + k;
      assert at / INODE_SIZE == i && at % INODE_SIZE == k;
    }
  }

  lemma TableRoundTrip(t: seq<Inode>)
    requires |t| == MAX_INODES
    ensures TableFrom(TableBytes(t)) == t
  {
    forall i | 0 <= i < MAX_INODES ensures TableFrom(TableBytes(t))[i] == t[i] {
      TableEntryBytes(t, i);
      InodeRoundTrip(t[i]);
    }
  }

  // ---- superblock -------------------------------------------------------------------------------

  datatype Super = Super(magic: U32, version: U32, total: U32, free: U32, inodes: U32, files: U32,
                         blockSize: U32, dataStart: U32, title: Bytes)

  function SuperHead(s: Super): seq<U32> {
    [s.magic, s.version, s.total, s.free, s.inodes, s.files, s.blockSize, s.dataStart]
  }

  function SuperBytes(s: Super): (r: Bytes)
    requires |s.title| == 16
    ensures |r| == SECTOR
  {
    Words(SuperHead(s)) + s.title + ZeroBytes(464)
  }

  function SuperHeadFrom(r: Bytes): (ws: seq<U32>)
    requires |r| == SECTOR
    ensures |ws| == 8
  {
    [WordAt(r, 0), WordAt(r, 4), WordAt(r, 8), WordAt(r, 12), WordAt(r, 16), WordAt(r, 20), WordAt(r, 24),
      WordAt(r, 28)]
  }

  function SuperFrom(r: Bytes): (s: Super)
    requires |r| == SECTOR
    ensures |s.title| == 16
  {
    var h := SuperHeadFrom(r);
    Super(h[0], h[1], h[2], h[3], h[4], h[5], h[6], h[7], r[32..48])
  }

  lemma SuperHeadRoundTrip(ws: seq<U32>, r: Bytes)
    requires |r| == SECTOR && |ws| == 8 && r[0..32] == Words(ws)
    ensures SuperHeadFrom(r) == ws
  {
    WordsAt(ws, r, 0, 0);
    WordsAt(ws, r, 0, 1);
    WordsAt(ws, r, 0, 2);
    WordsAt(ws, r, 0, 3);
    WordsAt(ws, r, 0, 4);
    WordsAt(ws, r, 0, 5);
    WordsAt(ws, r, 0, 6);
    WordsAt(ws, r, 0, 7);
  }

  lemma SuperRoundTrip(s: Super)
    requires |s.title| == 16
    ensures SuperFrom(SuperBytes(s)) == s
  {
    var r := SuperBytes(s);
    assert r[0..32] == Words(SuperHead(s)) && r[32..48] == s.title;
    SuperHeadRoundTrip(SuperHead(s), r);
  }

  // ---- the block bitmap -------------------------------------------------------------------------

  /** Bit `k` of a byte, and the byte with that bit set or cleared, as the masks `1 << k` do it. */
  function Bit(b: nat, k: nat): bool {
    if k == 0 then b % 2 == 1 else Bit(b / 2, k - 1)
  }

  function WithBit(b: Byte, k: nat, v: bool): Byte
    requires k < 8
  {
    Below256();
    WithBitOf(b, k, v, 8)
  }

  /** The same in a number of `n` bits. */
  function WithBitOf(b: nat, k: nat, v: bool, n: nat): (r: nat)
    requires k < n && b < Pow2(n)
    ensures r < Pow2(n)
  {
    HalfFits(b, n);
    if k == 0 then b - b % 2 + (if v then 1 else 0) else 2 * WithBitOf(b / 2, k - 1, v, n - 1) + b % 2
  }

  lemma HalfFits(b: nat, n: nat)
    requires n > 0 && b < Pow2(n)
    ensures b / 2 < Pow2(n - 1) && Pow2(n) == 2 * Pow2(n - 1) && b == 2 * (b / 2) + b % 2
  {
  }

  function Pow2(n: nat): nat {
    if n == 0 then 1 else 2 * Pow2(n - 1)
  }

  lemma Below256()
    ensures Pow2(8) == 256
  {
    assert Pow2(4) == 16;
    assert Pow2(6) == 64;
  }

  lemma {:induction false} WithBitReads(b: nat, k: nat, v: bool, n: nat, j: nat)
    requires k < n && b < Pow2(n)
    ensures Bit(WithBitOf(b, k, v, n), j) == if j == k then v else Bit(b, j)
  {
    if k > 0 && j > 0 {
      WithBitReads(b / 2, k - 1, v, n - 1, j - 1);
    }
  }

  lemma {:induction false} SameBits(a: nat, b: nat, n: nat)
    requires a < Pow2(n) && b < Pow2(n) && forall k :: 0 <= k < n ==> Bit(a, k) == Bit(b, k)
    ensures a == b
  {
    if n > 0 {
      forall k | 0 <= k < n - 1 ensures Bit(a / 2, k) == Bit(b / 2, k) {
        assert Bit(a, k + 1) == Bit(b, k + 1);
      }
      SameBits(a / 2, b / 2, n - 1);
      assert Bit(a, 0) == Bit(b, 0);
    }
  }

  function BitGet(m: Bytes, i: nat): bool
    requires i < 8 * |m|
  {
    Bit(m[i / 8], i % 8)
  }

  function BitSet(m: Bytes, i: nat, v: bool): (r: Bytes)
    requires i < 8 * |m|
    ensures |r| == |m|
  {
    m[i / 8 := WithBit(m[i / 8], i % 8, v)]
  }

  lemma BitSetGet(m: Bytes, i: nat, v: bool, j: nat)
    requires i < 8 * |m| && j < 8 * |m|
    ensures BitGet(BitSet(m, i, v), j) == if j == i then v else BitGet(m, j)
  {
    Below256();
    WithBitReads(m[i / 8], i % 8, v, 8, j % 8);
  }

  /** A bitmap is its bits. */
  lemma SameBitmap(m: Bytes, n: Bytes)
    requires |m| == |n| && forall i :: 0 <= i < 8 * |m| ==> BitGet(m, i) == BitGet(n, i)
    ensures m == n
  {
    forall q | 0 <= q < |m| ensures m[q] == n[q] {
      forall k | 0 <= k < 8 ensures Bit(m[q], k) == Bit(n[q], k) {
        assert BitGet(m, 8 * q + k) == BitGet(n, 8 * q + k);
      }
      Below256();
      SameBits(m[q], n[q], 8);
    }
  }

  /** How many of the first `n` blocks are free. */
  ghost function FreeBelow(m: Bytes, n: nat): (c: nat)
    requires n <= 8 * |m|
    ensures c <= n
  {
    if n == 0 then 0 else FreeBelow(m, n - 1) + (if BitGet(m, n - 1) then 0 else 1)
  }

  lemma {:induction false} FreeBelowSet(m: Bytes, i: nat, v: bool, n: nat)
    requires n <= 8 * |m| && i < 8 * |m|
    ensures FreeBelow(BitSet(m, i, v), n)
         == FreeBelow(m, n) + (if i < n && BitGet(m, i) && !v then 1 else if i < n && !BitGet(m, i) && v then -1 else 0)
  {
    if n > 0 {
      FreeBelowSet(m, i, v, n - 1);
      BitSetGet(m, i, v, n - 1);
    }
  }

  ghost function FirstClear(m: Bytes, i: nat, n: nat): (r: nat)
    requires i <= n <= 8 * |m|
    ensures i <= r <= n
    ensures forall j :: i <= j < r ==> BitGet(m, j)
    ensures r < n ==> !BitGet(m, r)
    decreases n - i
  {
    if i == n || !BitGet(m, i) then i else FirstClear(m, i + 1, n)
  }

  /** Nothing is free iff every bit is set. */
  lemma {:induction false} NoneFree(m: Bytes, n: nat)
    requires n <= 8 * |m|
    ensures FreeBelow(m, n) == 0 <==> forall j :: 0 <= j < n ==> BitGet(m, j)
  {
    if n > 0 {
      NoneFree(m, n - 1);
    }
  }
}

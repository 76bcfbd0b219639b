/** Who owns which block, and what reading and writing do to the contents of files. */
module TcmkfsFiles {
  import opened Basics
  import opened LittleEndian
  import opened TcmkfsDisk
  import opened TcmkfsPaths
  import opened Tcmkfs

  // ---- ownership ----------------------------------------------------------------------------------

  /** In the middle of a call inode `x` claims its blocks below `a` and those from `j` to `e`; every
      other inode claims as many as its size needs. */
  datatype Claims = Claims(x: nat, a: nat, j: nat, e: nat)

  /** Between calls. */
  const BY_SIZE: Claims := Claims(MAX_INODES, 0, 0, 0)

  ghost predicate Owns(t: Table, c: Claims, i: nat, k: nat, b: nat) {
    && i < MAX_INODES && k < DIRECT_BLOCKS
    && (if i == c.x then k < c.a || c.j <= k < c.e else k < BlockCount(t[i].size))
    && t[i].blocks[k] == b
  }

  ghost predicate HasOwner(t: Table, c: Claims, b: nat) {
    exists i: nat, k: nat :: Owns(t, c, i, k, b)
  }

  /** A block's bit is set iff the block has an owner, no block has two, and the free count is right. */
  ghost predicate Books(fs: Fs, c: Claims): (ok: bool)
    ensures ok ==> Sized(fs) && fs.free == FreeBelow(fs.bitmap, fs.total)
  {
    && Sized(fs)
    && (forall i: nat, k: nat, b: nat {:trigger Owns(fs.inodes, c, i, k, b)} :: Owns(fs.inodes, c, i, k, b) ==>
       b < fs.total && BitGet(fs.bitmap, b))
    && (forall i: nat, k: nat, j: nat, l: nat,
       b: nat {:trigger Owns(fs.inodes, c, i, k, b), Owns(fs.inodes, c, j, l, b)} ::
          Owns(fs.inodes, c, i, k, b) && Owns(fs.inodes, c, j, l, b) ==> i == j && k == l)
    && (forall b: nat {:trigger BitGet(fs.bitmap, b)} :: b < MAX_BLOCKS && BitGet(fs.bitmap, b) ==>
       HasOwner(fs.inodes, c, b))
    && fs.free == FreeBelow(fs.bitmap, fs.total)
  }

  /** The invariant between calls: the books are right, directories and free inodes have no blocks, and
      pointers past the end of a file are zero. */
  ghost predicate Healthy(fs: Fs) {
    && Sound(fs) && Books(fs, BY_SIZE)
    && (forall i :: 0 <= i < MAX_INODES && fs.inodes[i].kind != KIND_FILE ==> fs.inodes[i].size == 0)
    && (forall i :: 0 <= i < MAX_INODES ==> ZeroFrom(fs.inodes[i].blocks, BlockCount(fs.inodes[i].size)))
  }

  ghost predicate ZeroFrom(blocks: seq<U32>, n: nat) {
    forall k :: n <= k < |blocks| ==> blocks[k] == 0
  }

  /** Equal claims, equal books. */
  lemma Reclaim(fs: Fs, gs: Fs, c: Claims, d: Claims)
    requires Books(fs, c) && Sized(gs) && gs.bitmap == fs.bitmap && gs.free == fs.free && gs.total == fs.total
    requires forall i: nat, k: nat,
      b: nat {:trigger Owns(gs.inodes, d, i, k, b)} {:trigger Owns(fs.inodes, c, i, k, b)} ::
               Owns(gs.inodes, d, i, k, b) == Owns(fs.inodes, c, i, k, b)
    ensures Books(gs, d)
  {
    forall b: nat | b < MAX_BLOCKS && BitGet(gs.bitmap, b) ensures HasOwner(gs.inodes, d, b) {
      assert HasOwner(fs.inodes, c, b);
      var i: nat, k: nat :| Owns(fs.inodes, c, i, k, b);
      assert Owns(gs.inodes, d, i, k, b);
    }
  }

  /** The claims of inode `i` between calls, seen as its own. */
  lemma OwnClaims(fs: Fs, i: nat, n: nat)
    requires i < MAX_INODES && n == BlockCount(fs.inodes[i].size)
    ensures Books(fs, BY_SIZE) <==> Books(fs, Claims(i, n, n, n))
  {
    forall l: nat, k: nat, b: nat
      ensures Owns(fs.inodes, BY_SIZE, l, k, b) == Owns(fs.inodes, Claims(i, n, n, n), l, k, b) {
    }
    if Books(fs, BY_SIZE) {
      Reclaim(fs, fs, BY_SIZE, Claims(i, n, n, n));
    }
    if Books(fs, Claims(i, n, n, n)) {
      Reclaim(fs, fs, Claims(i, n, n, n), BY_SIZE);
    }
  }

  /** The bitmap and the free count follow from the inode table. */
  lemma BooksDetermine(fs: Fs, gs: Fs, c: Claims)
    requires Books(fs, c) && Books(gs, c) && fs.inodes == gs.inodes && fs.total == gs.total
    ensures fs.bitmap == gs.bitmap && fs.free == gs.free
  {
    forall b | 0 <= b < MAX_BLOCKS ensures BitGet(fs.bitmap, b) == BitGet(gs.bitmap, b) {
      if BitGet(fs.bitmap, b) {
        assert HasOwner(fs.inodes, c, b);
      }
      if BitGet(gs.bitmap, b) {
        assert HasOwner(gs.inodes, c, b);
      }
    }
    SameBitmap(fs.bitmap, gs.bitmap);
  }

  /** Allocation fails exactly when the free count is zero. */
  lemma TakenSpec(fs: Fs)
    requires Sized(fs) && fs.free == FreeBelow(fs.bitmap, fs.total)
    ensures var (g, b) := BlockTaken(fs);
            && (b.None? <==> fs.free == 0) && (b.None? ==> g == fs)
            && (b.Some? ==>
                && !BitGet(fs.bitmap, b.value) && g.free == fs.free - 1 && g.free == FreeBelow(g.bitmap, fs.total)
                && forall j :: 0 <= j < MAX_BLOCKS ==> BitGet(g.bitmap, j) == (j == b.value || BitGet(fs.bitmap, j)))
  {
    NoneFree(fs.bitmap, fs.total);
    var b := FirstClear(fs.bitmap, 0, fs.total);
    if b < fs.total {
      FreeBelowSet(fs.bitmap, b, true, fs.total);
      forall j | 0 <= j < MAX_BLOCKS ensures BitGet(BitSet(fs.bitmap, b, true), j) == (j == b || BitGet(fs.bitmap, j)) {
        BitSetGet(fs.bitmap, b, true, j);
      }
    }
  }

  lemma FreedSpec(fs: Fs, b: nat)
    requires Sized(fs) && fs.free == FreeBelow(fs.bitmap, fs.total) && b < fs.total && BitGet(fs.bitmap, b)
    ensures var g := BlockFreed(fs, b);
            && g.free == FreeBelow(g.bitmap, fs.total)
            && forall j :: 0 <= j < MAX_BLOCKS ==> BitGet(g.bitmap, j) == (j != b && BitGet(fs.bitmap, j))
  {
    FreeBelowSet(fs.bitmap, b, false, fs.total);
    forall j | 0 <= j < MAX_BLOCKS ensures BitGet(BitSet(fs.bitmap, b, false), j) == (j != b && BitGet(fs.bitmap, j)) {
      BitSetGet(fs.bitmap, b, false, j);
    }
  }

  /** A block taken for the next pointer of inode `i`. */
  lemma TakeStep(fs: Fs, i: nat, k: nat)
    requires i < MAX_INODES && k < DIRECT_BLOCKS && Books(fs, Claims(i, k, k, k)) && BlockTaken(fs).1.Some?
    ensures var (g, b) := BlockTaken(fs); Books(WithBlock(g, i, k, b.value), Claims(i, k + 1, k + 1, k + 1))
  {
    TakenSpec(fs);
    var (g, b) := BlockTaken(fs);
    var c, d := Claims(i, k, k, k), Claims(i, k + 1, k + 1, k + 1);
    var h := WithBlock(g, i, k, b.value);
    forall l: nat, m: nat, v: nat
      ensures Owns(h.inodes, d, l, m, v) == (Owns(fs.inodes, c, l, m, v) || (l == i && m == k && v == b.value))
    {
    }
    forall v: nat | v < MAX_BLOCKS && BitGet(h.bitmap, v) ensures HasOwner(h.inodes, d, v) {
      if v == b.value {
        assert Owns(h.inodes, d, i, k, v);
      } else {
        assert HasOwner(fs.inodes, c, v);
        var l: nat, m: nat :| Owns(fs.inodes, c, l, m, v);
        assert Owns(h.inodes, d, l, m, v);
      }
    }
  }

  /** The first claim of the second range given up. */
  lemma GiveStep(fs: Fs, c: Claims)
    requires c.x < MAX_INODES && c.a <= c.j < c.e <= DIRECT_BLOCKS && Books(fs, c)
    ensures fs.inodes[c.x].blocks[c.j] < fs.total
    ensures Books(BlockFreed(fs, fs.inodes[c.x].blocks[c.j]), c.(j := c.j + 1))
  {
    var b := fs.inodes[c.x].blocks[c.j];
    assert Owns(fs.inodes, c, c.x, c.j, b);
    FreedSpec(fs, b);
    var g, d := BlockFreed(fs, b), c.(j := c.j + 1);
    forall l: nat, m: nat, v: nat
      ensures Owns(g.inodes, d, l, m, v) == (Owns(fs.inodes, c, l, m, v) && !(l == c.x && m == c.j))
    {
    }
    forall v: nat | v < MAX_BLOCKS && BitGet(g.bitmap, v) ensures HasOwner(g.inodes, d, v) {
      assert HasOwner(fs.inodes, c, v);
      var l: nat, m: nat :| Owns(fs.inodes, c, l, m, v);
      assert Owns(g.inodes, d, l, m, v);
    }
  }

  /** A pointer nobody claims may be overwritten. */
  lemma UnclaimedStep(fs: Fs, c: Claims, k: nat, v: U32)
    requires c.x < MAX_INODES && k < DIRECT_BLOCKS && !(k < c.a || c.j <= k < c.e) && Books(fs, c)
    ensures Books(WithBlock(fs, c.x, k, v), c)
  {
    var g := WithBlock(fs, c.x, k, v);
    forall l: nat, m: nat, b: nat ensures Owns(g.inodes, c, l, m, b) == Owns(fs.inodes, c, l, m, b) {
    }
    Reclaim(fs, g, c, c);
  }

  ghost function WithPointers(fs: Fs, i: nat, blocks: seq<U32>): Fs
    requires i < MAX_INODES && |blocks| == DIRECT_BLOCKS
  {
    SetInode(fs, i, fs.inodes[i].(blocks := blocks))
  }

  ghost predicate OnlyPointers(fs: Fs, g: Fs, i: nat)
    requires i < MAX_INODES
  {
    g == WithPointers(fs, i, g.inodes[i].blocks).(bitmap := g.bitmap, free := g.free)
  }

  /** The roll-back gives up exactly the claims from `j` on and zeroes their pointers. */
  lemma {:induction false} UndoneSpec(fs: Fs, i: nat, have: nat, j: nat, end: nat)
    requires i < MAX_INODES && have <= j <= end <= DIRECT_BLOCKS && Books(fs, Claims(i, have, j, end))
      && BlocksIn(fs, i, end)
    ensures var g := Undone(fs, i, j, end);
            && Books(g, Claims(i, have, end, end)) && OnlyPointers(fs, g, i)
            && forall k :: 0 <= k < DIRECT_BLOCKS ==>
               g.inodes[i].blocks[k] == if j <= k < end then 0 else fs.inodes[i].blocks[k]
    decreases end - j
  {
    if j < end {
      var c := Claims(i, have, j, end);
      GiveStep(fs, c);
      var f := BlockFreed(fs, fs.inodes[i].blocks[j]);
      UnclaimedStep(f, c.(j := j + 1), j, 0);
      UndoneSpec(WithBlock(f, i, j, 0), i, have, j + 1, end);
    }
  }

  /** The allocations succeed exactly when enough blocks are free; otherwise nothing has changed. */
  lemma {:induction false} GrownSpec(fs: Fs, i: nat, have: nat, k: nat, needed: nat)
    requires i < MAX_INODES && have <= k <= needed <= DIRECT_BLOCKS
    requires Books(fs, Claims(i, k, k, k)) && BlocksIn(fs, i, k) && ZeroFrom(fs.inodes[i].blocks, k)
    ensures var (g, ok) := Grown(fs, i, have, k, needed);
            && (ok <==> fs.free >= needed - k) && OnlyPointers(fs, g, i)
            && (ok ==>
                && Books(g, Claims(i, needed, needed, needed))
                && g.inodes[i].blocks[..k] == fs.inodes[i].blocks[..k] && ZeroFrom(g.inodes[i].blocks, needed))
            && (!ok ==>
                && Books(g, Claims(i, have, have, have))
                && g.inodes[i].blocks[..have] == fs.inodes[i].blocks[..have] && ZeroFrom(g.inodes[i].blocks, have))
    decreases needed - k
  {
    hide Books, FirstClear, ZeroFrom, Undone, FreeBelow;
    if k < needed {
      TakenSpec(fs);
      var (g, b) := BlockTaken(fs);
      if b.None? {
        GrownFails(fs, i, have, k);
        ZeroUndone(fs.inodes[i].blocks, Undone(fs, i, have, k).inodes[i].blocks, have, k);
      } else {
        TakeStep(fs, i, k);
        var h := WithBlock(g, i, k, b.value);
        ZeroNext(fs.inodes[i].blocks, k, b.value);
        GrownSpec(h, i, have, k + 1, needed);
        var r := Grown(h, i, have, k + 1, needed).0.inodes[i].blocks;
        assert h.inodes[i].blocks[..k] == fs.inodes[i].blocks[..k]
          && h.inodes[i].blocks[..have] == fs.inodes[i].blocks[..have];
        assert r[..k] == r[..k + 1][..k];
      }
    }
  }

  lemma ZeroNext(blocks: seq<U32>, k: nat, b: U32)
    requires ZeroFrom(blocks, k) && k < |blocks|
    ensures ZeroFrom(blocks[k := b], k + 1)
  {
  }

  lemma ZeroUndone(before: seq<U32>, after: seq<U32>, have: nat, k: nat)
    requires |after| == |before| && have <= k <= |before| && ZeroFrom(before, k)
    requires forall m :: 0 <= m < |before| ==> after[m] == if have <= m < k then 0 else before[m]
    ensures ZeroFrom(after, have) && after[..have] == before[..have]
  {
  }

  lemma GrownFails(fs: Fs, i: nat, have: nat, k: nat)
    requires i < MAX_INODES && have <= k <= DIRECT_BLOCKS && Books(fs, Claims(i, k, k, k)) && BlocksIn(fs, i, k)
    ensures var g := Undone(fs, i, have, k);
            && Books(g, Claims(i, have, have, have)) && OnlyPointers(fs, g, i)
            && forall m :: 0 <= m < DIRECT_BLOCKS ==>
               g.inodes[i].blocks[m] == if have <= m < k then 0 else fs.inodes[i].blocks[m]
  {
    forall l: nat, m: nat, b: nat
      ensures Owns(fs.inodes, Claims(i, have, have, k), l, m, b) == Owns(fs.inodes, Claims(i, k, k, k), l, m, b) {
    }
    Reclaim(fs, fs, Claims(i, k, k, k), Claims(i, have, have, k));
    UndoneSpec(fs, i, have, have, k);
    var g := Undone(fs, i, have, k);
    forall l: nat, m: nat, b: nat
      ensures Owns(g.inodes, Claims(i, have, have, have), l, m, b) == Owns(g.inodes, Claims(i, have, k, k), l, m, b) {
    }
    Reclaim(g, g, Claims(i, have, k, k), Claims(i, have, have, have));
  }

  lemma {:induction false} ReleasedSpec(fs: Fs, i: nat, k: nat, n: nat)
    requires i < MAX_INODES && k <= n <= DIRECT_BLOCKS && Books(fs, Claims(i, 0, k, n)) && BlocksIn(fs, i, n)
    ensures Books(Released(fs, fs.inodes[i].blocks, k, n), Claims(i, 0, n, n))
    decreases n - k
  {
    if k < n {
      GiveStep(fs, Claims(i, 0, k, n));
      ReleasedSpec(BlockFreed(fs, fs.inodes[i].blocks[k]), i, k + 1, n);
    }
  }

  // ---- contents -----------------------------------------------------------------------------------

  ghost predicate Distinct(blocks: seq<U32>, n: nat) {
    n <= |blocks| && forall j, k :: 0 <= j < k < n ==> blocks[j] != blocks[k]
  }

  /** Disk address `a` lies in one of the first `n` blocks. */
  ghost predicate InBlocks(lba: nat, blocks: seq<U32>, n: nat, a: nat)
    requires n <= |blocks|
  {
    exists k :: 0 <= k < n && BlockAt(lba, blocks[k]) <= a < BlockAt(lba, blocks[k]) + BLOCK
  }

  /** One block rewritten. */
  lemma RewrittenByte(disk: Bytes, lba: nat, blocks: seq<U32>, n: nat, k: nat, block: Bytes, q: nat, o: nat)
    requires OnDisk(disk, lba, blocks, n) && Distinct(blocks, n) && k < n && |block| == BLOCK && q < n && o < BLOCK
    ensures FileByte(Splice(disk, BlockAt(lba, blocks[k]), block), lba, blocks, q, o)
         == if q == k then block[o] else FileByte(disk, lba, blocks, q, o)
  {
    assert q < k ==> blocks[q] != blocks[k];
    assert k < q ==> blocks[k] != blocks[q];
  }

  /** One round of the loop of `write` changes nothing outside the blocks of the file. */
  lemma PutOneFrame(disk: Bytes, lba: nat, blocks: seq<U32>, n: nat, have: nat, offset: nat, data: Bytes, done: nat,
      a: nat)
    requires done < |data| && BlockCount(offset + |data|) <= n && OnDisk(disk, lba, blocks, n)
    requires a < |disk| && !InBlocks(lba, blocks, n, a)
    ensures PutOne(disk, lba, blocks, have, offset, data, done)[a] == disk[a]
  {
    BlockReached(offset + done, offset + |data|);
    ChunkFits(offset, data, done);
    var k := (offset + done) / BLOCK;
    assert !(BlockAt(lba, blocks[k]) <= a < BlockAt(lba, blocks[k]) + BLOCK);
  }

  /** The loop is its first round and the rest. */
  lemma PutUnfold(disk: Bytes, lba: nat, blocks: seq<U32>, have: nat, offset: nat, data: Bytes, done: nat)
    requires done < |data| && OnDisk(disk, lba, blocks, BlockCount(offset + |data|))
    ensures OnDisk(PutOne(disk, lba, blocks, have, offset, data, done), lba, blocks, BlockCount(offset + |data|))
    ensures Put(disk, lba, blocks, have, offset, data, done)
         == Put(PutOne(disk, lba, blocks, have, offset, data, done), lba, blocks, have, offset, data,
           done + |Chunk(offset, data, done)|)
  {
  }

  lemma PutEnds(disk: Bytes, lba: nat, blocks: seq<U32>, have: nat, offset: nat, data: Bytes)
    requires OnDisk(disk, lba, blocks, BlockCount(offset + |data|))
    ensures Put(disk, lba, blocks, have, offset, data, |data|) == disk
  {
  }

  /** Nor does the whole loop. */
  lemma {:induction false} PutFrame(disk: Bytes, lba: nat, blocks: seq<U32>, n: nat, have: nat, offset: nat,
      data: Bytes, done: nat, a: nat)
    requires done <= |data| && BlockCount(offset + |data|) <= n && OnDisk(disk, lba, blocks, n)
    requires a < |disk| && !InBlocks(lba, blocks, n, a)
    ensures Put(disk, lba, blocks, have, offset, data, done)[a] == disk[a]
    decreases |data| - done
  {
    hide Put, PutOne, Chunk, ChunkAt, BlockCount, InBlocks, BlockAt;
    if done == |data| {
      PutEnds(disk, lba, blocks, have, offset, data);
    } else {
      PutUnfold(disk, lba, blocks, have, offset, data, done);
      PutOneFrame(disk, lba, blocks, n, have, offset, data, done, a);
      var d := PutOne(disk, lba, blocks, have, offset, data, done);
      assert OnDisk(d, lba, blocks, n);
      PutFrame(d, lba, blocks, n, have, offset, data, done + |Chunk(offset, data, done)|, a);
    }
  }

  /** The new block: the chunk in place, the rest as it was if the file had the block. */
  lemma NewBlockByte(disk: Bytes, lba: nat, blocks: seq<U32>, have: nat, position: nat, chunk: Bytes, o: nat)
    requires OnDisk(disk, lba, blocks, position / BLOCK + 1) && position % BLOCK + |chunk| <= BLOCK && o < BLOCK
    ensures var r := position % BLOCK;
            var s := NewBlock(disk, lba, blocks, have, position, chunk);
            && (r <= o < r + |chunk| ==> s[o] == chunk[o - r])
            && (!(r <= o < r + |chunk|) && position / BLOCK < have ==>
               s[o] == disk[BlockAt(lba, blocks[position / BLOCK]) + o])
  {
  }

  /** Where a round starts and ends: it fills up its block or it is the last one. */
  lemma RoundEnds(offset: nat, data: Bytes, done: nat)
    requires done < |data|
    ensures var position, n := offset + done, |Chunk(offset, data, done)|;
            var k, o, next := position / BLOCK, position % BLOCK, (position + n) / BLOCK;
            && position == BLOCK * k + o && o + n <= BLOCK && k <= next
            && (done + n == |data| || (position + n == BLOCK * next && next == k + 1))
  {
    var position, n := offset + done, |Chunk(offset, data, done)|;
    var k := position / BLOCK;
    if done + n < |data| {
      assert n == BLOCK - position % BLOCK;
      assert position + n == BLOCK * (k + 1);
    }
  }

  /** Which bytes a round covers. */
  lemma InRound(position: nat, n: nat, q: nat, o: nat)
    requires position % BLOCK + n <= BLOCK && o < BLOCK
    ensures position <= BLOCK * q + o < position + n <==>
      q == position / BLOCK && position % BLOCK <= o < position % BLOCK + n
    ensures q == position / BLOCK ==> BLOCK * q + o - position == o - position % BLOCK
  {
    var k := position / BLOCK;
    assert position == BLOCK * k + position % BLOCK;
    if q < k {
      assert BLOCK * q + BLOCK <= BLOCK * k;
    } else if q > k {
      assert BLOCK * q >= BLOCK * k + BLOCK;
    }
  }

  /** One round of the loop: the chunk is in place, the other bytes of blocks the file had, and all
      other blocks, are as before. */
  lemma PutRound(disk: Bytes, lba: nat, blocks: seq<U32>, n: nat, have: nat, offset: nat, data: Bytes, done: nat,
      q: nat, o: nat)
    requires done < |data| && BlockCount(offset + |data|) <= n && OnDisk(disk, lba, blocks, n) && Distinct(blocks, n)
    requires q < n && o < BLOCK
    ensures var d := PutOne(disk, lba, blocks, have, offset, data, done);
            var p, next := BLOCK * q + o, done + |Chunk(offset, data, done)|;
            && (offset + done <= p < offset + next ==> FileByte(d, lba, blocks, q, o) == data[p - offset])
            && (!(offset + done <= p < offset + next) && (q < have || q != (offset + done) / BLOCK) ==>
                  FileByte(d, lba, blocks, q, o) == FileByte(disk, lba, blocks, q, o))
  {
    hide BlockAt, BlockCount, ChunkAt, NewBlock, Splice;
    var position, chunk := offset + done, Chunk(offset, data, done);
    BlockReached(position, offset + |data|);
    ChunkFits(offset, data, done);
    RoundEnds(offset, data, done);
    var k := position / BLOCK;
    var block := NewBlock(disk, lba, blocks, have, position, chunk);
    InRound(position, |chunk|, q, o);
    RewrittenByte(disk, lba, blocks, n, k, block, q, o);
    NewBlockByte(disk, lba, blocks, have, position, chunk, o);
  }

  /** The rest of the loop keeps byte `o` of block `q` if no data go there, and the file had the block or
      it lies before block `next`, which the loop has reached. */
  lemma {:induction false} PutKeeps(disk: Bytes, lba: nat, blocks: seq<U32>, n: nat, have: nat, offset: nat,
      data: Bytes, done: nat, q: nat, o: nat, next: nat)
    requires done <= |data| && BlockCount(offset + |data|) <= n && OnDisk(disk, lba, blocks, n) && Distinct(blocks, n)
    requires q < n && o < BLOCK && !(offset + done <= BLOCK * q + o < offset + |data|)
    requires (q < have || q < next) && BLOCK * next <= offset + done
    ensures FileByte(Put(disk, lba, blocks, have, offset, data, done), lba, blocks, q, o)
      == FileByte(disk, lba, blocks, q, o)
    decreases |data| - done
  {
    hide FileByte, Put, PutOne, Chunk, ChunkAt, BlockCount, BlockAt, Distinct;
    if done == |data| {
      PutEnds(disk, lba, blocks, have, offset, data);
    } else {
      PutUnfold(disk, lba, blocks, have, offset, data, done);
      PutRoundKeeps(disk, lba, blocks, n, have, offset, data, done, q, o, next);
      PutKeeps(PutOne(disk, lba, blocks, have, offset, data, done), lba, blocks, n, have, offset, data,
        done + |Chunk(offset, data, done)|, q, o, next);
    }
  }

  lemma PutRoundKeeps(disk: Bytes, lba: nat, blocks: seq<U32>, n: nat, have: nat, offset: nat, data: Bytes, done: nat,
      q: nat, o: nat, next: nat)
    requires done < |data| && BlockCount(offset + |data|) <= n && OnDisk(disk, lba, blocks, n) && Distinct(blocks, n)
    requires q < n && o < BLOCK && !(offset + done <= BLOCK * q + o < offset + |data|)
    requires (q < have || q < next) && BLOCK * next <= offset + done
    ensures OnDisk(PutOne(disk, lba, blocks, have, offset, data, done), lba, blocks, n)
    ensures FileByte(PutOne(disk, lba, blocks, have, offset, data, done), lba, blocks, q, o)
      == FileByte(disk, lba, blocks, q, o)
  {
    hide FileByte, PutOne, Chunk, ChunkAt, BlockCount, BlockAt, Distinct;
    BlocksBelow(offset + done, next, q);
    PutRound(disk, lba, blocks, n, have, offset, data, done, q, o);
  }

  lemma BlocksBelow(position: nat, next: nat, q: nat)
    requires BLOCK * next <= position
    ensures q < next ==> q != position / BLOCK
  {
  }

  /** The rest of the loop puts every byte of the remaining data in its place. */
  lemma {:induction false} PutStores(disk: Bytes, lba: nat, blocks: seq<U32>, n: nat, have: nat, offset: nat,
      data: Bytes, done: nat, q: nat, o: nat)
    requires done <= |data| && BlockCount(offset + |data|) <= n && OnDisk(disk, lba, blocks, n) && Distinct(blocks, n)
    requires q < n && o < BLOCK && offset + done <= BLOCK * q + o < offset + |data|
    ensures FileByte(Put(disk, lba, blocks, have, offset, data, done), lba, blocks, q, o)
      == data[BLOCK * q + o - offset]
    decreases |data| - done
  {
    hide FileByte, Put, PutOne, Chunk, ChunkAt, BlockCount, BlockAt;
    PutUnfold(disk, lba, blocks, have, offset, data, done);
    var d := PutOne(disk, lba, blocks, have, offset, data, done);
    var next := done + |Chunk(offset, data, done)|;
    RoundEnds(offset, data, done);
    InRound(offset + done, next - done, q, o);
    if BLOCK * q + o < offset + next {
      PutRound(disk, lba, blocks, n, have, offset, data, done, q, o);
      if next == |data| {
        PutEnds(d, lba, blocks, have, offset, data);
      } else {
        PutKeeps(d, lba, blocks, n, have, offset, data, next, q, o, q + 1);
      }
    } else {
      PutStores(d, lba, blocks, n, have, offset, data, next, q, o);
    }
  }
}

/** `write` of TCMKFS in machine words (kernel/src/level0a/core/tcmkfs.rs): `offset` plus the length of the
    data can wrap around and then pass the size test. When it does, the loop leaves the blocks of the file;
    otherwise the write is that of module Tcmkfs. */
module TcmkfsWords {
  import opened Basics
  import opened LittleEndian
  import opened TcmkfsDisk
  import opened TcmkfsPaths
  import opened Tcmkfs
  import opened TcmkfsFiles
  import opened TcmkfsWrites

  /** The number of machine words, 2^32 or 2^64; offsets and lengths are below it. */
  predicate InWords(word: nat, offset: nat, data: Bytes) {
    (word == 0x1_0000_0000 || word == 0x1_0000_0000_0000_0000) && offset < word && |data| < word
  }

  /** A sum of two words, as a word. */
  function Wrapped(sum: nat, word: nat): nat {
    if sum < word then sum else sum - word
  }

  /** The loop of `write` from `done` on, for a file whose first `n` pointers are set. `None`: it follows a
      pointer after those, or one there is not. */
  ghost function PutInWords(disk: Bytes, lba: nat, blocks: seq<U32>, have: nat, n: nat, offset: nat, data: Bytes,
                            done: nat, word: nat): (r: Option<Bytes>)
    requires done <= |data| && OnDisk(disk, lba, blocks, n)
    ensures r.Some? ==> |r.value| == |disk|
    decreases |data| - done
  {
    if done == |data| then Some(disk)
    else
      var position := Wrapped(offset + done, word);
      var k := position / BLOCK;
      if k >= n then None
      else
        var chunk := data[done..done + ChunkAt(position, |data| - done)];
        var next := Splice(disk, BlockAt(lba, blocks[k]), NewBlock(disk, lba, blocks, have, position, chunk));
        PutInWords(next, lba, blocks, have, n, offset, data, done + |chunk|, word)
  }

  function Larger(a: nat, b: nat): nat {
    if b > a then b else a
  }

  /** `write` */
  ghost function WrittenInWords(fs: Fs, i: nat, offset: nat, data: Bytes, now: U32, word: nat)
    : Option<(Fs, Result<nat>)>
    requires Sound(fs) && InWords(word, offset, data)
  {
    var end := Wrapped(offset + |data|, word);
    if !fs.mounted then Some((fs, Err(NotMounted)))
    else if !IsFile(fs, i) then Some((fs, Err(NotFound)))
    else if end > MAX_FILE_SIZE then Some((fs, Err(FileTooLarge)))
    else
      var have, needed := BlockCount(fs.inodes[i].size), BlockCount(end);
      var (g, ok) := WithRoom(fs, i, needed);
      if !ok then Some((g, Err(Full)))
      else
        PointersSet(fs, i, needed);
        var x := g.inodes[i];
        match PutInWords(g.disk, g.lba, x.blocks, have, Larger(have, needed), offset, data, 0, word)
        case None => None
        case Some(d) =>
          var h := SetInode(g.(disk := d), i, x.(size := Larger(x.size, end), mtime := now));
          Some((BitmapFlushed(InodesFlushed(h)), Ok(|data|)))
  }

  lemma PointersSet(fs: Fs, i: nat, needed: nat)
    requires Sound(fs) && i < MAX_INODES && needed <= DIRECT_BLOCKS && WithRoom(fs, i, needed).1
    ensures var g := WithRoom(fs, i, needed).0;
            OnDisk(g.disk, g.lba, g.inodes[i].blocks, Larger(BlockCount(fs.inodes[i].size), needed))
  {
    var have, g := BlockCount(fs.inodes[i].size), WithRoom(fs, i, needed).0;
    assert BlocksIn(fs, i, have);
    InOnDisk(g, i, Larger(have, needed));
  }

  /** Without a wrap the loop in words is the loop. */
  lemma {:induction false} PutSame(disk: Bytes, lba: nat, blocks: seq<U32>, have: nat, n: nat, offset: nat, data: Bytes,
                                   done: nat, word: nat)
    requires done <= |data| && OnDisk(disk, lba, blocks, n) && offset + |data| < word
      && BlockCount(offset + |data|) <= n
    ensures OnDisk(disk, lba, blocks, BlockCount(offset + |data|))
    ensures PutInWords(disk, lba, blocks, have, n, offset, data, done, word)
         == Some(Put(disk, lba, blocks, have, offset, data, done))
    decreases |data| - done
  {
    hide Splice, NewBlock, ReadBlock, BlockAt, Put, BlockCount;
    if done < |data| {
      BlockReached(offset + done, offset + |data|);
      assert Wrapped(offset + done, word) == offset + done;
      PutUnfold(disk, lba, blocks, have, offset, data, done);
      var chunk := Chunk(offset, data, done);
      assert chunk == data[done..done + ChunkAt(offset + done, |data| - done)];
      var next := PutOne(disk, lba, blocks, have, offset, data, done);
      hide Chunk, ChunkAt, PutOne;
      PutSame(next, lba, blocks, have, n, offset, data, done + |chunk|, word);
    } else {
      PutEnds(disk, lba, blocks, have, offset, data);
    }
  }

  /** With a wrap it reaches a position past the file's pointers first. */
  lemma {:induction false} PutOverruns(disk: Bytes, lba: nat, blocks: seq<U32>, have: nat, n: nat, offset: nat,
                                       data: Bytes, done: nat, word: nat)
    requires done < |data| && OnDisk(disk, lba, blocks, n) && n <= DIRECT_BLOCKS && MAX_FILE_SIZE < word
    requires offset + done < word <= offset + |data|
    ensures PutInWords(disk, lba, blocks, have, n, offset, data, done, word) == None
    decreases |data| - done
  {
    hide Splice, NewBlock, BlockAt;
    var position := offset + done;
    assert Wrapped(position, word) == position;
    if position / BLOCK < n {
      var chunk := data[done..done + ChunkAt(position, |data| - done)];
      var next := Splice(disk, BlockAt(lba, blocks[position / BLOCK]),
        NewBlock(disk, lba, blocks, have, position, chunk));
      ChunkInFile(position, |data| - done, n);
      PutOverruns(next, lba, blocks, have, n, offset, data, done + |chunk|, word);
    }
  }

  lemma ChunkInFile(position: nat, left: nat, n: nat)
    requires position / BLOCK < n <= DIRECT_BLOCKS && left > 0
    ensures 0 < ChunkAt(position, left) && position + ChunkAt(position, left) <= MAX_FILE_SIZE
  {
  }

  /** The write leaves the file exactly when its end wraps around to one that passes the size test and there
      is room for that many blocks. When it does not, it does what it would do with unbounded sums, except
      that a wrapped end may be refused for lack of room. */
  lemma WriteInWords(fs: Fs, i: nat, offset: nat, data: Bytes, now: U32, word: nat)
    requires Healthy(fs) && InWords(word, offset, data)
    ensures var wraps := fs.mounted && IsFile(fs, i) && offset + |data| >= word
      && Wrapped(offset + |data|, word) <= MAX_FILE_SIZE;
            var r := WrittenInWords(fs, i, offset, data, now, word);
            && (r.None? <==>
               wraps && fs.free >= BlockCount(Wrapped(offset + |data|, word)) - BlockCount(fs.inodes[i].size))
            && (r.Some? ==> r.value == if wraps then (fs, Err(Full)) else Written(fs, i, offset, data, now))
  {
    var end := Wrapped(offset + |data|, word);
    if fs.mounted && IsFile(fs, i) && end <= MAX_FILE_SIZE {
      LoopInWords(fs, i, offset, data, word);
      hide PutInWords, Put, WithRoom, InodesFlushed, BitmapFlushed, Healthy, BlockCount, Sound, NewBlock, OnDisk;
    }
  }

  /** The allocations and the loop. */
  lemma LoopInWords(fs: Fs, i: nat, offset: nat, data: Bytes, word: nat)
    requires Healthy(fs) && InWords(word, offset, data) && fs.mounted && IsFile(fs, i)
    requires Wrapped(offset + |data|, word) <= MAX_FILE_SIZE
    ensures var have, needed := BlockCount(fs.inodes[i].size), BlockCount(Wrapped(offset + |data|, word));
            && needed <= DIRECT_BLOCKS && Sound(fs)
            && var (g, ok) := WithRoom(fs, i, needed);
               && (ok <==> fs.free >= needed - have) && (!ok ==> g == fs)
               && (ok ==>
                     var blocks, n := g.inodes[i].blocks, Larger(have, needed);
                     && OnDisk(g.disk, g.lba, blocks, n)
                     && if offset + |data| < word then
                          && OnDisk(g.disk, g.lba, blocks, needed)
                          && PutInWords(g.disk, g.lba, blocks, have, n, offset, data, 0, word)
                             == Some(Put(g.disk, g.lba, blocks, have, offset, data, 0))
                        else PutInWords(g.disk, g.lba, blocks, have, n, offset, data, 0, word) == None)
  {
    hide PutInWords, Put, WithRoom, Grown, Healthy;
    var end := Wrapped(offset + |data|, word);
    var have, needed := BlockCount(fs.inodes[i].size), BlockCount(end);
    FitsPointers(fs, i, end);
    Allocated(fs, i, needed);
    var (g, ok) := WithRoom(fs, i, needed);
    if ok {
      PointersSet(fs, i, needed);
      if offset + |data| < word {
        PutSame(g.disk, g.lba, g.inodes[i].blocks, have, Larger(have, needed), offset, data, 0, word);
      } else {
        PutOverruns(g.disk, g.lba, g.inodes[i].blocks, have, Larger(have, needed), offset, data, 0, word);
      }
    }
  }

  /** What the code finds out before the loop. */
  lemma RoomInWords(fs: Fs, i: nat, offset: nat, data: Bytes, now: U32, word: nat)
    requires Healthy(fs) && InWords(word, offset, data) && fs.mounted && IsFile(fs, i)
    requires Wrapped(offset + |data|, word) <= MAX_FILE_SIZE && WrittenInWords(fs, i, offset, data, now, word).Some?
    ensures BlockCount(Wrapped(offset + |data|, word)) <= DIRECT_BLOCKS && Sound(fs)
    ensures var (g, ok) := WithRoom(fs, i, BlockCount(Wrapped(offset + |data|, word)));
            var r := WrittenInWords(fs, i, offset, data, now, word).value;
            if ok then offset + |data| < word && r == Written(fs, i, offset, data, now) else r == (g, Err(Full))
  {
    hide PutInWords, Put, WithRoom, Grown, Written;
    var end := Wrapped(offset + |data|, word);
    FitsPointers(fs, i, end);
    Allocated(fs, i, BlockCount(end));
    WriteInWords(fs, i, offset, data, now, word);
  }

  lemma FitsPointers(fs: Fs, i: nat, end: nat)
    requires Healthy(fs) && i < MAX_INODES && end <= MAX_FILE_SIZE
    ensures BlockCount(end) <= DIRECT_BLOCKS && BlockCount(fs.inodes[i].size) <= DIRECT_BLOCKS && Sound(fs)
  {
    assert BlocksIn(fs, i, BlockCount(fs.inodes[i].size));
  }

  /** Two bytes at the last offset: the end is 1, and the loop starts far past the file. */
  lemma WriteOverruns(fs: Fs, i: nat, now: U32)
    requires Healthy(fs) && fs.mounted && IsFile(fs, i) && (fs.free > 0 || fs.inodes[i].size > 0)
    ensures WrittenInWords(fs, i, 0xFFFF_FFFF, [1, 2], now, 0x1_0000_0000) == None
  {
    WriteInWords(fs, i, 0xFFFF_FFFF, [1, 2], now, 0x1_0000_0000);
  }
}

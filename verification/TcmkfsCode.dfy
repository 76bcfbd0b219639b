/** The code of TCMKFS: cached inode table and bitmap, the scratch block and the disk updated in place.
    Each method does to the file system exactly what the functions of module Tcmkfs say. */
module TcmkfsCode {
  import opened Basics
  import opened LittleEndian
  import opened TcmkfsDisk
  import opened TcmkfsPaths
  import opened TcmkfsTree
  import opened Tcmkfs
  import opened TcmkfsFiles
  import opened TcmkfsWrites
  import opened TcmkfsVolume
  import opened TcmkfsWords

  /** What a fresh buffer of chunks holds after each of them. */
  lemma SpliceMore(s: Bytes, at: nat, d: Bytes, n: nat, m: nat)
    requires n <= m <= |d| && at + |d| <= |s|
    ensures Splice(Splice(s, at, d[..n]), at + n, d[n..m]) == Splice(s, at, d[..m])
  {
  }

  class FileSystem {
    const inodes: array<Inode>
    const bitmap: array<Byte>
    const scratch: array<Byte>
    const disk: array<Byte>
    var mounted: bool
    var lba: nat
    var total: nat
    var free: int

    ghost predicate Shape()
      reads this
    {
      && inodes.Length == MAX_INODES && bitmap.Length == BITMAP_BYTES && scratch.Length == BLOCK
      && bitmap != scratch && bitmap != disk && scratch != disk
    }

    ghost function State(): Fs
      requires Shape()
      reads this, inodes, bitmap, disk
    {
      Fs(mounted, lba, total, free, inodes[..], bitmap[..], disk[..])
    }

    ghost predicate Valid()
      reads this, inodes, bitmap, disk
    {
      Shape() && Sized(State())
    }

    /** The kernel before anything is mounted, with the disk it finds. */
    constructor (disk: array<Byte>)
      ensures Shape() && fresh(inodes) && fresh(bitmap) && fresh(scratch) && this.disk == disk
      ensures State() == Fs(false, 0, 0, 0, EmptyTable(), ZeroBytes(BITMAP_BYTES), disk[..])
    {
      this.disk := disk;
      inodes := new Inode[MAX_INODES](_ => EmptyInode());
      bitmap := new Byte[BITMAP_BYTES](_ => 0);
      scratch := new Byte[BLOCK](_ => 0);
      mounted, lba, total, free := false, 0, 0, 0;
      new;
      assert inodes[..] == EmptyTable() && bitmap[..] == ZeroBytes(BITMAP_BYTES);
    }

    // ---- sectors and blocks -----------------------------------------------------------------------

    method DiskWrite(at: nat, data: Bytes)
      requires Shape() && at + |data| <= disk.Length
      modifies disk
      ensures disk[..] == Splice(old(disk[..]), at, data)
    {
      var n := 0;
      while n < |data|
        invariant 0 <= n <= |data|
        invariant forall k :: 0 <= k < disk.Length ==>
          disk[k] == if at <= k < at + n then data[k - at] else old(disk[k])
      {
        disk[at + n] := data[n];
        n := n + 1;
      }
    }

    /** The table goes out in four pieces of eight sectors. */
    method FlushInodes()
      requires Valid()
      modifies disk
      ensures Valid() && State() == InodesFlushed(old(State()))
    {
      var bytes := TableBytes(inodes[..]);
      ghost var at := SectorAt(lba, INODE_TABLE_SECTOR);
      var chunk := 0;
      while chunk < INODE_TABLE_SECTORS / 8
        invariant 0 <= chunk <= INODE_TABLE_SECTORS / 8
        invariant disk[..] == Splice(old(disk[..]), at, bytes[..4096 * chunk])
      {
        DiskWrite(SectorAt(lba, INODE_TABLE_SECTOR + 8 * chunk), bytes[4096 * chunk..4096 * chunk + 4096]);
        SpliceMore(old(disk[..]), at, bytes, 4096 * chunk, 4096 * chunk + 4096);
        chunk := chunk + 1;
      }
      assert bytes[..TABLE_BYTES] == bytes;
    }

    method FlushBitmap()
      requires Valid()
      modifies disk
      ensures Valid() && State() == BitmapFlushed(old(State()))
    {
      DiskWrite(SectorAt(lba, BITMAP_SECTOR), bitmap[..]);
    }

    method WriteSuper(s: Super)
      requires Valid() && |s.title| == 16
      modifies disk
      ensures Valid() && State() == SuperWritten(old(State()), s)
    {
      DiskWrite(SectorAt(lba, 0), SuperBytes(s));
    }

    method LoadInodes()
      requires Shape() && SectorAt(lba, META_SECTORS) <= disk.Length
      modifies inodes
      ensures inodes[..] == TableFrom(disk[..][SectorAt(lba, INODE_TABLE_SECTOR)..SectorAt(lba, BITMAP_SECTOR)])
    {
      var bytes: Bytes := [];
      var at := SectorAt(lba, INODE_TABLE_SECTOR);
      var chunk := 0;
      while chunk < INODE_TABLE_SECTORS / 8
        invariant 0 <= chunk <= INODE_TABLE_SECTORS / 8
        invariant bytes == disk[at..at + 4096 * chunk]
      {
        bytes := bytes + disk[at + 4096 * chunk..at + 4096 * chunk + 4096];
        chunk := chunk + 1;
      }
      var table := TableFrom(bytes);
      var i := 0;
      while i < MAX_INODES
        invariant 0 <= i <= MAX_INODES && forall j :: 0 <= j < i ==> inodes[j] == table[j]
      {
        inodes[i] := table[i];
        i := i + 1;
      }
      assert inodes[..] == table;
    }

    method LoadBitmap()
      requires Shape() && SectorAt(lba, META_SECTORS) <= disk.Length
      modifies bitmap
      ensures bitmap[..] == disk[..][SectorAt(lba, BITMAP_SECTOR)..SectorAt(lba, META_SECTORS)]
    {
      var at := SectorAt(lba, BITMAP_SECTOR);
      var n := 0;
      while n < BITMAP_BYTES
        invariant 0 <= n <= BITMAP_BYTES && forall k :: 0 <= k < n ==> bitmap[k] == disk[at + k]
      {
        bitmap[n] := disk[at + n];
        n := n + 1;
      }
    }

    method LoadBlock(b: nat)
      requires Shape() && BlockAt(lba, b) + BLOCK <= disk.Length
      modifies scratch
      ensures scratch[..] == ReadBlock(disk[..], lba, b)
    {
      var n := 0;
      while n < BLOCK
        invariant 0 <= n <= BLOCK && forall k :: 0 <= k < n ==> scratch[k] == disk[BlockAt(lba, b) + k]
      {
        scratch[n] := disk[BlockAt(lba, b) + n];
        n := n + 1;
      }
    }

    // ---- bitmap -----------------------------------------------------------------------------------

    method AllocBlock() returns (b: Option<nat>)
      requires Valid()
      modifies this`free, bitmap
      ensures Valid() && (State(), b) == BlockTaken(old(State()))
    {
      var i := 0;
      while i < total
        invariant 0 <= i <= total && FirstClear(bitmap[..], 0, total) == FirstClear(bitmap[..], i, total)
      {
        if !BitGet(bitmap[..], i) {
          SetBit(i, true);
          free := free - 1;
          return Some(i);
        }
        i := i + 1;
      }
      return None;
    }

    method SetBit(i: nat, v: bool)
      requires Shape() && i < MAX_BLOCKS
      modifies bitmap
      ensures bitmap[..] == BitSet(old(bitmap[..]), i, v)
    {
      bitmap[i / 8] := WithBit(bitmap[i / 8], i % 8, v);
    }

    method FreeBlock(b: nat)
      requires Valid() && b < MAX_BLOCKS
      modifies this`free, bitmap
      ensures Valid() && State() == BlockFreed(old(State()), b)
    {
      if BitGet(bitmap[..], b) {
        SetBit(b, false);
        free := free + 1;
      }
    }

    // ---- looking up -------------------------------------------------------------------------------

    method ChildOf(parent: nat, name: Bytes) returns (i: Option<nat>)
      requires Shape()
      ensures i == TcmkfsPaths.ChildOf(inodes[..], parent, name)
    {
      if name == [] {
        return Some(parent);
      }
      var k := 0;
      while k < MAX_INODES
        invariant 0 <= k <= MAX_INODES
        invariant FirstChild(inodes[..], 0, parent, name) == FirstChild(inodes[..], k, parent, name)
      {
        if inodes[k].kind != KIND_FREE && inodes[k].parent == parent && k != ROOT && NameOf(inodes[k]) == name {
          return Some(k);
        }
        k := k + 1;
      }
      return None;
    }

    method Resolve(path: Bytes) returns (i: Option<nat>)
      requires Shape()
      ensures i == TcmkfsPaths.Resolve(inodes[..], path)
    {
      hide Walk, Kept, TcmkfsPaths.ChildOf, Skipped;
      var parts := Split(path);
      KeptNone(inodes[..], parts);
      var current, depth, n := ROOT, 0, 0;
      while n < |parts|
        invariant 0 <= n <= |parts| && depth == |Kept(parts[..n])|
        invariant Walk(inodes[..], Kept(parts[..n])) == Some(current)
      {
        var part := parts[n];
        assert parts[..n + 1] == parts[..n] + [part];
        KeptLast(parts[..n], part);
        ghost var kept := Kept(parts[..n]);
        assert kept + [] == kept;
        if !Skipped(part) {
          WalkLast(inodes[..], kept, part);
          depth := depth + 1;
          if depth > MAX_DEPTH || current >= MAX_INODES || inodes[current].kind != KIND_DIR {
            WalkStuck(inodes[..], parts, n + 1);
            return None;
          }
          var child := ChildOf(current, part);
          if child.None? {
            WalkStuck(inodes[..], parts, n + 1);
            return None;
          }
          current := child.value;
        }
        n := n + 1;
      }
      assert parts[..|parts|] == parts;
      return Some(current);
    }

    method SplitParent(path: Bytes) returns (r: Result<(nat, Bytes)>)
      requires Shape()
      ensures r == TcmkfsPaths.SplitParent(inodes[..], path)
    {
      var p := Trimmed(path);
      var leaf := Leaf(p);
      if leaf == [] || |leaf| >= MAX_NAME {
        return Err(NameTooLong);
      }
      if |Components(p)| > MAX_DEPTH {
        return Err(TooDeep);
      }
      var dir := Resolve(if Dir(p) == [] then [SLASH] else Dir(p));
      SlashIsRoot();
      if dir.None? || dir.value >= MAX_INODES || inodes[dir.value].kind != KIND_DIR {
        return Err(BadPath);
      }
      return Ok((dir.value, leaf));
    }

    /** Bytes put into a buffer after its first `at`. */
    method Append(buf: array<Byte>, at: nat, s: Bytes)
      requires at + |s| <= buf.Length
      modifies buf
      ensures buf[..at + |s|] == old(buf[..at]) + s
    {
      for k := 0 to |s|
        invariant buf[..at + k] == old(buf[..at]) + s[..k]
      {
        buf[at + k] := s[k];
        assert buf[..at + k + 1] == buf[..at + k] + [s[k]];
      }
    }

    /** Climb from the inode to the root, then print the names the other way round into `buf`. */
    method PathOf(i: nat, buf: array<Byte>) returns (path: Option<Bytes>)
      requires Shape() && buf.Length == PATH_MAX && buf != bitmap && buf != scratch && buf != disk
      modifies buf
      ensures path == TcmkfsPaths.PathOf(inodes[..], i)
      ensures path.Some? ==> path.value <= buf[..]
    {
      if i == ROOT {
        buf[0] := SLASH;
        assert buf[..1] == [SLASH];
        return Some(buf[..1]);
      }
      var chain := new nat[MAX_DEPTH];
      var climbed := Climb(i, chain);
      if climbed.None? {
        return None;
      }
      path := Join(chain, climbed.value, buf);
    }

    /** The inodes from `i` up to below the root, deepest first. */
    method Climb(i: nat, chain: array<nat>) returns (length: Option<nat>)
      requires Shape() && chain.Length == MAX_DEPTH
      modifies chain
      ensures length.Some? ==> length.value <= MAX_DEPTH && forall k :: 0 <= k < length.value ==> chain[k] < MAX_INODES
      ensures ClimbFrom(inodes[..], i, []) == if length.None? then None else Some(chain[..length.value])
    {
      ghost var t: Table := inodes[..];
      var depth, current: nat := 0, i;
      while current != ROOT
        invariant inodes[..] == t && 0 <= depth <= MAX_DEPTH && (forall k :: 0 <= k < depth ==> chain[k] < MAX_INODES)
        invariant ClimbFrom(t, current, chain[..depth]) == ClimbFrom(t, i, [])
        decreases MAX_DEPTH - depth
      {
        if depth == MAX_DEPTH || current >= MAX_INODES || inodes[current].parent == current {
          return None;
        }
        chain[depth] := current;
        depth := depth + 1;
        assert chain[..depth] == chain[..depth - 1] + [current];
        current := inodes[current].parent;
      }
      return Some(depth);
    }

    /** The names of `chain[..depth]`, last first. */
    method Join(chain: array<nat>, depth: nat, buf: array<Byte>) returns (path: Option<Bytes>)
      requires Shape() && depth <= chain.Length && forall k :: 0 <= k < depth ==> chain[k] < MAX_INODES
      requires buf.Length == PATH_MAX && buf != bitmap && buf != scratch && buf != disk
      modifies buf
      ensures path == JoinFrom(inodes[..], chain[..depth], depth, [])
      ensures path.Some? ==> path.value <= buf[..]
    {
      ghost var t: Table, climbed := inodes[..], chain[..depth];
      var len, n := 0, depth;
      while n > 0
        invariant inodes[..] == t && chain[..depth] == climbed && 0 <= n <= depth && 0 <= len <= PATH_MAX
        invariant JoinFrom(t, climbed, n, buf[..len]) == JoinFrom(t, climbed, depth, [])
      {
        assert climbed[n - 1] == chain[n - 1];
        var name := NameOf(inodes[chain[n - 1]]);
        if len + 1 + |name| >= PATH_MAX {
          return None;
        }
        ghost var before := buf[..len];
        buf[len] := SLASH;
        assert buf[..len + 1] == before + [SLASH];
        Append(buf, len + 1, name);
        len := len + 1 + |name|;
        n := n - 1;
      }
      return Some(buf[..len]);
    }

    // ---- directories ------------------------------------------------------------------------------

    method WriteName(i: nat, name: Bytes)
      requires Shape() && i < MAX_INODES && |name| <= MAX_NAME && inodes[i].name == ZeroBytes(MAX_NAME)
      modifies inodes
      ensures inodes[..] == old(inodes[..])[i := old(inodes[i]).(name := Padded(name))]
    {
      assert Padded(name[..0]) == ZeroBytes(MAX_NAME);
      for j := 0 to |name|
        invariant inodes[..] == old(inodes[..])[i := old(inodes[i]).(name := Padded(name[..j]))]
      {
        inodes[i] := inodes[i].(name := inodes[i].name[j := name[j]]);
        assert inodes[i].name == Padded(name[..j + 1]);
      }
      assert name[..|name|] == name;
    }

    method AllocateInode(parent: nat, name: Bytes, kind: U32, now: U32) returns (r: Result<nat>)
      requires Valid() && parent < MAX_INODES && |name| < MAX_NAME
      modifies inodes
      ensures Valid() && r == (var i := FirstFreeInode(old(State()).inodes, 0);
              if i == MAX_INODES then Err(TooManyFiles) else Ok(i))
      ensures State() == if r.Ok? then SetInode(old(State()), r.value, NewInode(parent, name, kind, now))
        else old(State())
    {
      var i := 0;
      while i < MAX_INODES
        invariant 0 <= i <= MAX_INODES && FirstFreeInode(inodes[..], 0) == FirstFreeInode(inodes[..], i)
      {
        if inodes[i].kind == KIND_FREE && i != ROOT {
          inodes[i] := EmptyInode().(kind := kind, parent := parent, mtime := now);
          WriteName(i, name);
          return Ok(i);
        }
        i := i + 1;
      }
      return Err(TooManyFiles);
    }

    method Make(path: Bytes, kind: U32, now: U32) returns (r: Result<nat>)
      requires Valid()
      modifies inodes, disk
      ensures Valid() && (State(), r) == Made(old(State()), path, kind, now)
    {
      if !mounted {
        return Err(NotMounted);
      }
      var known := Resolve(path);
      if known.Some? {
        return Err(Exists);
      }
      var split := SplitParent(path);
      if split.Err? {
        return Err(split.error);
      }
      r := AllocateInode(split.value.0, split.value.1, kind, now);
      if r.Ok? {
        FlushInodes();
      }
    }

    method Rmdir(path: Bytes) returns (r: Result<()>)
      requires Valid()
      modifies inodes, disk
      ensures Valid() && (State(), r) == DirRemoved(old(State()), path)
    {
      if !mounted {
        return Err(NotMounted);
      }
      var found := Resolve(path);
      if found.None? {
        return Err(NotFound);
      }
      var i := found.value;
      if i == ROOT {
        return Err(BadPath);
      }
      if i >= MAX_INODES || inodes[i].kind != KIND_DIR {
        return Err(NotFound);
      }
      var j := 0;
      while j < MAX_INODES
        invariant 0 <= j <= MAX_INODES
        invariant forall k: nat :: k < j && Live(inodes[..], k) ==> inodes[k].parent != i || k == i
      {
        if inodes[j].kind != KIND_FREE && inodes[j].parent == i && j != i {
          assert Live(inodes[..], j);
          return Err(NotEmpty);
        }
        j := j + 1;
      }
      inodes[i] := EmptyInode();
      assert inodes[..] == old(inodes[..])[i := EmptyInode()];
      FlushInodes();
      return Ok(());
    }

    method Remove(i: nat) returns (r: Result<()>)
      requires Valid() && Healthy(State())
      modifies this`free, inodes, bitmap, disk
      ensures Valid() && Healthy(State()) && (State(), r) == FileRemoved(old(State()), i)
    {
      if mounted {
        RemoveSpec(State(), i);
      }
      if !mounted {
        return Err(NotMounted);
      }
      if i >= MAX_INODES || inodes[i].kind != KIND_FILE {
        return Err(NotFound);
      }
      assert BlocksIn(State(), i, BlockCount(inodes[i].size));
      var blocks, used, k := inodes[i].blocks, BlockCount(inodes[i].size), 0;
      while k < used
        invariant 0 <= k <= used && Valid() && inodes[..] == old(inodes[..])
        invariant Released(State(), blocks, k, used) == Released(old(State()), blocks, 0, used)
      {
        FreeBlock(blocks[k]);
        k := k + 1;
      }
      inodes[i] := EmptyInode();
      FlushInodes();
      FlushBitmap();
      return Ok(());
    }

    // ---- reading and writing ----------------------------------------------------------------------

    /** A stretch of the scratch block copied into the caller's buffer. */
    method CopyOut(o: nat, buf: array<Byte>, at: nat, n: nat)
      requires Shape() && o + n <= BLOCK && at + n <= buf.Length && buf != scratch
      modifies buf
      ensures forall k :: at <= k < at + n ==> buf[k] == scratch[o + (k - at)]
      ensures forall k :: 0 <= k < at || at + n <= k < buf.Length ==> buf[k] == old(buf[k])
    {
      var k := 0;
      while k < n
        invariant 0 <= k <= n
        invariant forall m :: 0 <= m < buf.Length ==>
          buf[m] == if at <= m < at + k then scratch[o + (m - at)] else old(buf[m])
      {
        buf[at + k] := scratch[o + k];
        k := k + 1;
      }
    }

    /** One round of the loop of `read`: the bytes from `position` on go into `buf` from `at` on. */
    method ReadChunk(i: nat, position: nat, buf: array<Byte>, at: nat, n: nat)
      requires Valid() && Sound(State()) && buf != bitmap && buf != disk && buf != scratch
      requires IsFile(State(), i) && position % BLOCK + n <= BLOCK && 0 < n && position + n <= inodes[i].size
        && at + n <= buf.Length
      modifies scratch, buf
      ensures State() == old(State())
      ensures forall k :: at <= k < at + n ==> buf[k] == Contents(State(), i)[position + (k - at)]
      ensures forall k :: 0 <= k < at || at + n <= k < buf.Length ==> buf[k] == old(buf[k])
    {
      hide ReadBlock, BlocksIn, FileByte, Splice;
      ReadByte(State(), i, position, 0);
      LoadBlock(inodes[i].blocks[position / BLOCK]);
      ghost var block := scratch[..];
      var o := position % BLOCK;
      forall m | o <= m < o + n ensures block[m] == Contents(State(), i)[position + (m - o)] {
        ReadByte(State(), i, position, m - o);
      }
      CopyOut(o, buf, at, n);
      forall k | at <= k < at + n ensures buf[k] == Contents(State(), i)[position + (k - at)] {
        assert buf[k] == block[o + (k - at)];
      }
    }

    method Read(i: nat, offset: nat, buf: array<Byte>) returns (r: Result<nat>)
      requires Valid() && Healthy(State()) && buf != bitmap && buf != disk && buf != scratch
      modifies scratch, buf
      ensures State() == old(State())
      ensures match ReadAt(State(), i, offset, buf.Length)
              case Err(e) => r == Err(e) && buf[..] == old(buf[..])
              case Ok(s) => r == Ok(|s|) && |s| <= buf.Length && buf[..|s|] == s && buf[|s|..] == old(buf[|s|..])
      ensures Sound(State())
      ensures match r
              case Err(e) => e == (if !mounted then NotMounted else NotFound) && !(mounted && IsFile(State(), i))
              case Ok(k) =>
                && mounted && IsFile(State(), i)
                && var s := Contents(State(), i);
                   && k == (if offset >= |s| then 0 else if |s| - offset < buf.Length then |s| - offset else buf.Length)
                   && (forall j :: 0 <= j < k ==> buf[j] == s[offset + j])
      ensures forall j :: (if r.Ok? then r.value else 0) <= j < buf.Length ==> buf[j] == old(buf[j])
    {
      if !mounted {
        return Err(NotMounted);
      }
      if i >= MAX_INODES || inodes[i].kind != KIND_FILE {
        return Err(NotFound);
      }
      var size := inodes[i].size;
      if offset >= size {
        return Ok(0);
      }
      var toRead := if size - offset < buf.Length then size - offset else buf.Length;
      ghost var s := Contents(State(), i);
      r := ReadLoop(i, offset, buf, toRead);
      assert buf[..toRead] == s[offset..offset + toRead];
      assert |s| - offset < buf.Length ==> s[offset..offset + toRead] == s[offset..];
    }

    method ReadLoop(i: nat, offset: nat, buf: array<Byte>, toRead: nat) returns (r: Result<nat>)
      requires Valid() && Sound(State()) && buf != bitmap && buf != disk && buf != scratch
      requires IsFile(State(), i) && offset + toRead <= inodes[i].size && toRead <= buf.Length
      modifies scratch, buf
      ensures State() == old(State()) && r == Ok(toRead)
      ensures forall k :: 0 <= k < toRead ==> buf[k] == Contents(State(), i)[offset + k]
      ensures forall k :: toRead <= k < buf.Length ==> buf[k] == old(buf[k])
    {
      hide Sound, Contents, BlockCount, ChunkAt;
      var done := 0;
      while done < toRead
        invariant 0 <= done <= toRead && Shape() && State() == old(State())
        invariant forall k :: 0 <= k < done ==> buf[k] == Contents(State(), i)[offset + k]
        invariant forall k :: done <= k < buf.Length ==> buf[k] == old(buf[k])
      {
        var chunk := ChunkAt(offset + done, toRead - done);
        ChunkRoom(offset + done, toRead - done);
        ReadChunk(i, offset + done, buf, done, chunk);
        done := done + chunk;
      }
      return Ok(done);
    }

    /** The blocks a write still needs, taken before anything is written, or given back. */
    method TakeBlocks(i: nat, have: nat, needed: nat) returns (ok: bool)
      requires Valid() && i < MAX_INODES && have <= needed <= DIRECT_BLOCKS && BlocksIn(State(), i, have)
      modifies this`free, inodes, bitmap
      ensures Valid() && (State(), ok) == Grown(old(State()), i, have, have, needed)
    {
      var k := have;
      while k < needed
        invariant have <= k <= needed && Valid() && BlocksIn(State(), i, k)
        invariant Grown(State(), i, have, k, needed) == Grown(old(State()), i, have, have, needed)
      {
        var b := AllocBlock();
        if b.None? {
          GiveBack(i, have, k);
          return false;
        }
        SetPointer(i, k, b.value);
        k := k + 1;
      }
      return true;
    }

    method SetPointer(i: nat, k: nat, b: U32)
      requires Valid() && i < MAX_INODES && k < DIRECT_BLOCKS
      modifies inodes
      ensures Valid() && State() == WithBlock(old(State()), i, k, b)
    {
      inodes[i] := inodes[i].(blocks := inodes[i].blocks[k := b]);
      assert inodes[..] == old(inodes[..])[i := inodes[i]];
    }

    method GiveBack(i: nat, from: nat, end: nat)
      requires Valid() && i < MAX_INODES && from <= end && BlocksIn(State(), i, end)
      modifies this`free, inodes, bitmap
      ensures Valid() && State() == Undone(old(State()), i, from, end)
    {
      var j := from;
      while j < end
        invariant from <= j <= end && Valid() && BlocksIn(State(), i, end)
        invariant Undone(State(), i, j, end) == Undone(old(State()), i, from, end)
      {
        FreeBlock(inodes[i].blocks[j]);
        SetPointer(i, j, 0);
        j := j + 1;
      }
    }

    /** A chunk copied into the scratch block. */
    method CopyIn(o: nat, chunk: Bytes)
      requires Shape() && o + |chunk| <= BLOCK
      modifies scratch
      ensures scratch[..] == Splice(old(scratch[..]), o, chunk)
    {
      var k := 0;
      while k < |chunk|
        invariant 0 <= k <= |chunk|
        invariant forall m :: 0 <= m < BLOCK ==> scratch[m] == if o <= m < o + k then chunk[m - o] else old(scratch[m])
      {
        scratch[o + k] := chunk[k];
        k := k + 1;
      }
    }

    method ClearScratch()
      requires Shape()
      modifies scratch
      ensures scratch[..] == ZeroBytes(BLOCK)
    {
      forall k | 0 <= k < BLOCK {
        scratch[k] := 0;
      }
    }

    /** The chunk on top of what is to stay around it: a whole block needs nothing. */
    method FillScratch(blocks: seq<U32>, have: nat, position: nat, chunk: Bytes)
      requires Shape() && OnDisk(disk[..], lba, blocks, position / BLOCK + 1) && position % BLOCK + |chunk| <= BLOCK
      modifies scratch
      ensures scratch[..] == NewBlock(disk[..], lba, blocks, have, position, chunk)
    {
      hide Splice, ReadBlock, BlockAt;
      FullChunk(disk[..], lba, blocks, have, position, chunk);
      if |chunk| < BLOCK {
        if position / BLOCK < have {
          LoadBlock(blocks[position / BLOCK]);
        } else {
          ClearScratch();
        }
      }
      if |chunk| == BLOCK {
        assert position % BLOCK == 0;
        SpliceAll(scratch[..], chunk);
      }
      CopyIn(position % BLOCK, chunk);
    }

    /** One round of the loop of `write`. */
    method PutChunk(i: nat, have: nat, offset: nat, data: Bytes, done: nat)
      requires Valid() && i < MAX_INODES && OnDisk(disk[..], lba, inodes[i].blocks, BlockCount(offset + |data|))
        && done < |data|
      modifies scratch, disk
      ensures Valid()
      ensures State() == old(State()).(disk := PutOne(old(disk[..]), lba, inodes[i].blocks, have, offset, data, done))
    {
      var blocks, position, chunk := inodes[i].blocks, offset + done, Chunk(offset, data, done);
      BlockReached(position, offset + |data|);
      ChunkFits(offset, data, done);
      hide BlockCount, NewBlock, Splice, Chunk;
      FillScratch(blocks, have, position, chunk);
      DiskWrite(BlockAt(lba, blocks[position / BLOCK]), scratch[..]);
    }

    method PutData(i: nat, have: nat, offset: nat, data: Bytes)
      requires Valid() && i < MAX_INODES && OnDisk(disk[..], lba, inodes[i].blocks, BlockCount(offset + |data|))
      modifies scratch, disk
      ensures Valid()
      ensures State() == old(State()).(disk := Put(old(disk[..]), lba, inodes[i].blocks, have, offset, data, 0))
    {
      hide Put, PutOne, Chunk, BlockCount, BlockAt;
      ghost var blocks := inodes[i].blocks;
      var done := 0;
      while done < |data|
        invariant 0 <= done <= |data| && Valid() && State() == old(State()).(disk := disk[..])
        invariant OnDisk(disk[..], lba, blocks, BlockCount(offset + |data|))
        invariant Put(disk[..], lba, blocks, have, offset, data, done)
          == Put(old(disk[..]), lba, blocks, have, offset, data, 0)
      {
        PutUnfold(disk[..], lba, blocks, have, offset, data, done);
        PutChunk(i, have, offset, data, done);
        done := done + |Chunk(offset, data, done)|;
      }
      PutEnds(disk[..], lba, blocks, have, offset, data);
    }

    method MakeRoom(i: nat, needed: nat) returns (ok: bool)
      requires Valid() && Sound(State()) && i < MAX_INODES && needed <= DIRECT_BLOCKS
      modifies this`free, inodes, bitmap
      ensures Valid() && (State(), ok) == WithRoom(old(State()), i, needed)
    {
      var have := BlockCount(inodes[i].size);
      assert BlocksIn(State(), i, have);
      if have <= needed {
        ok := TakeBlocks(i, have, needed);
      } else {
        ok := true;
      }
    }

    /** The new size and time, and both tables out to the disk. */
    method Finish(i: nat, end: nat, now: U32)
      requires Valid() && i < MAX_INODES && end <= MAX_FILE_SIZE
      modifies inodes, disk
      ensures Valid()
      ensures var x := old(State()).inodes[i];
              State() == BitmapFlushed(InodesFlushed(
                SetInode(old(State()), i, x.(size := if end > x.size then end else x.size, mtime := now))))
    {
      if end > inodes[i].size {
        inodes[i] := inodes[i].(size := end);
      }
      inodes[i] := inodes[i].(mtime := now);
      assert inodes[..] == old(inodes[..])[i := inodes[i]];
      FlushInodes();
      FlushBitmap();
    }

    /** `write` in machine words, where it stays in the file. */
    method Write(i: nat, offset: nat, data: Bytes, now: U32, word: nat) returns (r: Result<nat>)
      requires Valid() && Healthy(State()) && InWords(word, offset, data)
      requires WrittenInWords(State(), i, offset, data, now, word).Some?
      modifies this`free, inodes, bitmap, scratch, disk
      ensures Valid() && Healthy(State())
      ensures WrittenInWords(old(State()), i, offset, data, now, word) == Some((State(), r))
    {
      assert Sound(State());
      WriteInWords(State(), i, offset, data, now, word);
      hide Healthy, Sound, Written, WithRoom, BlockCount, PutInWords;
      if !mounted {
        return Err(NotMounted);
      }
      WriteSpec(State(), i, offset, data, now);
      if i >= MAX_INODES || inodes[i].kind != KIND_FILE {
        return Err(NotFound);
      }
      var end := Wrapped(offset + |data|, word);
      if end > MAX_FILE_SIZE {
        return Err(FileTooLarge);
      }
      RoomInWords(State(), i, offset, data, now, word);
      hide WrittenInWords;
      r := WriteBlocks(i, offset, data, now, end, word);
    }

    /** The rest of `write`: room, data, size and both tables. */
    method WriteBlocks(i: nat, offset: nat, data: Bytes, now: U32, end: nat, ghost word: nat) returns (r: Result<nat>)
      requires Valid() && Sound(State()) && mounted && IsFile(State(), i)
      requires end == Wrapped(offset + |data|, word) && end <= MAX_FILE_SIZE && BlockCount(end) <= DIRECT_BLOCKS
      requires WithRoom(State(), i, BlockCount(end)).1 ==> offset + |data| < word
      modifies this`free, inodes, bitmap, scratch, disk
      ensures Valid()
      ensures var (g, ok) := WithRoom(old(State()), i, BlockCount(end));
              (State(), r) == if ok then Written(old(State()), i, offset, data, now) else (g, Err(Full))
    {
      hide Healthy, Sound, Put, Grown, WithRoom, BlockCount, InodesFlushed, BitmapFlushed;
      var needed, have := BlockCount(end), BlockCount(inodes[i].size);
      var ok := MakeRoom(i, needed);
      if !ok {
        return Err(Full);
      }
      InOnDisk(State(), i, needed);
      PutData(i, have, offset, data);
      Finish(i, end, now);
      return Ok(|data|);
    }

    // ---- the volume -------------------------------------------------------------------------------

    method Sync() returns (r: Result<()>)
      requires Valid() && SuperFits(State())
      modifies disk
      ensures Valid() && (State(), r) == Synced(old(State()))
    {
      if !mounted {
        return Err(NotMounted);
      }
      FlushInodes();
      FlushBitmap();
      var s := SuperFrom(disk[SectorAt(lba, 0)..SectorAt(lba, 1)]);
      var files, i := 0, 0;
      while i < MAX_INODES
        invariant 0 <= i <= MAX_INODES && files == FilesBelow(inodes[..], i)
      {
        if inodes[i].kind == KIND_FILE {
          files := files + 1;
        }
        i := i + 1;
      }
      WriteSuper(s.(free := free, files := files));
      return Ok(());
    }

    method Mount(part: Option<Partition>, device: bool) returns (r: Result<()>)
      requires Shape() && (part.Some? ==> DiskHolds(part.value, disk[..]))
      modifies this, inodes, bitmap
      ensures Shape() && (State(), r) == Mounted(old(State()), part, device)
    {
      if part.None? {
        return Err(NoPartition);
      }
      if !device {
        return Err(NoDevice);
      }
      lba := part.value.lba;
      var s := SuperFrom(disk[SectorAt(lba, 0)..SectorAt(lba, 1)]);
      if s.magic != MAGIC {
        return Err(NotFormatted);
      }
      if s.version != VERSION {
        return Err(BadVersion);
      }
      var capacity := Capacity(part.value.sectors);
      total := if s.total < capacity then s.total else capacity;
      LoadInodes();
      LoadBitmap();
      free := CountFree();
      mounted := true;
      return Ok(());
    }

    method CountFree() returns (clear: nat)
      requires Shape() && total <= MAX_BLOCKS
      ensures clear == FreeBelow(bitmap[..], total)
    {
      clear := 0;
      var i := 0;
      while i < total
        invariant 0 <= i <= total && clear == FreeBelow(bitmap[..], i)
      {
        if !BitGet(bitmap[..], i) {
          clear := clear + 1;
        }
        i := i + 1;
      }
    }

    method Format(part: Option<Partition>, device: bool, text: Bytes, now: U32, home: U32, tmp: U32)
        returns (r: Result<()>)
      requires Shape() && (part.Some? ==> DiskHolds(part.value, disk[..]))
      modifies this, inodes, bitmap, disk
      ensures Shape() && (State(), r) == Formatted(old(State()), part, device, text, now, home, tmp)
    {
      if part.None? {
        return Err(NoPartition);
      }
      if !device {
        return Err(NoDevice);
      }
      Erase(part.value, text, now);
      var made := Make(HOME, KIND_DIR, home);
      if made.Err? {
        return Err(made.error);
      }
      made := Make(TMP, KIND_DIR, tmp);
      return if made.Err? then Err(made.error) else Ok(());
    }

    method Erase(part: Partition, text: Bytes, now: U32)
      requires Shape() && DiskHolds(part, disk[..])
      modifies this, inodes, bitmap, disk
      ensures Valid() && State() == Blank(part, text, old(disk[..]), now)
    {
      lba, total := part.lba, Capacity(part.sectors);
      free := total;
      var i := 0;
      while i < MAX_INODES
        invariant 0 <= i <= MAX_INODES && forall k :: 0 <= k < i ==> inodes[k] == EmptyInode()
        invariant lba == part.lba && total == Capacity(part.sectors) && free == total && disk[..] == old(disk[..])
      {
        inodes[i] := EmptyInode();
        i := i + 1;
      }
      forall k | 0 <= k < BITMAP_BYTES {
        bitmap[k] := 0;
      }
      inodes[ROOT] := inodes[ROOT].(kind := KIND_DIR, parent := ROOT, mtime := now);
      assert bitmap[..] == ZeroBytes(BITMAP_BYTES);
      assert inodes[..] == EmptyTable()[ROOT := EmptyInode().(kind := KIND_DIR, parent := ROOT, mtime := now)];
      FlushInodes();
      FlushBitmap();
      WriteSuper(Super(MAGIC, VERSION, total, total, MAX_INODES, 0, BLOCK, DATA_START, Title(text)));
      mounted := true;
    }
  }

  lemma KeptNone(t: Table, parts: seq<Bytes>)
    ensures Kept(parts[..0]) == [] && Walk(t, []) == Some(ROOT)
  {
  }

  lemma WalkStuckStep(t: Table, kept: seq<Bytes>, part: Bytes)
    requires Walk(t, kept).None?
    ensures Walk(t, kept + (if Skipped(part) then [] else [part])).None?
  {
    assert kept + [] == kept;
    WalkLast(t, kept, part);
  }

  /** A walk that has failed stays failed. */
  lemma {:induction false} WalkStuck(t: Table, parts: seq<Bytes>, n: nat)
    requires n <= |parts| && Walk(t, Kept(parts[..n])).None?
    ensures Walk(t, Kept(parts)).None?
    decreases |parts| - n
  {
    hide Walk, Kept, Skipped;
    if n == |parts| {
      assert parts[..n] == parts;
    } else {
      assert parts[..n + 1] == parts[..n] + [parts[n]];
      KeptLast(parts[..n], parts[n]);
      WalkStuckStep(t, Kept(parts[..n]), parts[n]);
      WalkStuck(t, parts, n + 1);
    }
  }

  lemma FileBlocks(size: nat)
    requires size <= MAX_FILE_SIZE
    ensures BlockCount(size) <= DIRECT_BLOCKS
  {
  }

  lemma ChunkRoom(position: nat, left: nat)
    requires left > 0
    ensures 0 < ChunkAt(position, left) && position % BLOCK + ChunkAt(position, left) <= BLOCK
  {
  }

  lemma SlashIsRoot()
    ensures Components([SLASH]) == Components([])
  {
    assert [] + [SLASH] == [SLASH];
    SplitSlash([]);
    KeptLast(Split([]), []);
  }

  lemma SpliceAll(s: Bytes, d: Bytes)
    requires |s| == |d|
    ensures Splice(s, 0, d) == d
  {
  }

  /** A chunk that fills the block leaves nothing of what was there. */
  lemma FullChunk(disk: Bytes, lba: nat, blocks: seq<U32>, have: nat, position: nat, chunk: Bytes)
    requires OnDisk(disk, lba, blocks, position / BLOCK + 1) && position % BLOCK + |chunk| <= BLOCK
    ensures |chunk| == BLOCK ==> NewBlock(disk, lba, blocks, have, position, chunk) == chunk
  {
    hide Splice;
    if |chunk| == BLOCK {
      assert position % BLOCK == 0;
      SpliceAll(ZeroBytes(BLOCK), chunk);
    }
  }

  /** Byte `k` of a chunk of a file. */
  lemma ReadByte(fs: Fs, i: nat, position: nat, k: nat)
    requires Sound(fs) && IsFile(fs, i) && position % BLOCK + k < BLOCK && position + k < fs.inodes[i].size
    ensures position / BLOCK < DIRECT_BLOCKS
      && BlockAt(fs.lba, fs.inodes[i].blocks[position / BLOCK]) + BLOCK <= |fs.disk|
    ensures Contents(fs, i)[position + k]
      == ReadBlock(fs.disk, fs.lba, fs.inodes[i].blocks[position / BLOCK])[position % BLOCK + k]
  {
    ContentsAt(fs, i, position + k);
    assert (position + k) / BLOCK == position / BLOCK && (position + k) % BLOCK == position % BLOCK + k;
  }
}

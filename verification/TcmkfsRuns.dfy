/** Formatting, mounting, and any sequence of calls in between. */
module TcmkfsRuns {
  import opened Basics
  import opened LittleEndian
  import opened TcmkfsDisk
  import opened TcmkfsPaths
  import opened TcmkfsTree
  import opened Tcmkfs
  import opened TcmkfsFiles
  import opened TcmkfsWrites
  import opened TcmkfsVolume

  // ---- mount ----------------------------------------------------------------------------------------

  /** Mounting the disk of a volume rebuilds exactly the cache it had, whatever the kernel held before. */
  lemma MountRestores(fs: Fs, part: Partition, before: Fs)
    requires Volume(fs, part) && before.disk == fs.disk
    ensures Mounted(before, Some(part), true) == (fs, Ok(()))
  {
    var b := before.(lba := part.lba);
    assert Region(b, 0, 1) == Region(fs, 0, 1);
    TableRoundTrip(fs.inodes);
  }

  // ---- format ---------------------------------------------------------------------------------------

  lemma FreshBits(i: nat)
    requires i < MAX_BLOCKS
    ensures !BitGet(ZeroBytes(BITMAP_BYTES), i)
  {
    ZeroBit(i % 8);
  }

  lemma {:induction false} ZeroBit(k: nat)
    ensures !Bit(0, k)
  {
    if k > 0 {
      ZeroBit(k - 1);
    }
  }

  lemma {:induction false} AllFree(n: nat)
    requires n <= MAX_BLOCKS
    ensures FreeBelow(ZeroBytes(BITMAP_BYTES), n) == n
  {
    if n > 0 {
      AllFree(n - 1);
      FreshBits(n - 1);
    }
  }

  /** The table `format` starts with. */
  function RootOnly(now: U32): Table {
    EmptyTable()[ROOT := EmptyInode().(kind := KIND_DIR, parent := ROOT, mtime := now)]
  }

  lemma BlankHealthy(part: Partition, text: Bytes, disk: Bytes, now: U32)
    requires DiskHolds(part, disk)
    ensures Healthy(Blank(part, text, disk, now))
  {
    var fs := Blank(part, text, disk, now);
    assert fs.inodes == RootOnly(now);
    AllFree(fs.total);
    forall b | 0 <= b < MAX_BLOCKS ensures !BitGet(fs.bitmap, b) {
      FreshBits(b);
    }
    assert BlockCount(0) == 0;
    forall i | 0 <= i < MAX_INODES ensures fs.inodes[i].size == 0 && fs.inodes[i].blocks == NoBlocks() {
    }
  }

  /** A volume whose metadata have all been written. */
  lemma AllFlushed(fs: Fs, part: Partition, s: Super)
    requires Sized(fs) && |s.title| == 16 && s.magic == MAGIC && s.version == VERSION
    requires fs.total == if s.total < Capacity(part.sectors) then s.total else Capacity(part.sectors)
    ensures Persisted(SuperWritten(BitmapFlushed(InodesFlushed(fs)), s), part)
  {
    FlushedTable(fs);
    FlushedBitmap(InodesFlushed(fs));
    WrittenSuper(BitmapFlushed(InodesFlushed(fs)), s);
  }

  lemma RootTree(now: U32)
    ensures Tree(RootOnly(now))
  {
  }

  lemma BlankVolume(part: Partition, text: Bytes, disk: Bytes, now: U32)
    requires DiskHolds(part, disk)
    ensures Volume(Blank(part, text, disk, now), part)
  {
    BlankHealthy(part, text, disk, now);
    var total := Capacity(part.sectors);
    var fs := Fs(false, part.lba, total, total, RootOnly(now), ZeroBytes(BITMAP_BYTES), disk);
    var s := Super(MAGIC, VERSION, total, total, MAX_INODES, 0, BLOCK, DATA_START, Title(text));
    AllFlushed(fs, part, s);
    hide Healthy, InodesFlushed, BitmapFlushed, SuperWritten;
    assert Blank(part, text, disk, now) == SuperWritten(BitmapFlushed(InodesFlushed(fs)), s).(mounted := true);
    PersistedMounted(SuperWritten(BitmapFlushed(InodesFlushed(fs)), s), part);
  }

  lemma PersistedMounted(fs: Fs, part: Partition)
    requires Persisted(fs, part)
    ensures Persisted(fs.(mounted := true), part)
  {
  }

  /** A single component below the root. */
  lemma TopLevel(t: Table, leaf: Bytes)
    requires leaf != [] && leaf != [DOT] && SLASH !in leaf && |leaf| < MAX_NAME && t[ROOT].kind == KIND_DIR
    ensures Components([SLASH] + leaf) == [leaf]
    ensures SplitParent(t, [SLASH] + leaf) == Ok((ROOT, leaf))
  {
    var p := [SLASH] + leaf;
    assert [] + [SLASH] + leaf == p;
    SplitLeaf([], leaf);
    SplitAlone([]);
    KeptLast([], []);
    assert [] + [[]] == Split([]);
    KeptLast(Split([]), leaf);
    LeafOf([SLASH], leaf);
    assert p[|p| - 1] == leaf[|leaf| - 1];
    assert Trimmed(p) == p;
    assert Dir(p) == [];
  }

  lemma {:induction false} LeafOf(p: Bytes, leaf: Bytes)
    requires p != [] && p[|p| - 1] == SLASH && SLASH !in leaf
    ensures Leaf(p + leaf) == leaf
  {
    if leaf == [] {
      assert p + leaf == p;
    } else {
      var front := leaf[..|leaf| - 1];
      LeafOf(p, front);
      assert (p + leaf)[..|p + leaf| - 1] == p + front;
      assert front + [leaf[|leaf| - 1]] == leaf;
    }
  }

  lemma TopResolves(t: Table, leaf: Bytes)
    requires leaf != [] && leaf != [DOT] && SLASH !in leaf && |leaf| < MAX_NAME && t[ROOT].kind == KIND_DIR
    ensures Resolve(t, [SLASH] + leaf) == ChildOf(t, ROOT, leaf)
  {
    TopLevel(t, leaf);
    WalkLast(t, [], leaf);
    assert [] + [leaf] == [leaf];
  }

  lemma FirstFreeIs(t: Table, n: nat)
    requires 0 < n < MAX_INODES && t[n].kind == KIND_FREE && forall i: nat :: 0 < i < n ==> t[i].kind != KIND_FREE
    ensures FirstFreeInode(t, 0) == n
  {
    var r := FirstFreeInode(t, 0);
    assert r <= n;
    assert t[r].kind == KIND_FREE;
  }

  lemma RootDir(fs: Fs, part: Partition)
    requires Volume(fs, part) && Tree(fs.inodes)
    ensures Sized(fs) && fs.mounted && fs.inodes[ROOT].kind == KIND_DIR
  {
  }

  lemma NotBelowRoot(t: Table, leaf: Bytes, n: nat)
    requires leaf != [] && n < MAX_INODES && forall i :: n <= i < MAX_INODES ==> t[i].kind == KIND_FREE
    requires forall i: nat :: 0 < i < n ==> NameOf(t[i]) != leaf
    ensures ChildOf(t, ROOT, leaf) == None
  {
  }

  /** `mkdir` of a new name below the root of a table with room. */
  lemma SkeletonMade(fs: Fs, part: Partition, leaf: Bytes, now: U32, n: nat)
    requires Volume(fs, part) && Tree(fs.inodes) && leaf != [] && leaf != [DOT] && SLASH !in leaf && 0 !in leaf
      && |leaf| < MAX_NAME
    requires 0 < n < MAX_INODES && (forall i :: n <= i < MAX_INODES ==> fs.inodes[i].kind == KIND_FREE)
    requires forall i: nat :: 0 < i < n ==> fs.inodes[i].kind != KIND_FREE && NameOf(fs.inodes[i]) != leaf
    ensures var (g, r) := Made(fs, [SLASH] + leaf, KIND_DIR, now);
            && r == Ok(n) && Volume(g, part) && Tree(g.inodes) && NameOf(g.inodes[n]) == leaf && g.free == fs.free
               && g.total == fs.total
            && g.inodes == fs.inodes[n := NewInode(ROOT, leaf, KIND_DIR, now)] && g.inodes[n].kind == KIND_DIR
  {
    hide Volume, Tree, Resolve, SplitParent, NameOf, NewInode, FirstFreeInode, TableBytes;
    RootDir(fs, part);
    TopLevel(fs.inodes, leaf);
    TopResolves(fs.inodes, leaf);
    NotBelowRoot(fs.inodes, leaf, n);
    FirstFreeIs(fs.inodes, n);
    NewName(fs.inodes, [SLASH] + leaf, KIND_DIR, now);
    NewFields(ROOT, leaf, KIND_DIR, now);
    MadeVolume(fs, part, [SLASH] + leaf, KIND_DIR, now);
    assert KIND_DIR != KIND_FREE && 0 !in [SLASH] + leaf;
    MadeCleanTree(fs, [SLASH] + leaf, KIND_DIR, now);
  }

  const HOME_NAME: Bytes := [104, 111, 109, 101]
  const TMP_NAME: Bytes := [116, 109, 112]

  /** `format` succeeds on any disk that holds the partition, and leaves a volume with `/home` and `/tmp`. */
  lemma FormatSpec(fs: Fs, part: Partition, text: Bytes, now: U32, home: U32, tmp: U32)
    requires DiskHolds(part, fs.disk)
    ensures var (g, r) := Formatted(fs, Some(part), true, text, now, home, tmp);
            && r == Ok(()) && Volume(g, part) && Tree(g.inodes) && g.free == g.total == Capacity(part.sectors)
            && Resolve(g.inodes, HOME) == Some(1) && Resolve(g.inodes, TMP) == Some(2)
            && (forall i: nat :: Live(g.inodes, i) <==> i <= 2)
            && g.inodes[1].kind == KIND_DIR && g.inodes[2].kind == KIND_DIR
  {
    hide Made, Volume, Tree, Resolve, Blank, Live;
    RootTree(now);
    BlankStart(part, text, fs.disk, now);
    BlankVolume(part, text, fs.disk, now);
    var a := Blank(part, text, fs.disk, now);
    Skeleton(a, part, now, home, tmp);
  }

  lemma BlankStart(part: Partition, text: Bytes, disk: Bytes, now: U32)
    requires DiskHolds(part, disk)
    ensures var a := Blank(part, text, disk, now);
            a.inodes == RootOnly(now) && a.free == a.total == Capacity(part.sectors)
  {
    hide Capacity, Splice;
  }

  lemma Skeleton(a: Fs, part: Partition, now: U32, home: U32, tmp: U32)
    requires Volume(a, part) && Tree(a.inodes) && a.inodes == RootOnly(now)
    ensures var (b, r) := Made(a, HOME, KIND_DIR, home);
            var (c, q) := Made(b, TMP, KIND_DIR, tmp);
            && r == Ok(1) && q == Ok(2) && Volume(c, part) && Tree(c.inodes) && c.free == a.free && c.total == a.total
            && Resolve(c.inodes, HOME) == Some(1) && Resolve(c.inodes, TMP) == Some(2)
            && (forall i: nat :: Live(c.inodes, i) <==> i <= 2)
            && c.inodes[1].kind == KIND_DIR && c.inodes[2].kind == KIND_DIR
  {
    SkeletonNames();
    RootDir(a, part);
    hide Resolve, Healthy, Made, ForeignKept, Persisted, HOME, TMP, HOME_NAME, TMP_NAME;
    SkeletonMade(a, part, HOME_NAME, home, 1);
    var b := Made(a, HOME, KIND_DIR, home).0;
    SkeletonMade(b, part, TMP_NAME, tmp, 2);
    SkeletonResolves(a, b, part, home, tmp);
  }

  predicate PlainName(name: Bytes) {
    name != [] && name != [DOT] && SLASH !in name && 0 !in name && |name| < MAX_NAME
  }

  lemma SkeletonNames()
    ensures HOME == [SLASH] + HOME_NAME && TMP == [SLASH] + TMP_NAME
    ensures PlainName(HOME_NAME) && PlainName(TMP_NAME) && HOME_NAME != TMP_NAME
  {
  }

  lemma SkeletonResolves(a: Fs, b: Fs, part: Partition, home: U32, tmp: U32)
    requires Volume(a, part) && Tree(a.inodes) && Volume(b, part) && Tree(b.inodes)
    requires Made(a, HOME, KIND_DIR, home) == (b, Ok(1)) && Made(b, TMP, KIND_DIR, tmp).1 == Ok(2)
    ensures var c := Made(b, TMP, KIND_DIR, tmp).0;
            Resolve(c.inodes, HOME) == Some(1) && Resolve(c.inodes, TMP) == Some(2)
  {
    hide *;
    VolumeParts(a, part);
    VolumeParts(b, part);
    NoZeroNames();
    MadeResolves(a, HOME, KIND_DIR, home);
    MadeResolves(b, TMP, KIND_DIR, tmp);
    MadeKeepsPaths(b, TMP, KIND_DIR, tmp, HOME);
  }

  lemma NoZeroNames()
    ensures 0 !in HOME && 0 !in TMP && KIND_DIR != KIND_FREE
  {
  }

  // ---- names with a zero byte -----------------------------------------------------------------------

  /** No name read back holds a zero byte. */
  lemma ZeroNotFound(t: Table, d: nat, name: Bytes)
    requires 0 in name
    ensures ChildOf(t, d, name) == None
  {
    forall i | 0 <= i < MAX_INODES ensures !IsChild(t, i, d, name) {
      assert 0 !in NameOf(t[i]);
    }
  }

  lemma ZeroByteMade(g: Fs, now: U32)
    requires Sized(g) && g.mounted && Tree(g.inodes) && Resolve(g.inodes, HOME) == Some(1)
      && g.inodes[ROOT].kind == KIND_DIR
    requires forall i: nat :: Live(g.inodes, i) <==> i <= 2
    ensures Made(g, HOME + [0], KIND_FILE, now).1.Ok? && !Tree(Made(g, HOME + [0], KIND_FILE, now).0.inodes)
  {
    var leaf := HOME_NAME + [0];
    assert HOME + [0] == [SLASH] + leaf && HOME == [SLASH] + HOME_NAME && leaf[4] == 0;
    hide Tree, Resolve, SplitParent;
    TopLevel(g.inodes, leaf);
    TopResolves(g.inodes, leaf);
    ZeroNotFound(g.inodes, ROOT, leaf);
    FirstFree3(g.inodes);
    MadeTree(g, HOME + [0], KIND_FILE, now);
    CutHome();
    TopResolves(g.inodes, HOME_NAME);
  }

  lemma FirstFree3(t: Table)
    requires forall i: nat :: Live(t, i) <==> i <= 2
    ensures FirstFreeInode(t, 0) == 3
  {
    assert !Live(t, 3);
    forall i: nat | 0 < i < 3 ensures t[i].kind != KIND_FREE {
      assert Live(t, i);
    }
    FirstFreeIs(t, 3);
  }

  lemma CutHome()
    ensures Cut(HOME_NAME + [0]) == HOME_NAME
  {
    CutPadded(HOME_NAME, 1);
    assert HOME_NAME + ZeroBytes(1) == HOME_NAME + [0];
    CutClean(HOME_NAME);
  }

  /** Why the tree needs paths without zero bytes: on a fresh volume `/home\0` can be made beside `/home`, and
      then two children of the root read back as "home". */
  lemma ZeroByteBreaksTree(fs: Fs, part: Partition, now: U32)
    requires DiskHolds(part, fs.disk)
    ensures var g := Formatted(fs, Some(part), true, [], now, now, now).0;
            && Volume(g, part) && Tree(g.inodes) && Made(g, HOME + [0], KIND_FILE, now).1.Ok?
            && !Tree(Made(g, HOME + [0], KIND_FILE, now).0.inodes)
  {
    FormatSpec(fs, part, [], now, now, now);
    ZeroByteMade(Formatted(fs, Some(part), true, [], now, now, now).0, now);
  }

  // ---- runs -----------------------------------------------------------------------------------------

  datatype Call =
    | Mkdir(path: Bytes, now: U32)
    | Create(path: Bytes, now: U32)
    | Rmdir(path: Bytes)
    | Remove(i: nat)
    | Write(i: nat, offset: nat, data: Bytes, now: U32)
    | Sync

  ghost function After(fs: Fs, call: Call): Fs
    requires Healthy(fs)
  {
    match call
    case Mkdir(path, now) => Made(fs, path, KIND_DIR, now).0
    case Create(path, now) => Made(fs, path, KIND_FILE, now).0
    case Rmdir(path) => DirRemoved(fs, path).0
    case Remove(i) => FileRemoved(fs, i).0
    case Write(i, offset, data, now) => Written(fs, i, offset, data, now).0
    case Sync => FreeFits(fs); Synced(fs).0
  }

  /** Every call, whether it succeeds or fails, keeps the volume and stays within it. */
  lemma CallKeepsVolume(fs: Fs, part: Partition, call: Call)
    requires Volume(fs, part)
    ensures Volume(After(fs, call), part) && SameVolume(fs, After(fs, call)) && ForeignKept(fs, After(fs, call))
  {
    assert Healthy(fs);
    hide Volume, Healthy, ForeignKept, Made, DirRemoved, FileRemoved, Written, Synced;
    match call
    case Mkdir(path, now) => MadeVolume(fs, part, path, KIND_DIR, now);
    case Create(path, now) => MadeVolume(fs, part, path, KIND_FILE, now);
    case Rmdir(path) => DirRemovedVolume(fs, part, path);
    case Remove(i) => RemovedVolume(fs, part, i);
    case Write(i, offset, data, now) => WrittenVolume(fs, part, i, offset, data, now);
    case Sync => SyncedVolume(fs, part);
  }

  ghost function AfterAll(fs: Fs, part: Partition, calls: seq<Call>): (g: Fs)
    requires Volume(fs, part)
    ensures Volume(g, part) && SameVolume(fs, g)
    decreases |calls|
  {
    if calls == [] then fs
    else
      CallKeepsVolume(fs, part, calls[0]);
      AfterAll(After(fs, calls[0]), part, calls[1..])
  }

  /** Over every run the sectors outside the volume stay as they were. */
  lemma {:induction false} RunStaysInside(fs: Fs, part: Partition, calls: seq<Call>)
    requires Volume(fs, part)
    ensures ForeignKept(fs, AfterAll(fs, part, calls))
    decreases |calls|
  {
    if calls != [] {
      assert Healthy(fs);
      hide Volume, Healthy, After;
      CallKeepsVolume(fs, part, calls[0]);
      var g := After(fs, calls[0]);
      RunStaysInside(g, part, calls[1..]);
      var h := AfterAll(g, part, calls[1..]);
      forall a: nat | a < |fs.disk| && Foreign(fs, a) ensures h.disk[a] == fs.disk[a] {
        assert g.disk[a] == fs.disk[a];
      }
    }
  }

  // ---- the tree over runs ---------------------------------------------------------------------------

  /** The path given to `mkdir` or `create` holds no zero byte. */
  predicate CleanPath(call: Call) {
    match call
    case Mkdir(path, _) => 0 !in path
    case Create(path, _) => 0 !in path
    case _ => true
  }

  /** What is made can be read back by its name, and the name is free. */
  ghost predicate ReadsBack(t: Table, path: Bytes) {
    SplitParent(t, path).Ok? ==>
      var (d, leaf) := SplitParent(t, path).value; GoodName(Cut(leaf)) && ChildOf(t, d, Cut(leaf)) == None
  }

  /** The call keeps the tree: always, unless it makes something whose name is cut at a zero byte to one that
      is empty, "." or taken. */
  ghost predicate TreeSafe(fs: Fs, call: Call)
    requires Sized(fs)
  {
    match call
    case Mkdir(path, now) => Made(fs, path, KIND_DIR, now).1.Ok? ==> ReadsBack(fs.inodes, path)
    case Create(path, now) => Made(fs, path, KIND_FILE, now).1.Ok? ==> ReadsBack(fs.inodes, path)
    case _ => true
  }

  /** Exactly the calls that are safe in this sense keep the tree. */
  lemma CallKeepsTree(fs: Fs, part: Partition, call: Call)
    requires Volume(fs, part) && Tree(fs.inodes)
    ensures Tree(After(fs, call).inodes) <==> TreeSafe(fs, call)
    ensures CleanPath(call) ==> TreeSafe(fs, call)
  {
    VolumeParts(fs, part);
    hide Volume, Healthy, Tree, Persisted, Sized;
    match call
    case Mkdir(path, now) => MadeTreeIff(fs, path, KIND_DIR, now);
    case Create(path, now) => MadeTreeIff(fs, path, KIND_FILE, now);
    case Rmdir(path) => DirRemovedTree(fs, part, path);
    case Remove(i) => RemovedTree(fs, i);
    case Write(i, offset, data, now) => WrittenTree(fs, i, offset, data, now);
    case Sync => SyncedVolume(fs, part);
  }

  lemma MadeTreeIff(fs: Fs, path: Bytes, kind: U32, now: U32)
    requires Sized(fs) && Tree(fs.inodes) && kind != KIND_FREE
    ensures Tree(Made(fs, path, kind, now).0.inodes) <==>
      (Made(fs, path, kind, now).1.Ok? ==> ReadsBack(fs.inodes, path))
    ensures 0 !in path ==> Tree(Made(fs, path, kind, now).0.inodes)
  {
    hide Tree;
    if Made(fs, path, kind, now).1.Ok? {
      MadeTree(fs, path, kind, now);
      if 0 !in path {
        MadeCleanTree(fs, path, kind, now);
      }
    }
  }

  lemma DirRemovedTree(fs: Fs, part: Partition, path: Bytes)
    requires Volume(fs, part) && Tree(fs.inodes) && Sized(fs)
    ensures Tree(DirRemoved(fs, path).0.inodes)
  {
    hide Tree, Volume, Resolve;
    DirRemovedVolume(fs, part, path);
    if DirRemoved(fs, path).1.Ok? {
      ResolveBound(fs.inodes, path);
      TreeWithout(fs.inodes, Resolve(fs.inodes, path).value);
    }
  }

  lemma RemovedTree(fs: Fs, i: nat)
    requires Healthy(fs) && Tree(fs.inodes)
    ensures Tree(FileRemoved(fs, i).0.inodes)
  {
    if fs.mounted && IsFile(fs, i) {
      RemoveSpec(fs, i);
      FileHasNoChildren(fs.inodes, i);
      TreeWithout(fs.inodes, i);
    }
  }

  lemma WrittenTree(fs: Fs, i: nat, offset: nat, data: Bytes, now: U32)
    requires Healthy(fs) && Tree(fs.inodes)
    ensures Tree(Written(fs, i, offset, data, now).0.inodes)
  {
    hide Tree;
    if fs.mounted && IsFile(fs, i) && offset + |data| <= MAX_FILE_SIZE {
      WriteOutcome(fs, i, offset, data, now);
      var (g, ok) := WithRoom(fs, i, BlockCount(offset + |data|));
      if ok {
        StoredTree(fs, g, i, offset, data, now);
      }
    }
  }

  /** Over every run of calls without zero bytes in their paths the directories form a tree. */
  lemma {:induction false} RunKeepsTree(fs: Fs, part: Partition, calls: seq<Call>)
    requires Volume(fs, part) && Tree(fs.inodes) && forall k :: 0 <= k < |calls| ==> CleanPath(calls[k])
    ensures Tree(AfterAll(fs, part, calls).inodes)
    decreases |calls|
  {
    if calls != [] {
      VolumeParts(fs, part);
      hide Volume, Tree, Healthy, After, TreeSafe;
      CallKeepsVolume(fs, part, calls[0]);
      CallKeepsTree(fs, part, calls[0]);
      RunKeepsTree(After(fs, calls[0]), part, calls[1..]);
    }
  }

  // ---- persistence over runs --------------------------------------------------------------------------

  /** After any run from a fresh format, a mount by a kernel that knows nothing but the disk rebuilds the
      inode table, bitmap, total and free count the run left in memory. */
  lemma MountAfterRun(fs: Fs, part: Partition, text: Bytes, t: U32, home: U32, tmp: U32, calls: seq<Call>, cold: Fs)
    requires DiskHolds(part, fs.disk)
    ensures var g := Formatted(fs, Some(part), true, text, t, home, tmp).0;
            && Volume(g, part)
            && var h := AfterAll(g, part, calls);
               cold.disk == h.disk ==> Mounted(cold, Some(part), true) == (h, Ok(()))
  {
    FormatSpec(fs, part, text, t, home, tmp);
    var g := Formatted(fs, Some(part), true, text, t, home, tmp).0;
    var h := AfterAll(g, part, calls);
    if cold.disk == h.disk {
      MountRestores(h, part, cold);
    }
  }

  // ---- what holds in every reachable state --------------------------------------------------------------

  ghost function Owners(fs: Fs, b: nat): set<(nat, nat)> {
    set i, k | 0 <= i < MAX_INODES && 0 <= k < DIRECT_BLOCKS && Owns(fs.inodes, BY_SIZE, i, k, b) :: (i, k)
  }

  /** A block's bit is set iff exactly one file has it at exactly one index below its block count;
      otherwise no file has it. The free count is the number of clear bits below the total. */
  lemma BlocksHaveOneOwner(fs: Fs, part: Partition, b: nat)
    requires Volume(fs, part) && b < MAX_BLOCKS
    ensures |Owners(fs, b)| == if BitGet(fs.bitmap, b) then 1 else 0
    ensures forall i, k :: (i, k) in Owners(fs, b) ==> IsFile(fs, i) && k < BlockCount(fs.inodes[i].size)
    ensures BitGet(fs.bitmap, b) ==> b < fs.total
    ensures fs.free == FreeBelow(fs.bitmap, fs.total)
  {
    if BitGet(fs.bitmap, b) {
      assert HasOwner(fs.inodes, BY_SIZE, b);
      var i: nat, k: nat :| Owns(fs.inodes, BY_SIZE, i, k, b);
      assert Owners(fs, b) == {(i, k)};
    } else {
      assert Owners(fs, b) == {};
    }
    assert BlockCount(0) == 0;
  }
}

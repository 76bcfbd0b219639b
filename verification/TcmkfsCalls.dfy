/** When each call of TCMKFS succeeds, what it answers, and which error it gives otherwise, in terms of the
    tree, the path and the bytes of the files. */
module TcmkfsCalls {
  import opened Basics
  import opened LittleEndian
  import opened TcmkfsDisk
  import opened TcmkfsPaths
  import opened TcmkfsTree
  import opened Tcmkfs
  import opened TcmkfsFiles
  import opened TcmkfsWrites
  import opened TcmkfsVolume
  import opened TcmkfsRuns

  // ---- reading ------------------------------------------------------------------------------------

  /** `read` gives as many of the bytes from `offset` on as there are, up to the size of the buffer. */
  lemma ReadSpec(fs: Fs, i: nat, offset: nat, n: nat)
    requires Healthy(fs)
    ensures Sound(fs)
    ensures match ReadAt(fs, i, offset, n)
            case Err(e) => e == (if !fs.mounted then NotMounted else NotFound) && (fs.mounted ==> !IsFile(fs, i))
            case Ok(s) =>
              && fs.mounted && IsFile(fs, i) && |s| <= n
              && (offset < |Contents(fs, i)| ==> offset + |s| <= |Contents(fs, i)|)
              && (|s| < n ==> offset + |s| >= |Contents(fs, i)|)
              && (offset >= |Contents(fs, i)| ==> s == [])
              && forall j :: 0 <= j < |s| ==> s[j] == Contents(fs, i)[offset + j]
  {
  }

  /** Two reads in a row give what one read gives. */
  lemma ReadsJoin(fs: Fs, i: nat, offset: nat, m: nat, n: nat)
    requires Healthy(fs) && fs.mounted && IsFile(fs, i)
    ensures ReadAt(fs, i, offset, m).Ok?
    ensures var first := ReadAt(fs, i, offset, m).value;
            var second := ReadAt(fs, i, offset + |first|, n);
            second.Ok? && ReadAt(fs, i, offset, m + n) == Ok(first + second.value)
  {
    hide Contents, ReadAt, Healthy;
    ReadSpec(fs, i, offset, m);
    var first := ReadAt(fs, i, offset, m).value;
    ReadSpec(fs, i, offset + |first|, n);
    ReadSpec(fs, i, offset, m + n);
    var second, both := ReadAt(fs, i, offset + |first|, n).value, ReadAt(fs, i, offset, m + n).value;
    assert |both| == |first| + |second|;
    assert both == first + second;
  }

  /** A successful write changes of the inode table only the size, the time and the blocks of its file. */
  lemma WriteInode(fs: Fs, i: nat, offset: nat, data: Bytes, now: U32)
    requires Healthy(fs) && fs.mounted && Written(fs, i, offset, data, now).1.Ok?
    ensures i < MAX_INODES
    ensures var x, y := fs.inodes[i], Written(fs, i, offset, data, now).0.inodes[i];
            && Written(fs, i, offset, data, now).0.inodes == fs.inodes[i := y]
            && y == x.(size := y.size, mtime := now, blocks := y.blocks)
            && y.size == (if offset + |data| > x.size then offset + |data| else x.size)
  {
    hide Healthy, Put, Grown, WithRoom;
    WriteSpec(fs, i, offset, data, now);
    WriteOutcome(fs, i, offset, data, now);
  }

  // ---- resolving ----------------------------------------------------------------------------------

  /** The names from the root down to live inode `i` are these. */
  ghost predicate IsAt(t: Table, i: nat, names: seq<Bytes>) {
    Live(t, i) && Hangs(t, i, MAX_DEPTH) && Names(t, i, MAX_DEPTH) == names
  }

  /** On a tree a path leads exactly to the inode whose names are its components. */
  lemma ResolveIff(t: Table, path: Bytes, i: nat)
    requires Tree(t)
    ensures Resolve(t, path) == Some(i) <==> IsAt(t, i, Components(path))
  {
    var comps := Components(path);
    ComponentsClean(path);
    hide Tree, Components, Walk;
    if Walk(t, comps).Some? {
      WalkEnds(t, comps);
      HangsMore(t, Walk(t, comps).value, |comps|, MAX_DEPTH);
    }
    if IsAt(t, i, comps) {
      WalkNames(t, i, MAX_DEPTH);
    }
  }

  /** One inode at most has these names. */
  lemma OneAt(t: Table, i: nat, j: nat, names: seq<Bytes>)
    requires Tree(t) && IsAt(t, i, names) && IsAt(t, j, names)
    ensures i == j
  {
    hide Tree;
    WalkNames(t, i, MAX_DEPTH);
    WalkNames(t, j, MAX_DEPTH);
  }

  // ---- making -------------------------------------------------------------------------------------

  /** The last piece of a path, and the components above it. */
  function LastPart(path: Bytes): Bytes {
    Leaf(Trimmed(path))
  }

  function Above(path: Bytes): seq<Bytes> {
    var comps := Components(path);
    if comps == [] || LastPart(path) == [DOT] then comps else comps[..|comps| - 1]
  }

  ghost predicate SomethingAt(t: Table, names: seq<Bytes>) {
    exists i: nat :: IsAt(t, i, names)
  }

  ghost predicate DirectoryAt(t: Table, names: seq<Bytes>) {
    exists d: nat :: IsAt(t, d, names) && t[d].kind == KIND_DIR
  }

  predicate TableFull(t: Table) {
    forall i :: 0 < i < MAX_INODES ==> t[i].kind != KIND_FREE
  }

  lemma PathParts(path: Bytes)
    requires LastPart(path) != []
    ensures Components(Dir(Trimmed(path))) == Above(path)
  {
    ComponentsTrimmed(path);
    ComponentsOfDir(Trimmed(path));
  }

  lemma EmptyPath(path: Bytes)
    requires LastPart(path) == []
    ensures Components(path) == []
  {
    ComponentsTrimmed(path);
    var p := Trimmed(path);
    assert p == [];
    assert Split([]) == [[]];
    assert Kept([[]][..0]) == [] && Skipped([]);
  }

  lemma WhereResolved(t: Table, path: Bytes)
    requires Tree(t)
    ensures Resolve(t, path).Some? <==> SomethingAt(t, Components(path))
    ensures Resolve(t, path).Some? ==> IsAt(t, Resolve(t, path).value, Components(path))
  {
    hide Tree, Resolve, Components;
    if Resolve(t, path).Some? {
      ResolveIff(t, path, Resolve(t, path).value);
    }
    if SomethingAt(t, Components(path)) {
      var i: nat :| IsAt(t, i, Components(path));
      ResolveIff(t, path, i);
    }
  }

  /** When `mkdir` and `create` succeed, and which error they give otherwise. */
  lemma MadeAnswers(fs: Fs, path: Bytes, kind: U32, now: U32)
    requires Sized(fs) && fs.mounted && Tree(fs.inodes)
    ensures var t, r := fs.inodes, Made(fs, path, kind, now).1;
            && (r == Err(Exists) <==> SomethingAt(t, Components(path)))
            && (!SomethingAt(t, Components(path)) ==>
                  if |LastPart(path)| >= MAX_NAME then r == Err(NameTooLong)
                  else if |Components(path)| > MAX_DEPTH then r == Err(TooDeep)
                  else if !DirectoryAt(t, Above(path)) then r == Err(BadPath)
                  else if TableFull(t) then r == Err(TooManyFiles)
                  else r.Ok?)
            && (r.Err? ==> Made(fs, path, kind, now).0 == fs)
  {
    var t := fs.inodes;
    WhereResolved(t, path);
    hide Tree, Components, InodesFlushed, NewInode, IsAt;
    if LastPart(path) == [] {
      EmptyPath(path);
      RootIsThere(t);
      assert IsAt(t, ROOT, Components(path));
    } else {
      PathParts(path);
      ComponentsTrimmed(path);
      WhereResolved(t, Dir(Trimmed(path)));
      WhichDirectory(t, path);
      RoomForOne(t);
    }
  }

  lemma RootIsThere(t: Table)
    requires Tree(t)
    ensures IsAt(t, ROOT, [])
  {
  }

  /** The parent directory is found exactly when there is one. */
  lemma WhichDirectory(t: Table, path: Bytes)
    requires Tree(t) && LastPart(path) != []
    ensures var d := Resolve(t, Dir(Trimmed(path)));
            d.Some? ==> d.value < MAX_INODES
    ensures var d := Resolve(t, Dir(Trimmed(path)));
            (d.Some? && t[d.value].kind == KIND_DIR) <==> DirectoryAt(t, Above(path))
  {
    PathParts(path);
    ResolveBound(t, Dir(Trimmed(path)));
    WhereResolved(t, Dir(Trimmed(path)));
    hide Tree, Resolve, Components, IsAt;
    if DirectoryAt(t, Above(path)) {
      var d: nat :| IsAt(t, d, Above(path)) && t[d].kind == KIND_DIR;
      ResolveIff(t, Dir(Trimmed(path)), d);
    }
  }

  lemma RoomForOne(t: Table)
    ensures FirstFreeInode(t, 0) == MAX_INODES <==> TableFull(t)
  {
  }

  /** What is made: the lowest free inode is an empty file or directory of that name in that directory, made
      now; nothing else in the table changes. */
  lemma MadeInode(fs: Fs, path: Bytes, kind: U32, now: U32)
    requires Sized(fs) && fs.mounted && Tree(fs.inodes) && Made(fs, path, kind, now).1.Ok?
    ensures var (g, r) := Made(fs, path, kind, now);
            && 0 < r.value < MAX_INODES && fs.inodes[r.value].kind == KIND_FREE
            && (forall k :: 0 < k < r.value ==> fs.inodes[k].kind != KIND_FREE)
            && g == InodesFlushed(SetInode(fs, r.value, g.inodes[r.value])) && g.inodes[r.value].kind == kind
            && g.inodes[r.value].size == 0 && g.inodes[r.value].mtime == now
            && NameOf(g.inodes[r.value]) == Cut(LastPart(path))
            && IsAt(fs.inodes, g.inodes[r.value].parent, Above(path))
  {
    MadeHow(fs, path, kind, now);
    var t := fs.inodes;
    var (d, leaf) := SplitParent(t, path).value;
    SplitWhere(t, path);
    NewNamed(d, leaf, kind, now);
    hide InodesFlushed, SplitParent, Made, NewInode, NameOf, Cut, IsAt, Components, Tree, LastPart;
  }

  lemma MadeHow(fs: Fs, path: Bytes, kind: U32, now: U32)
    requires Sized(fs) && fs.mounted && Made(fs, path, kind, now).1.Ok?
    ensures SplitParent(fs.inodes, path).Ok?
    ensures var (d, leaf) := SplitParent(fs.inodes, path).value;
            var (g, r) := Made(fs, path, kind, now);
            && 0 < r.value < MAX_INODES && fs.inodes[r.value].kind == KIND_FREE
            && (forall k :: 0 < k < r.value ==> fs.inodes[k].kind != KIND_FREE)
            && g.inodes[r.value] == NewInode(d, leaf, kind, now)
            && g == InodesFlushed(SetInode(fs, r.value, g.inodes[r.value]))
  {
    hide SplitParent, Resolve, NewInode;
  }

  lemma SplitWhere(t: Table, path: Bytes)
    requires Tree(t) && SplitParent(t, path).Ok?
    ensures var (d, leaf) := SplitParent(t, path).value; leaf == LastPart(path) && IsAt(t, d, Above(path))
  {
    var (d, leaf) := SplitParent(t, path).value;
    hide Tree, Resolve, IsAt, Components;
    PathParts(path);
    ResolveIff(t, Dir(Trimmed(path)), d);
  }

  lemma NewNamed(d: U32, leaf: Bytes, kind: U32, now: U32)
    requires |leaf| < MAX_NAME
    ensures var x := NewInode(d, leaf, kind, now);
            x.kind == kind && x.parent == d && x.size == 0 && x.mtime == now && NameOf(x) == Cut(leaf)
  {
    CutPadded(leaf, MAX_NAME - |leaf|);
  }

  /** Below every directory that is not at the greatest depth every good name that is not taken there can be
      made, as long as the table has room; the path of the directory, a slash and the name lead to it. */
  lemma MadeBelow(fs: Fs, d: nat, name: Bytes, kind: U32, now: U32)
    requires Sized(fs) && fs.mounted && Tree(fs.inodes) && kind != KIND_FREE && !TableFull(fs.inodes)
    requires Live(fs.inodes, d) && fs.inodes[d].kind == KIND_DIR && GoodName(name)
    requires forall i: nat :: Live(fs.inodes, i) && i != ROOT && fs.inodes[i].parent == d ==>
      NameOf(fs.inodes[i]) != name
    requires Hangs(fs.inodes, d, MAX_DEPTH - 1)
    ensures PathOf(fs.inodes, d).Some?
    ensures var path := PathOf(fs.inodes, d).value + [SLASH] + name;
            var (g, r) := Made(fs, path, kind, now);
            && r.Ok? && g.inodes[r.value].parent == d && NameOf(g.inodes[r.value]) == name
            && Tree(g.inodes) && Resolve(g.inodes, path) == Some(r.value)
  {
    var t := fs.inodes;
    var path := BelowPath(t, d, name);
    NothingBelow(t, d, name);
    MadeAnswers(fs, path, kind, now);
    var names := Names(t, d, MAX_DEPTH);
    assert IsAt(t, d, names);
    assert Above(path) == names;
    assert DirectoryAt(t, Above(path));
    hide Tree, IsAt, Made, Components;
    MadeInode(fs, path, kind, now);
    OneAt(t, d, Made(fs, path, kind, now).0.inodes[Made(fs, path, kind, now).1.value].parent, names);
    CutClean(name);
    MadeCleanTree(fs, path, kind, now);
    MadeResolves(fs, path, kind, now);
  }

  lemma BelowPath(t: Table, d: nat, name: Bytes) returns (path: Bytes)
    requires Tree(t) && Live(t, d) && GoodName(name) && Hangs(t, d, MAX_DEPTH - 1)
    ensures PathOf(t, d).Some? && path == PathOf(t, d).value + [SLASH] + name
    ensures Hangs(t, d, MAX_DEPTH) && Components(path) == Names(t, d, MAX_DEPTH) + [name]
    ensures |Names(t, d, MAX_DEPTH)| < MAX_DEPTH && LastPart(path) == name && 0 !in path
  {
    HangsMore(t, d, MAX_DEPTH - 1, MAX_DEPTH);
    PathOfPrints(t, d);
    NamesGood(t, d, MAX_DEPTH);
    var p := PathOf(t, d).value;
    path := p + [SLASH] + name;
    ComponentsCanonical(Names(t, d, MAX_DEPTH));
    SplitLeaf(p, name);
    KeptLast(Split(p), name);
    assert path[|path| - 1] == name[|name| - 1];
    assert Trimmed(path) == path;
    LeafOf(p + [SLASH], name);
    NoZeroPath(t, d, MAX_DEPTH);
  }

  lemma {:induction false} NoZeroPath(t: Table, i: nat, n: nat)
    requires Hangs(t, i, n)
    ensures 0 !in Render(Names(t, i, n)) && 0 !in Canonical(Names(t, i, n))
    decreases n
  {
    if i != ROOT {
      NoZeroPath(t, t[i].parent, n - 1);
      var names := Names(t, i, n);
      assert names[..|names| - 1] == Names(t, t[i].parent, n - 1);
    }
  }

  /** A name that is not taken in a directory leads nowhere below it. */
  lemma NothingBelow(t: Table, d: nat, name: Bytes)
    requires Tree(t) && Live(t, d) && Hangs(t, d, MAX_DEPTH)
    requires forall i: nat :: Live(t, i) && i != ROOT && t[i].parent == d ==> NameOf(t[i]) != name
    ensures !SomethingAt(t, Names(t, d, MAX_DEPTH) + [name])
  {
    var names := Names(t, d, MAX_DEPTH);
    forall i: nat ensures !IsAt(t, i, names + [name]) {
      if IsAt(t, i, names + [name]) {
        var p := t[i].parent;
        assert (names + [name])[..|names|] == names && (names + [name])[|names|] == name;
        var above := Names(t, p, MAX_DEPTH - 1);
        assert names + [name] == above + [NameOf(t[i])];
        assert above == (above + [NameOf(t[i])])[..|above|] == names;
        HangsMore(t, p, MAX_DEPTH - 1, MAX_DEPTH);
        assert IsAt(t, p, names) && IsAt(t, d, names);
        OneAt(t, p, d, names);
      }
    }
  }

  // ---- removing -------------------------------------------------------------------------------------

  /** Without a childless inode every other one is where it was. */
  lemma IsAtWithout(t: Table, k: nat, i: nat, names: seq<Bytes>)
    requires Tree(t) && k != ROOT && k < MAX_INODES && !HasChild(t, k)
    ensures IsAt(t[k := EmptyInode()], i, names) <==> i != k && IsAt(t, i, names)
  {
    var u := t[k := EmptyInode()];
    if i != k && Live(t, i) {
      assert Live(u, i) && (i == ROOT || Hangs(t, i, MAX_DEPTH));
      HangsWithout(t, k, i, MAX_DEPTH);
    }
  }

  /** A path that led to it leads nowhere, and every other path where it led before. */
  lemma ResolveWithout(t: Table, k: nat, path: Bytes)
    requires Tree(t) && k != ROOT && k < MAX_INODES && !HasChild(t, k)
    ensures Resolve(t[k := EmptyInode()], path) == if Resolve(t, path) == Some(k) then None else Resolve(t, path)
  {
    var u := t[k := EmptyInode()];
    TreeWithout(t, k);
    hide Tree, Resolve, IsAt, Components, HasChild;
    WhereResolved(u, path);
    if Resolve(t, path).Some? {
      var i := Resolve(t, path).value;
      ResolveIff(t, path, i);
      IsAtWithout(t, k, i, Components(path));
      ResolveIff(u, path, i);
    }
    if Resolve(u, path).Some? {
      var i := Resolve(u, path).value;
      IsAtWithout(t, k, i, Components(path));
      ResolveIff(t, path, i);
    }
  }

  /** When `rmdir` succeeds, and which error it gives otherwise. */
  lemma RmdirAnswers(fs: Fs, path: Bytes)
    requires Sized(fs) && fs.mounted && Tree(fs.inodes)
    ensures var t, names := fs.inodes, Components(path);
            var (g, r) := DirRemoved(fs, path);
            && (names == [] ==> r == Err(BadPath))
            && (names != [] && !DirectoryAt(t, names) ==> r == Err(NotFound))
            && (r.Err? ==> g == fs)
            && forall d: nat :: names != [] && IsAt(t, d, names) && t[d].kind == KIND_DIR ==>
                 if HasChild(t, d) then r == Err(NotEmpty)
                 else r.Ok? && forall p: Bytes ::
                   Resolve(g.inodes, p) == if Resolve(t, p) == Some(d) then None else Resolve(t, p)
  {
    var t, names := fs.inodes, Components(path);
    var (g, r) := DirRemoved(fs, path);
    RootIsThere(t);
    WhereResolved(t, path);
    ResolveBound(t, path);
    NamelessIsRoot(t, names);
    hide Tree, Resolve, IsAt, Components, InodesFlushed, HasChild;
    if names == [] {
      ResolveIff(t, path, ROOT);
    }
    forall d: nat | names != [] && IsAt(t, d, names) && t[d].kind == KIND_DIR
      ensures Resolve(t, path) == Some(d)
      ensures !HasChild(t, d) ==> r.Ok?
      ensures !HasChild(t, d) ==>
        forall p: Bytes :: Resolve(g.inodes, p) == if Resolve(t, p) == Some(d) then None else Resolve(t, p)
    {
      ResolveIff(t, path, d);
      if !HasChild(t, d) {
        RemovedDir(fs, d);
        forall p: Bytes ensures Resolve(g.inodes, p) == if Resolve(t, p) == Some(d) then None else Resolve(t, p) {
          ResolveWithout(t, d, p);
        }
      }
    }
  }

  lemma RemovedDir(fs: Fs, d: nat)
    requires Sized(fs) && d < MAX_INODES
    ensures InodesFlushed(SetInode(fs, d, EmptyInode())).inodes == fs.inodes[d := EmptyInode()]
  {
  }

  /** Only the root has no names. */
  lemma NamelessIsRoot(t: Table, names: seq<Bytes>)
    ensures IsAt(t, ROOT, names) ==> names == []
  {
  }

  /** After `remove` no path leads to the file, and every other path leads where it did. */
  lemma RemovedPaths(fs: Fs, i: nat, path: Bytes)
    requires Healthy(fs) && fs.mounted && Tree(fs.inodes) && FileRemoved(fs, i).1.Ok?
    ensures var t := fs.inodes;
            Resolve(FileRemoved(fs, i).0.inodes, path) == if Resolve(t, path) == Some(i) then None else Resolve(t, path)
  {
    hide Healthy, FileRemoved, SameOthers;
    RemoveSpec(fs, i);
    FilesChildless(fs.inodes, i);
    ResolveWithout(fs.inodes, i, path);
  }

  lemma FilesChildless(t: Table, i: nat)
    requires Tree(t) && i < MAX_INODES && t[i].kind == KIND_FILE
    ensures i != ROOT && !HasChild(t, i)
  {
    forall j: nat | Live(t, j) && j != i ensures t[j].parent != i {
      assert j == ROOT || Hangs(t, j, MAX_DEPTH);
    }
  }

  // ---- volumes --------------------------------------------------------------------------------------

  /** The capacity is the largest number of blocks that fit. */
  lemma CapacityLargest(sectors: nat, n: nat)
    ensures n <= Capacity(sectors) <==> n == 0 || (n <= MAX_BLOCKS && DATA_START + n * SECTORS_PER_BLOCK <= sectors)
  {
  }

  /** The bytes a formatted partition starts with: "TCMK" and the version. */
  const SIGNATURE: Bytes := [0x54, 0x43, 0x4D, 0x4B]
  const VERSION_BYTES: Bytes := [2, 0, 0, 0]

  /** `mount` succeeds exactly on a partition of a device that starts with the signature and the version, and
      otherwise keeps what was mounted. */
  lemma MountAnswers(fs: Fs, part: Option<Partition>, device: bool)
    requires part.Some? ==> DiskHolds(part.value, fs.disk)
    ensures var (g, r) := Mounted(fs, part, device);
            if part.None? then r == Err(NoPartition) && g == fs
            else if !device then r == Err(NoDevice) && g == fs
            else
              var at := SectorAt(part.value.lba, 0);
              && g.disk == fs.disk
              && (r.Err? ==> g == fs.(lba := part.value.lba))
              && r == (if fs.disk[at..at + 4] != SIGNATURE then Err(NotFormatted)
                       else if fs.disk[at + 4..at + 8] != VERSION_BYTES then Err(BadVersion) else Ok(()))
              && (r.Ok? ==> g.mounted && g.lba == part.value.lba && g.free == FreeBelow(g.bitmap, g.total)
                            && g.total == (if WordAt(fs.disk, at + 8) < Capacity(part.value.sectors) then
                                             WordAt(fs.disk, at + 8) else Capacity(part.value.sectors)))
  {
    hide SuperOf, TableFrom, FreeBelow, Capacity, SectorAt;
    if part.Some? && device {
      SuperIs(fs, part.value.lba);
    }
  }

  lemma SuperIs(fs: Fs, lba: nat)
    requires SectorAt(lba, META_SECTORS) <= |fs.disk|
    ensures var s, at := SuperOf(fs.(lba := lba)), SectorAt(lba, 0);
            && (s.magic == MAGIC <==> fs.disk[at..at + 4] == SIGNATURE)
            && (s.version == VERSION <==> fs.disk[at + 4..at + 8] == VERSION_BYTES)
            && s.total == WordAt(fs.disk, at + 8)
  {
    var at := SectorAt(lba, 0);
    var sector := fs.disk[at..SectorAt(lba, 1)];
    SliceOfSlice(fs.disk, at, SectorAt(lba, 1), 0, 4);
    SliceOfSlice(fs.disk, at, SectorAt(lba, 1), 4, 8);
    WordIs(sector, 0, SIGNATURE, MAGIC);
    WordIs(sector, 4, VERSION_BYTES, VERSION);
  }

  lemma SliceOfSlice(s: Bytes, a: nat, b: nat, i: nat, j: nat)
    requires a <= b <= |s| && i <= j <= b - a
    ensures s[a..b][i..j] == s[a + i..a + j]
  {
    forall k | 0 <= k < j - i ensures s[a..b][i..j][k] == s[a + i..a + j][k] {
      assert s[a..b][i..j][k] == s[a..b][i + k];
    }
  }

  lemma WordIs(s: Bytes, at: nat, d: Bytes, w: U32)
    requires at + 4 <= |s| && d == Le(w)
    ensures s[at..at + 4] == d <==> WordAt(s, at) == w
  {
    var e := s[at..at + 4];
    LeValue(w);
    LeOfWord(s, at);
    if WordAt(s, at) == w {
      assert e == Le(w);
    }
  }

  lemma LeOfWord(s: Bytes, at: nat)
    requires at + 4 <= |s|
    ensures Le(WordAt(s, at)) == s[at..at + 4]
  {
    var w := WordAt(s, at);
    var a, b, c, d := s[at] as int, s[at + 1] as int, s[at + 2] as int, s[at + 3] as int;
    assert w / 256 == b + 256 * c + 65536 * d;
    assert w / 65536 == c + 256 * d;
  }

  /** Without a partition or a device `format` refuses and changes nothing. */
  lemma FormatRefuses(fs: Fs, part: Option<Partition>, device: bool, text: Bytes, now: U32, home: U32, tmp: U32)
    requires part.Some? ==> DiskHolds(part.value, fs.disk)
    ensures var (g, r) := Formatted(fs, part, device, text, now, home, tmp);
            && (r.Err? <==> part.None? || !device) && (r.Err? ==> g == fs)
            && (part.None? ==> r == Err(NoPartition)) && (part.Some? && !device ==> r == Err(NoDevice))
  {
    if part.Some? && device {
      FormatSpec(fs, part.value, text, now, home, tmp);
    }
  }

  lemma MadeSuper(fs: Fs, path: Bytes, kind: U32, now: U32)
    requires Sized(fs)
    ensures SuperOf(Made(fs, path, kind, now).0) == SuperOf(fs)
  {
    hide TableBytes, SuperFrom, Resolve, SplitParent, Splice;
    if Made(fs, path, kind, now).1.Ok? {
      MadeHow(fs, path, kind, now);
      var (g, r) := Made(fs, path, kind, now);
      FlushedTable(SetInode(fs, r.value, g.inodes[r.value]));
    }
  }

  /** The title on a formatted partition is the text given, cut after 15 bytes and filled with zeros. */
  lemma FormatTitle(fs: Fs, part: Partition, text: Bytes, now: U32, home: U32, tmp: U32)
    requires DiskHolds(part, fs.disk)
    ensures var g := Formatted(fs, Some(part), true, text, now, home, tmp).0;
            && Sized(g)
            && forall k :: 0 <= k < 16 ==> SuperOf(g).title[k] == if k < 15 && k < |text| then text[k] else 0
  {
    hide Made, Blank, Capacity, SuperOf;
    FormatSpec(fs, part, text, now, home, tmp);
    BlankTitle(part, text, fs.disk, now);
    var a := Blank(part, text, fs.disk, now);
    MadeSuper(a, HOME, KIND_DIR, home);
    MadeSuper(Made(a, HOME, KIND_DIR, home).0, TMP, KIND_DIR, tmp);
  }

  lemma BlankTitle(part: Partition, text: Bytes, disk: Bytes, now: U32)
    requires DiskHolds(part, disk)
    ensures SuperOf(Blank(part, text, disk, now)).title == Title(text)
  {
    hide Capacity, InodesFlushed, BitmapFlushed, SuperFrom, SuperBytes, Title;
    var total := Capacity(part.sectors);
    var fs := Fs(false, part.lba, total, total, RootOnly(now), ZeroBytes(BITMAP_BYTES), disk);
    var s := Super(MAGIC, VERSION, total, total, MAX_INODES, 0, BLOCK, DATA_START, Title(text));
    WrittenSuper(BitmapFlushed(InodesFlushed(fs)), s);
    SuperRoundTrip(s);
  }
}

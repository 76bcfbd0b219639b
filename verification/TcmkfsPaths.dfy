/** Paths as byte strings, and the directory tree in the inode table: `child_of`, `resolve`,
    `split_parent` and `path_of` of kernel/src/level0a/core/tcmkfs.rs. */
module TcmkfsPaths {
  import opened Basics
  import opened LittleEndian
  import opened TcmkfsDisk

  const SLASH: Byte := 47
  const DOT: Byte := 46
  const MAX_DEPTH: nat := 8
  /** MAX_DEPTH * (MAX_NAME + 1) + 1 */
  const PATH_MAX: nat := 521

  datatype Error =
    | NoDevice | NoPartition | NotFormatted | NotMounted | Full | TooManyFiles | NameTooLong | FileTooLarge
    | NotFound | Exists | BadVersion | BadPath | NotEmpty | TooDeep

  datatype Result<+T> = Ok(value: T) | Err(error: Error)

  // ---- strings ----------------------------------------------------------------------------------

  /** The pieces between the slashes. */
  function Split(p: Bytes): (r: seq<Bytes>)
    ensures |r| > 0
  {
    if p == [] then [[]]
    else
      var r := Split(p[..|p| - 1]);
      var c := p[|p| - 1];
      if c == SLASH then r + [[]] else r[..|r| - 1] + [r[|r| - 1] + [c]]
  }

  predicate Skipped(part: Bytes) {
    part == [] || part == [DOT]
  }

  function Kept(parts: seq<Bytes>): (r: seq<Bytes>)
    ensures |r| <= |parts|
  {
    if parts == [] then []
    else Kept(parts[..|parts| - 1]) + (if Skipped(parts[|parts| - 1]) then [] else [parts[|parts| - 1]])
  }

  /** The components of a path that count. */
  function Components(p: Bytes): seq<Bytes> {
    Kept(Split(p))
  }

  /** Without the slashes at its end. */
  function Trimmed(p: Bytes): (r: Bytes)
    ensures r <= p
    ensures r == [] || r[|r| - 1] != SLASH
  {
    if p != [] && p[|p| - 1] == SLASH then Trimmed(p[..|p| - 1]) else p
  }

  /** What follows the last slash; all of it when there is none. */
  function Leaf(p: Bytes): (r: Bytes)
    ensures |r| <= |p| && r == p[|p| - |r|..]
    ensures SLASH !in r
    ensures |r| < |p| ==> p[|p| - |r| - 1] == SLASH
  {
    if p == [] || p[|p| - 1] == SLASH then [] else Leaf(p[..|p| - 1]) + [p[|p| - 1]]
  }

  /** What precedes the last slash; nothing when there is none. */
  function Dir(p: Bytes): Bytes {
    if |Leaf(p)| == |p| then [] else p[..|p| - |Leaf(p)| - 1]
  }

  /** Up to the first zero byte. */
  function Cut(s: Bytes): (r: Bytes)
    ensures r <= s && 0 !in r
    ensures |r| < |s| ==> s[|r|] == 0
  {
    if s == [] || s[0] == 0 then [] else [s[0]] + Cut(s[1..])
  }

  function Padded(s: Bytes): (r: Bytes)
    requires |s| <= MAX_NAME
    ensures |r| == MAX_NAME
  {
    s + ZeroBytes(MAX_NAME - |s|)
  }

  function NameOf(i: Inode): (r: Bytes)
    ensures 0 !in r
  {
    Cut(i.name)
  }

  // ---- the tree ---------------------------------------------------------------------------------

  type Table = t: seq<Inode> | |t| == MAX_INODES witness seq(MAX_INODES, _ => EmptyInode())

  predicate IsChild(t: Table, i: nat, parent: nat, name: Bytes)
    requires i < MAX_INODES
  {
    t[i].kind != KIND_FREE && t[i].parent == parent && i != ROOT && NameOf(t[i]) == name
  }

  ghost function FirstChild(t: Table, i: nat, parent: nat, name: Bytes): (r: Option<nat>)
    requires i <= MAX_INODES
    ensures r.Some? ==> i <= r.value < MAX_INODES && IsChild(t, r.value, parent, name)
    ensures forall j :: i <= j < (if r.Some? then r.value else MAX_INODES) ==> !IsChild(t, j, parent, name)
    decreases MAX_INODES - i
  {
    if i == MAX_INODES then None
    else if IsChild(t, i, parent, name) then Some(i)
    else FirstChild(t, i + 1, parent, name)
  }

  /** `child_of` */
  ghost function ChildOf(t: Table, parent: nat, name: Bytes): Option<nat> {
    if name == [] then Some(parent) else FirstChild(t, 0, parent, name)
  }

  /** The walk from the root along the components. */
  ghost function Walk(t: Table, comps: seq<Bytes>): Option<nat> {
    if comps == [] then Some(ROOT)
    else
      match Walk(t, comps[..|comps| - 1])
      case None => None
      case Some(c) =>
        if |comps| > MAX_DEPTH || c >= MAX_INODES || t[c].kind != KIND_DIR then None
        else ChildOf(t, c, comps[|comps| - 1])
  }

  /** `resolve` */
  ghost function Resolve(t: Table, path: Bytes): Option<nat> {
    Walk(t, Components(path))
  }

  /** `split_parent` */
  ghost function SplitParent(t: Table, path: Bytes): (r: Result<(nat, Bytes)>)
    ensures r.Ok? ==> r.value.0 < MAX_INODES && 0 < |r.value.1| < MAX_NAME
  {
    var p := Trimmed(path);
    if Leaf(p) == [] || |Leaf(p)| >= MAX_NAME then Err(NameTooLong)
    else if |Components(p)| > MAX_DEPTH then Err(TooDeep)
    else
      match Resolve(t, Dir(p))
      case None => Err(BadPath)
      case Some(d) => if d >= MAX_INODES || t[d].kind != KIND_DIR then Err(BadPath) else Ok((d, Leaf(p)))
  }

  /** The first loop of `path_of`: the inodes from `current` up to below the root, deepest first. */
  ghost function ClimbFrom(t: Table, current: nat, chain: seq<nat>): (r: Option<seq<nat>>)
    requires |chain| <= MAX_DEPTH
    ensures r.Some? ==> |r.value| <= MAX_DEPTH
    decreases MAX_DEPTH - |chain|
  {
    if current == ROOT then Some(chain)
    else if |chain| == MAX_DEPTH || current >= MAX_INODES || t[current].parent == current then None
    else ClimbFrom(t, t[current].parent, chain + [current])
  }

  /** The second loop: the names of `chain[..n]`, last first, after `path`. */
  ghost function JoinFrom(t: Table, chain: seq<nat>, n: nat, path: Bytes): Option<Bytes>
    requires n <= |chain|
  {
    if n == 0 then Some(path)
    else if chain[n - 1] >= MAX_INODES || |path| + 1 + |NameOf(t[chain[n - 1]])| >= PATH_MAX then None
    else JoinFrom(t, chain, n - 1, path + [SLASH] + NameOf(t[chain[n - 1]]))
  }

  /** `path_of` */
  ghost function PathOf(t: Table, i: nat): Option<Bytes> {
    if i == ROOT then Some([SLASH])
    else
      match ClimbFrom(t, i, [])
      case None => None
      case Some(chain) => JoinFrom(t, chain, |chain|, [])
  }

  // ---- what a healthy table looks like -----------------------------------------------------------

  ghost predicate Live(t: Table, i: nat) {
    i < MAX_INODES && t[i].kind != KIND_FREE
  }

  ghost predicate GoodName(name: Bytes) {
    0 < |name| < MAX_NAME && SLASH !in name && name != [DOT] && 0 !in name
  }

  /** Inode `i` hangs below the root by at most `n` steps through live directories. */
  ghost predicate Hangs(t: Table, i: nat, n: nat)
    decreases n
  {
    i == ROOT || (n > 0 && Live(t, i) && Live(t, t[i].parent) && t[t[i].parent].kind == KIND_DIR
      && Hangs(t, t[i].parent, n - 1))
  }

  ghost predicate Siblings(t: Table, i: nat, j: nat) {
    Live(t, i) && Live(t, j) && i != ROOT && j != ROOT && t[i].parent == t[j].parent && NameOf(t[i]) == NameOf(t[j])
  }

  /** A rooted tree of depth at most MAX_DEPTH whose inner nodes are directories and whose siblings
      have different, well-formed names. */
  ghost predicate Tree(t: Table) {
    && t[ROOT].kind == KIND_DIR && t[ROOT].parent == ROOT
    && (forall i: nat {:trigger Hangs(t, i, MAX_DEPTH)} {:trigger Live(t, i)} ::
          Live(t, i) && i != ROOT ==> Hangs(t, i, MAX_DEPTH) && GoodName(NameOf(t[i])))
    && (forall i: nat, j: nat {:trigger Siblings(t, i, j)} :: Siblings(t, i, j) ==> i == j)
  }
}

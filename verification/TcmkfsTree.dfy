/** The directory tree of TCMKFS: parsing and printing paths undo each other, and every operation keeps
    the tree. */
module TcmkfsTree {
  import opened Basics
  import opened LittleEndian
  import opened TcmkfsDisk
  import opened TcmkfsPaths

  // ---- splitting and rendering -------------------------------------------------------------------

  lemma SplitSlash(p: Bytes)
    ensures Split(p + [SLASH]) == Split(p) + [[]]
  {
    assert (p + [SLASH])[..|p|] == p;
  }

  lemma {:induction false} SplitLeaf(p: Bytes, leaf: Bytes)
    requires SLASH !in leaf
    ensures Split(p + [SLASH] + leaf) == Split(p) + [leaf]
  {
    if leaf == [] {
      SplitSlash(p);
      assert p + [SLASH] + leaf == p + [SLASH];
    } else {
      var front := leaf[..|leaf| - 1];
      SplitLeaf(p, front);
      assert (p + [SLASH] + leaf)[..|p| + |leaf|] == p + [SLASH] + front;
      assert front + [leaf[|leaf| - 1]] == leaf;
    }
  }

  lemma {:induction false} SplitAlone(leaf: Bytes)
    requires SLASH !in leaf
    ensures Split(leaf) == [leaf]
  {
    if leaf != [] {
      SplitAlone(leaf[..|leaf| - 1]);
      assert leaf[..|leaf| - 1] + [leaf[|leaf| - 1]] == leaf;
    }
  }

  lemma KeptLast(parts: seq<Bytes>, x: Bytes)
    ensures Kept(parts + [x]) == Kept(parts) + (if Skipped(x) then [] else [x])
  {
    assert (parts + [x])[..|parts|] == parts;
  }

  lemma {:induction false} ComponentsTrimmed(p: Bytes)
    ensures Components(Trimmed(p)) == Components(p)
  {
    if p != [] && p[|p| - 1] == SLASH {
      var front := p[..|p| - 1];
      ComponentsTrimmed(front);
      assert front + [SLASH] == p;
      SplitSlash(front);
      KeptLast(Split(front), []);
    }
  }

  /** The components of a path are those of its directory part and the leaf, unless that is ".". */
  lemma ComponentsOfDir(p: Bytes)
    requires Leaf(p) != []
    ensures Components(p) == Components(Dir(p)) + (if Leaf(p) == [DOT] then [] else [Leaf(p)])
  {
    var leaf := Leaf(p);
    if |leaf| == |p| {
      assert p == leaf;
      SplitAlone(p);
      KeptLast([], p);
      assert [] + [p] == [p];
      KeptLast([], []);
      assert [] + [[]] == Split([]);
    } else {
      var dir := Dir(p);
      assert p == dir + [SLASH] + leaf;
      SplitLeaf(dir, leaf);
      KeptLast(Split(dir), leaf);
    }
  }

  /** Every component counts. */
  ghost predicate Clean(comps: seq<Bytes>) {
    forall k :: 0 <= k < |comps| ==> !Skipped(comps[k]) && SLASH !in comps[k]
  }

  lemma {:induction false} SplitHasNoSlash(p: Bytes)
    ensures forall k :: 0 <= k < |Split(p)| ==> SLASH !in Split(p)[k]
  {
    if p != [] {
      SplitHasNoSlash(p[..|p| - 1]);
    }
  }

  lemma {:induction false} KeptClean(parts: seq<Bytes>)
    requires forall k :: 0 <= k < |parts| ==> SLASH !in parts[k]
    ensures Clean(Kept(parts))
  {
    if parts != [] {
      KeptClean(parts[..|parts| - 1]);
    }
  }

  lemma ComponentsClean(p: Bytes)
    ensures Clean(Components(p))
  {
    SplitHasNoSlash(p);
    KeptClean(Split(p));
  }

  /** A path in canonical form: a slash before every component. */
  function Render(names: seq<Bytes>): Bytes {
    if names == [] then [] else Render(names[..|names| - 1]) + [SLASH] + names[|names| - 1]
  }

  /** The path `path_of` prints for these components. */
  function Canonical(names: seq<Bytes>): Bytes {
    if names == [] then [SLASH] else Render(names)
  }

  lemma {:induction false} ComponentsRender(names: seq<Bytes>)
    requires Clean(names)
    ensures Components(Render(names)) == names
  {
    if names == [] {
      SplitAlone([]);
      KeptLast([], []);
      assert [] + [[]] == Split([]);
    } else {
      var front, last := names[..|names| - 1], names[|names| - 1];
      ComponentsRender(front);
      SplitLeaf(Render(front), last);
      KeptLast(Split(Render(front)), last);
    }
  }

  /** Parsing undoes printing. */
  lemma ComponentsCanonical(names: seq<Bytes>)
    requires Clean(names)
    ensures Components(Canonical(names)) == names
  {
    ComponentsRender(names);
    if names == [] {
      SplitSlash([]);
      assert [] + [SLASH] == [SLASH];
      KeptLast(Split([]), []);
    }
  }

  // ---- resolve and split_parent ------------------------------------------------------------------

  lemma WalkLast(t: Table, comps: seq<Bytes>, x: Bytes)
    ensures Walk(t, comps + [x]) ==
            match Walk(t, comps)
            case None => None
            case Some(c) =>
              if |comps| >= MAX_DEPTH || c >= MAX_INODES || t[c].kind != KIND_DIR then None else ChildOf(t, c, x)
  {
    assert (comps + [x])[..|comps|] == comps;
  }

  /** Resolving a path is looking its last component up in the directory `split_parent` finds. */
  lemma SplitParentResolves(t: Table, path: Bytes)
    requires SplitParent(t, path).Ok?
    ensures var (d, leaf) := SplitParent(t, path).value;
            && Resolve(t, path) == (if leaf == [DOT] then Some(d) else ChildOf(t, d, leaf))
            && Resolve(t, Dir(Trimmed(path))) == Some(d) && SLASH !in leaf
            && (leaf != [DOT] ==> |Components(Dir(Trimmed(path)))| < MAX_DEPTH)
  {
    ComponentsTrimmed(path);
    ComponentsOfDir(Trimmed(path));
    var (d, leaf) := SplitParent(t, path).value;
    var dirs := Components(Dir(Trimmed(path)));
    if leaf == [DOT] {
      assert dirs + [] == dirs;
    } else {
      assert |dirs + [leaf]| <= MAX_DEPTH;
      WalkLast(t, dirs, leaf);
    }
  }

  // ---- names along the tree ------------------------------------------------------------------------

  /** The names from the root down to `i`. */
  ghost function Names(t: Table, i: nat, n: nat): (r: seq<Bytes>)
    requires Hangs(t, i, n)
    ensures |r| <= n
    decreases n
  {
    if i == ROOT then [] else Names(t, t[i].parent, n - 1) + [NameOf(t[i])]
  }

  lemma {:induction false} HangsMore(t: Table, i: nat, n: nat, m: nat)
    requires Hangs(t, i, n) && n <= m
    ensures Hangs(t, i, m) && Names(t, i, m) == Names(t, i, n)
    decreases n
  {
    if i != ROOT {
      HangsMore(t, t[i].parent, n - 1, m - 1);
    }
  }

  lemma {:induction false} NotItsParent(t: Table, i: nat, n: nat)
    requires Hangs(t, i, n) && i != ROOT
    ensures t[i].parent != i
    decreases n
  {
    if t[i].parent == i {
      NotItsParent(t, i, n - 1);
    }
  }

  lemma {:induction false} NamesGood(t: Table, i: nat, n: nat)
    requires Tree(t) && Hangs(t, i, n)
    ensures Clean(Names(t, i, n)) && forall k :: 0 <= k < |Names(t, i, n)| ==> |Names(t, i, n)[k]| < MAX_NAME
    decreases n
  {
    if i != ROOT {
      NamesGood(t, t[i].parent, n - 1);
      assert Live(t, i) && GoodName(NameOf(t[i]));
    }
  }

  /** In a tree a child is found by its name, and only there. */
  lemma ChildFound(t: Table, i: nat)
    requires Tree(t) && Live(t, i) && i != ROOT
    ensures ChildOf(t, t[i].parent, NameOf(t[i])) == Some(i)
  {
    assert GoodName(NameOf(t[i]));
    var r := FirstChild(t, 0, t[i].parent, NameOf(t[i]));
    assert IsChild(t, i, t[i].parent, NameOf(t[i]));
    assert Siblings(t, r.value, i);
  }

  lemma {:induction false} WalkNames(t: Table, i: nat, n: nat)
    requires Tree(t) && Hangs(t, i, n) && n <= MAX_DEPTH
    ensures Walk(t, Names(t, i, n)) == Some(i)
    decreases n
  {
    hide Tree, NameOf, ChildOf;
    if i != ROOT {
      WalkNames(t, t[i].parent, n - 1);
      var up := Names(t, t[i].parent, n - 1);
      assert (up + [NameOf(t[i])])[..|up|] == up;
      ChildFound(t, i);
    }
  }

  /** A walk that succeeds ends where the names along it lead. */
  lemma {:induction false} WalkEnds(t: Table, comps: seq<Bytes>)
    requires Tree(t) && Clean(comps) && Walk(t, comps).Some?
    ensures var i := Walk(t, comps).value;
            |comps| <= MAX_DEPTH && Live(t, i) && Hangs(t, i, |comps|) && Names(t, i, |comps|) == comps
  {
    if comps != [] {
      var front, last := comps[..|comps| - 1], comps[|comps| - 1];
      WalkEnds(t, front);
      var i := Walk(t, comps).value;
      assert IsChild(t, i, Walk(t, front).value, last);
      assert Hangs(t, i, |comps|);
      assert front + [last] == comps;
    }
  }

  // ---- path_of -----------------------------------------------------------------------------------

  ghost function Up(t: Table, i: nat, n: nat): (r: seq<nat>)
    requires Hangs(t, i, n)
    ensures |r| <= n
    decreases n
  {
    if i == ROOT then [] else [i] + Up(t, t[i].parent, n - 1)
  }

  lemma {:induction false} ClimbUp(t: Table, i: nat, n: nat, chain: seq<nat>)
    requires Hangs(t, i, n) && |chain| + n <= MAX_DEPTH
    ensures ClimbFrom(t, i, chain) == Some(chain + Up(t, i, n))
    decreases n
  {
    if i == ROOT {
      assert chain + [] == chain;
    } else {
      NotItsParent(t, i, n);
      var p, rest := t[i].parent, Up(t, t[i].parent, n - 1);
      ClimbUp(t, p, n - 1, chain + [i]);
      assert chain + [i] + rest == chain + ([i] + rest);
    }
  }

  lemma {:induction false} RenderBound(names: seq<Bytes>)
    requires forall k :: 0 <= k < |names| ==> |names[k]| < MAX_NAME
    ensures |Render(names)| <= MAX_NAME * |names|
  {
    if names != [] {
      RenderBound(names[..|names| - 1]);
    }
  }

  lemma RenderLast(path: Bytes, names: seq<Bytes>, name: Bytes)
    ensures path + Render(names + [name]) == path + Render(names) + [SLASH] + name
  {
    assert (names + [name])[..|names|] == names;
  }

  lemma JoinOne(t: Table, chain: seq<nat>, k: nat, path: Bytes)
    requires k < |chain| && chain[k] < MAX_INODES && |path| + 1 + |NameOf(t[chain[k]])| < PATH_MAX
    ensures JoinFrom(t, chain, k + 1, path) == JoinFrom(t, chain, k, path + [SLASH] + NameOf(t[chain[k]]))
  {
  }

  lemma {:induction false} JoinUp(t: Table, i: nat, n: nat, chain: seq<nat>, k: nat, path: Bytes)
    requires Tree(t) && Hangs(t, i, n) && |path| + MAX_NAME * n < PATH_MAX && k <= |chain| && chain[k..] == Up(t, i, n)
    ensures JoinFrom(t, chain, |chain|, path) == JoinFrom(t, chain, k, path + Render(Names(t, i, n)))
    decreases n
  {
    if i == ROOT {
      assert path + [] == path;
    } else {
      var up, name := Names(t, t[i].parent, n - 1), NameOf(t[i]);
      assert chain[k + 1..] == chain[k..][1..] && chain[k] == chain[k..][0];
      JoinUp(t, t[i].parent, n - 1, chain, k + 1, path);
      NameBound(t, i, n);
      RenderLast(path, up, name);
      JoinOne(t, chain, k, path + Render(up));
    }
  }

  lemma NameBound(t: Table, i: nat, n: nat)
    requires Tree(t) && Hangs(t, i, n) && i != ROOT
    ensures |Render(Names(t, t[i].parent, n - 1))| + 1 + |NameOf(t[i])| <= MAX_NAME * n
  {
    NamesGood(t, t[i].parent, n - 1);
    RenderBound(Names(t, t[i].parent, n - 1));
    assert GoodName(NameOf(t[i]));
  }

  /** `path_of` never fails for a live inode: it prints the names from the root. */
  lemma PathOfPrints(t: Table, i: nat)
    requires Tree(t) && Live(t, i)
    ensures Hangs(t, i, MAX_DEPTH) && PathOf(t, i) == Some(Canonical(Names(t, i, MAX_DEPTH)))
  {
    if i != ROOT {
      ClimbUp(t, i, MAX_DEPTH, []);
      var chain := Up(t, i, MAX_DEPTH);
      assert [] + chain == chain;
      JoinUp(t, i, MAX_DEPTH, chain, 0, []);
      assert [] + Render(Names(t, i, MAX_DEPTH)) == Render(Names(t, i, MAX_DEPTH));
    }
  }

  /** Resolving the printed path of a live inode gives that inode. */
  lemma ResolvePathOf(t: Table, i: nat)
    requires Tree(t) && Live(t, i)
    ensures PathOf(t, i).Some? && Resolve(t, PathOf(t, i).value) == Some(i)
  {
    PathOfPrints(t, i);
    NamesGood(t, i, MAX_DEPTH);
    ComponentsCanonical(Names(t, i, MAX_DEPTH));
    WalkNames(t, i, MAX_DEPTH);
  }

  /** Printing what a path resolves to gives the path without its empty and "." components. */
  lemma PathOfResolve(t: Table, path: Bytes)
    requires Tree(t) && Resolve(t, path).Some?
    ensures Live(t, Resolve(t, path).value)
    ensures PathOf(t, Resolve(t, path).value) == Some(Canonical(Components(path)))
  {
    ComponentsClean(path);
    WalkEnds(t, Components(path));
    var i := Resolve(t, path).value;
    PathOfPrints(t, i);
    HangsMore(t, i, |Components(path)|, MAX_DEPTH);
  }

  // ---- changes of the tree -----------------------------------------------------------------------

  lemma {:induction false} SameHangs(t: Table, u: Table, i: nat, n: nat)
    requires Hangs(t, i, n)
    requires forall j :: 0 <= j < MAX_INODES ==> u[j].kind == t[j].kind && u[j].parent == t[j].parent
    ensures Hangs(u, i, n)
    decreases n
  {
    if i != ROOT {
      SameHangs(t, u, t[i].parent, n - 1);
    }
  }

  /** Sizes, times and blocks do not matter to the tree. */
  lemma SameTree(t: Table, u: Table)
    requires Tree(t)
    requires forall j :: 0 <= j < MAX_INODES ==>
      u[j].kind == t[j].kind && u[j].parent == t[j].parent && u[j].name == t[j].name
    ensures Tree(u)
  {
    forall i: nat | Live(u, i) && i != ROOT ensures Hangs(u, i, MAX_DEPTH) && GoodName(NameOf(u[i])) {
      assert Live(t, i);
      SameHangs(t, u, i, MAX_DEPTH);
    }
    forall i: nat, j: nat | Siblings(u, i, j) ensures i == j {
      assert Siblings(t, i, j);
    }
  }

  lemma {:induction false} HangsWithout(t: Table, k: nat, i: nat, n: nat)
    requires Hangs(t, i, n) && k != ROOT && k < MAX_INODES && i != k
    requires forall j: nat :: Live(t, j) ==> t[j].parent != k || j == k
    ensures Hangs(t[k := EmptyInode()], i, n) && Names(t[k := EmptyInode()], i, n) == Names(t, i, n)
    decreases n
  {
    if i != ROOT {
      HangsWithout(t, k, t[i].parent, n - 1);
    }
  }

  /** Taking away an inode without children leaves a tree. */
  lemma TreeWithout(t: Table, k: nat)
    requires Tree(t) && k != ROOT && k < MAX_INODES
    requires forall j: nat :: Live(t, j) ==> t[j].parent != k || j == k
    ensures Tree(t[k := EmptyInode()])
  {
    var u := t[k := EmptyInode()];
    forall i: nat | Live(u, i) && i != ROOT ensures Hangs(u, i, MAX_DEPTH) && GoodName(NameOf(u[i])) {
      assert Live(t, i);
      HangsWithout(t, k, i, MAX_DEPTH);
    }
    forall i: nat, j: nat | Siblings(u, i, j) ensures i == j {
      assert Siblings(t, i, j);
    }
  }

  /** A file has no children. */
  lemma FileHasNoChildren(t: Table, k: nat)
    requires Tree(t) && Live(t, k) && t[k].kind == KIND_FILE
    ensures forall j: nat :: Live(t, j) ==> t[j].parent != k
  {
    forall j: nat | Live(t, j) ensures t[j].parent != k {
      if j != ROOT {
        assert Hangs(t, j, MAX_DEPTH);
      }
    }
  }

  lemma {:induction false} HangsWith(t: Table, k: nat, x: Inode, i: nat, n: nat)
    requires Hangs(t, i, n) && k != ROOT && k < MAX_INODES && t[k].kind == KIND_FREE
    ensures Hangs(t[k := x], i, n) && i != k
    decreases n
  {
    if i != ROOT {
      HangsWith(t, k, x, t[i].parent, n - 1);
    }
  }

  /** A new inode `x` in a free slot below directory `d` leaves a tree exactly when its name, as it can
      be read back, is well formed and not yet taken there. */
  lemma TreeWith(t: Table, k: nat, x: Inode, d: nat, n: nat)
    requires Tree(t) && k != ROOT && k < MAX_INODES && t[k].kind == KIND_FREE
    requires x.kind != KIND_FREE && x.parent == d && Live(t, d) && t[d].kind == KIND_DIR && Hangs(t, d, n)
      && n < MAX_DEPTH
    ensures Tree(t[k := x]) <==> GoodName(NameOf(x)) && ChildOf(t, d, NameOf(x)) == None
  {
    var u := t[k := x];
    HangsWith(t, k, x, d, n);
    var name := NameOf(x);
    if GoodName(name) && ChildOf(t, d, name) == None {
      forall i: nat | Live(u, i) && i != ROOT ensures Hangs(u, i, MAX_DEPTH) && GoodName(NameOf(u[i])) {
        if i == k {
          assert Hangs(u, k, n + 1);
          HangsMore(u, k, n + 1, MAX_DEPTH);
        } else {
          assert Live(t, i);
          HangsWith(t, k, x, i, MAX_DEPTH);
        }
      }
      forall j: nat | Live(t, j) && j != ROOT && t[j].parent == d ensures NameOf(t[j]) != name {
        assert !IsChild(t, j, d, name);
      }
      forall i: nat, j: nat | Siblings(u, i, j) ensures i == j {
        if i != k && j != k {
          assert Siblings(t, i, j);
        }
      }
    } else if Tree(u) {
      assert Live(u, k);
      var c := ChildOf(t, d, name).value;
      assert IsChild(t, c, d, name);
      assert Siblings(u, c, k);
      assert false;
    }
  }
}

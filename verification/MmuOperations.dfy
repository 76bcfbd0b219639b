/** The operations on address spaces keep the invariant, and what the processes see afterwards. */
module MmuOperations {
  import opened Basics
  import opened Frames
  import opened Mmu
  import opened MmuInvariant
  import opened MmuSteps

  /** How many tables a finished space has. */
  function TableCount(arch: Arch): nat {
    match arch case I386 => 2 case X8664 => 5
  }

  /** The first `n` tables of the space are there. */
  ghost predicate HasTables(s: Space, n: nat) {
    |s.tables| == TABLE_SLOTS && 0 < n <= TABLE_SLOTS && forall k :: 0 <= k < TABLE_SLOTS ==>
      (s.tables[k] == 0 <==> k >= n)
  }

  ghost predicate Built(arch: Arch, s: Space) {
    HasTables(s, TableCount(arch))
  }

  ghost predicate SameMachine(vm: Vm, w: Vm) {
    w.low == vm.low && w.cr3 == vm.cr3 && w.tlb == vm.tlb
  }

  ghost predicate SameViewsIn(vm: Vm, w: Vm, ds: set<nat>)
    requires Sized(vm) && Sized(w) && ds <= vm.spaces.Keys && ds <= w.spaces.Keys
  {
    forall d, j {:trigger ViewAt(w, d, j)} :: d in ds && 0 <= j < PAGES ==> ViewAt(w, d, j) == ViewAt(vm, d, j)
  }

  /** The same slots name the same frames, so every counter is the same. */
  lemma SameNamesSameRefs(vm: Vm, w: Vm)
    requires Core(vm) && Core(w) && vm.spaces.Keys == w.spaces.Keys
    requires forall d, k {:trigger SlotFrame(w.spaces[d], k)} :: d in vm.spaces && 0 <= k < SLOTS ==>
      SlotFrame(w.spaces[d], k) == SlotFrame(vm.spaces[d], k)
    ensures w.pool.refs == vm.pool.refs && w.pool.bits == vm.pool.bits && w.pool.used == vm.pool.used
  {
    forall i | 0 <= i < POOL_FRAMES ensures w.pool.refs[i] == vm.pool.refs[i] {
      var f := POOL_FIRST + i;
      assert Names(w.spaces, f) == Names(vm.spaces, f);
      assert RefsOf(w.pool, f) == RefsOf(vm.pool, f);
    }
    RefsDetermineBitmap(vm.pool, w.pool);
  }

  // ---- destroy --------------------------------------------------------------------------------

  /** Freeing the frames of the entries `i..end` has the effect of blanking those entries. */
  lemma {:induction false} FreedPtesStep(vm: Vm, c: nat, ptes: seq<Pte>, i: nat, end: nat)
    requires Core(vm) && c in vm.spaces && i <= end <= PAGES && |ptes| == PAGES
    requires forall j :: i <= j < end ==> vm.spaces[c].ptes[j] == ptes[j]
    ensures var w := vm.(pool := FreedPtes(vm.pool, ptes, i, end),
                         spaces := vm.spaces[c := vm.spaces[c].(ptes :=
                           vm.spaces[c].ptes[..i] + Blanks(end - i) + vm.spaces[c].ptes[end..])]);
            Core(w) && SameViewsIn(vm, w, vm.spaces.Keys - {c})
    decreases end - i
  {
    var before := vm.spaces[c].ptes;
    if i == end {
      assert before[..i] + Blanks(0) + before[end..] == before;
      assert vm.spaces[c := vm.spaces[c]] == vm.spaces;
    } else {
      BlankStep(vm, c, i);
      var v := Blanked(vm, c, i);
      FreedPtesStep(v, c, ptes, i + 1, end);
      assert v.spaces[c].ptes[..i + 1] + Blanks(end - (i + 1)) + v.spaces[c].ptes[end..]
          == before[..i] + Blanks(end - i) + before[end..];
      assert v.spaces[c := v.spaces[c].(ptes := before[..i] + Blanks(end - i) + before[end..])]
          == vm.spaces[c := vm.spaces[c].(ptes := before[..i] + Blanks(end - i) + before[end..])];
    }
  }

  ghost function DroppedTable(vm: Vm, c: nat, k: nat): (w: Vm)
    requires Sized(vm) && c in vm.spaces && k < TABLE_SLOTS
    ensures Sized(w)
  {
    SetTable(vm.(pool := Freed(vm.pool, vm.spaces[c].tables[k])), c, k, 0)
  }

  ghost predicate Shrinking(vm: Vm, w: Vm, c: nat) {
    && Core(vm) && Core(w) && SameMachine(vm, w)
    && c in vm.spaces && w.spaces.Keys == vm.spaces.Keys && w.spaces - {c} == vm.spaces - {c}
    && SameViewsIn(vm, w, vm.spaces.Keys - {c})
  }

  lemma ShrinkTable(vm: Vm, w: Vm, c: nat, k: nat)
    requires Shrinking(vm, w, c) && 0 < k < TABLE_SLOTS
    ensures Shrinking(vm, DroppedTable(w, c, k), c)
  {
    DropTableStep(w, c, k);
    var u := DroppedTable(w, c, k);
    assert u.spaces - {c} == vm.spaces - {c};
    forall d, j | d in vm.spaces && d != c && 0 <= j < PAGES ensures ViewAt(u, d, j) == ViewAt(vm, d, j) {
      assert ViewAt(u, d, j) == ViewAt(w, d, j);
    }
  }

  ghost function FreedRange(vm: Vm, c: nat, i: nat, end: nat): (w: Vm)
    requires Sized(vm) && c in vm.spaces && i <= end <= PAGES
    ensures Sized(w)
  {
    var ptes := vm.spaces[c].ptes;
    vm.(pool := FreedPtes(vm.pool, ptes, i, end),
        spaces := vm.spaces[c := vm.spaces[c].(ptes := ptes[..i] + Blanks(end - i) + ptes[end..])])
  }

  lemma ShrinkPages(vm: Vm, w: Vm, c: nat, i: nat, end: nat)
    requires Shrinking(vm, w, c) && i <= end <= PAGES
    ensures Shrinking(vm, FreedRange(w, c, i, end), c)
  {
    FreedPtesStep(w, c, w.spaces[c].ptes, i, end);
    var u := FreedRange(w, c, i, end);
    assert u.spaces - {c} == vm.spaces - {c};
    forall d, j | d in vm.spaces && d != c && 0 <= j < PAGES ensures ViewAt(u, d, j) == ViewAt(vm, d, j) {
      assert ViewAt(u, d, j) == ViewAt(w, d, j);
    }
  }

  lemma ShrinkLast(vm: Vm, w: Vm, c: nat)
    requires Shrinking(vm, w, c) && w.spaces[c] == BlankSpace(c) && vm.cr3 != c
    ensures var u := DroppedSpace(w, c);
            Core(u) && SameMachine(vm, u) && u.spaces == vm.spaces - {c} && SameViewsIn(vm, u, u.spaces.Keys)
  {
    DropSpaceStep(w, c);
    var u := DroppedSpace(w, c);
    forall d, j | d in u.spaces && 0 <= j < PAGES ensures ViewAt(u, d, j) == ViewAt(vm, d, j) {
      assert ViewAt(u, d, j) == ViewAt(w, d, j);
    }
  }

  /** Destroying a space, also a half-built one, gives back what it held and disturbs nobody else. */
  lemma DestroySpec(arch: Arch, vm: Vm, c: nat)
    requires Core(vm) && c in vm.spaces && vm.cr3 != c
    requires forall k :: TableCount(arch) <= k < TABLE_SLOTS ==> vm.spaces[c].tables[k] == 0
    ensures var w := Destroyed(arch, vm, c);
            && Core(w) && SameMachine(vm, w) && w.spaces == vm.spaces - {c} && SameViewsIn(vm, w, w.spaces.Keys)
  {
    match arch
    case I386 => DestroyTwo(vm, c);
    case X8664 => DestroyFive(vm, c);
  }

  lemma DestroyTwo(vm: Vm, c: nat)
    requires Core(vm) && c in vm.spaces && vm.cr3 != c
    requires forall k :: 2 <= k < TABLE_SLOTS ==> vm.spaces[c].tables[k] == 0
    ensures var w := Destroyed(I386, vm, c);
            && Core(w) && SameMachine(vm, w) && w.spaces == vm.spaces - {c} && SameViewsIn(vm, w, w.spaces.Keys)
  {
    ShrinkPages(vm, vm, c, 0, PAGES);
    var v := FreedRange(vm, c, 0, PAGES);
    assert v.spaces[c].ptes == Blanks(PAGES);
    ShrinkTable(vm, v, c, 1);
    var u := DroppedTable(v, c, 1);
    assert u.spaces[c].tables == [c, 0, 0, 0, 0];
    ShrinkLast(vm, u, c);
    assert Destroyed(I386, vm, c) == DroppedSpace(u, c);
  }

  lemma DestroyFive(vm: Vm, c: nat)
    requires Core(vm) && c in vm.spaces && vm.cr3 != c
    ensures var w := Destroyed(X8664, vm, c);
            && Core(w) && SameMachine(vm, w) && w.spaces == vm.spaces - {c} && SameViewsIn(vm, w, w.spaces.Keys)
  {
    hide Exact, Exclusive, PoolValid;
    ShrinkPages(vm, vm, c, 0, PAGES / 2);
    var v1 := FreedRange(vm, c, 0, PAGES / 2);
    ShrinkTable(vm, v1, c, 3);
    var v2 := DroppedTable(v1, c, 3);
    FreedPtesSame(v2.pool, v2.spaces[c].ptes, vm.spaces[c].ptes, PAGES / 2, PAGES);
    UpperHalfGone(vm, v2, c);
  }

  lemma UpperHalfGone(vm: Vm, v: Vm, c: nat)
    requires Shrinking(vm, v, c) && vm.cr3 != c && v.spaces[c].tables[3] == 0
    requires forall j :: 0 <= j < PAGES / 2 ==> v.spaces[c].ptes[j] == EMPTY
    ensures var t := v.spaces[c].tables;
            var p := Freed(FreedPtes(v.pool, v.spaces[c].ptes, PAGES / 2, PAGES), t[4]);
            var w := v.(pool := Freed(Freed(Freed(p, t[2]), t[1]), c), spaces := vm.spaces - {c});
            Core(w) && SameMachine(vm, w) && SameViewsIn(vm, w, w.spaces.Keys)
  {
    ShrinkPages(vm, v, c, PAGES / 2, PAGES);
    var v3 := FreedRange(v, c, PAGES / 2, PAGES);
    assert v3.spaces[c].ptes == Blanks(PAGES);
    ShrinkTable(vm, v3, c, 4);
    UpperTablesGone(vm, DroppedTable(v3, c, 4), c);
  }

  lemma UpperTablesGone(vm: Vm, v: Vm, c: nat)
    requires Shrinking(vm, v, c) && vm.cr3 != c
    requires v.spaces[c].ptes == Blanks(PAGES) && v.spaces[c].tables[3] == 0 && v.spaces[c].tables[4] == 0
    ensures var w := v.(pool := Freed(Freed(Freed(v.pool, v.spaces[c].tables[2]), v.spaces[c].tables[1]), c),
                       spaces := vm.spaces - {c});
            Core(w) && SameMachine(vm, w) && SameViewsIn(vm, w, w.spaces.Keys)
  {
    hide Core, Freed, SameViewsIn;
    ShrinkTable(vm, v, c, 2);
    var v5 := DroppedTable(v, c, 2);
    ShrinkTable(vm, v5, c, 1);
    var v6 := DroppedTable(v5, c, 1);
    TopTable(v, c);
    assert v6.spaces[c].tables == [c, 0, 0, 0, 0];
    ShrinkLast(vm, v6, c);
  }

  lemma TopTable(vm: Vm, c: nat)
    requires Core(vm) && c in vm.spaces
    ensures vm.spaces[c].tables[0] == c
  {
  }

  lemma {:induction false} FreedPtesSame(p: Pool, a: seq<Pte>, b: seq<Pte>, i: nat, end: nat)
    requires Shaped(p) && i <= end <= |a| && end <= |b| && forall j :: i <= j < end ==> a[j] == b[j]
    ensures FreedPtes(p, a, i, end) == FreedPtes(p, b, i, end)
    decreases end - i
  {
    if i < end {
      FreedPtesSame(if a[i].present then Freed(p, a[i].frame) else p, a, b, i + 1, end);
    }
  }

  // ---- create ---------------------------------------------------------------------------------

  /** A space under construction: `n` tables, no pages, in a machine that otherwise looks like `vm`. */
  ghost predicate Growing(vm: Vm, w: Vm, c: nat, n: nat) {
    && Core(vm) && Core(w) && SameMachine(vm, w)
    && c !in vm.spaces && !NoUserSpace(c) && w.spaces.Keys == vm.spaces.Keys + {c} && w.spaces - {c} == vm.spaces
    && HasTables(w.spaces[c], n) && w.spaces[c].ptes == Blanks(PAGES) && w.pool.used == vm.pool.used + n
    && SameViewsIn(vm, w, vm.spaces.Keys)
  }

  lemma GrowFirst(vm: Vm)
    requires Core(vm) && Allocated(vm.pool).1.Some?
    ensures Growing(vm, NewSpace(vm), Allocated(vm.pool).1.value, 1)
  {
    AllocFresh(vm.pool);
    NewSpaceStep(vm);
    var w := NewSpace(vm);
    var c := Allocated(vm.pool).1.value;
    assert w.spaces - {c} == vm.spaces;
    forall d, j | d in vm.spaces && 0 <= j < PAGES ensures ViewAt(w, d, j) == ViewAt(vm, d, j) {
      NewSpaceViews(vm, d, j);
    }
  }

  lemma GrowNext(vm: Vm, w: Vm, c: nat, n: nat)
    requires Growing(vm, w, c, n) && n < TABLE_SLOTS && Allocated(w.pool).1.Some?
    ensures Growing(vm, SetTable(w.(pool := Allocated(w.pool).0), c, n, Allocated(w.pool).1.value), c, n + 1)
  {
    AllocFresh(w.pool);
    TableStep(w, c, n);
    var u := SetTable(w.(pool := Allocated(w.pool).0), c, n, Allocated(w.pool).1.value);
    assert u.spaces - {c} == vm.spaces;
    forall d, j | d in vm.spaces && 0 <= j < PAGES ensures ViewAt(u, d, j) == ViewAt(vm, d, j) {
      assert ViewAt(u, d, j) == ViewAt(w, d, j);
    }
  }

  ghost predicate Unchanged(vm: Vm, w: Vm) {
    && Core(vm) && Core(w) && SameMachine(vm, w) && w.spaces == vm.spaces && SameViewsIn(vm, w, vm.spaces.Keys)
    && w.pool.refs == vm.pool.refs && w.pool.bits == vm.pool.bits && w.pool.used == vm.pool.used
  }

  lemma CreatedSpec(arch: Arch, vm: Vm)
    requires Core(vm)
    ensures var (w, r) := Created(arch, vm);
            match r
            case None => Unchanged(vm, w) && POOL_FRAMES - vm.pool.used < TableCount(arch)
            case Some(c) => Growing(vm, w, c, TableCount(arch))
  {
    match arch
    case I386 => CreatedTwoSpec(vm);
    case X8664 => CreatedFiveSpec(vm);
  }

  lemma Undone(vm: Vm, w: Vm, c: nat, n: nat, u: Vm)
    requires Growing(vm, w, c, n) && Core(u) && SameMachine(w, u) && u.spaces == w.spaces - {c}
      && SameViewsIn(w, u, u.spaces.Keys)
    ensures Unchanged(vm, u)
  {
    SameNamesSameRefs(vm, u);
    forall d, j | d in vm.spaces && 0 <= j < PAGES ensures ViewAt(u, d, j) == ViewAt(vm, d, j) {
      assert ViewAt(u, d, j) == ViewAt(w, d, j);
    }
  }

  lemma CreatedTwoSpec(vm: Vm)
    requires Core(vm)
    ensures var (w, r) := CreatedTwo(vm);
            if r.None? then Unchanged(vm, w) && POOL_FRAMES - vm.pool.used < 2 else Growing(vm, w, r.value, 2)
  {
    hide Exact, Exclusive, PoolValid, SpaceOk;
    AllocFresh(vm.pool);
    if Allocated(vm.pool).1.Some? {
      GrowFirst(vm);
      var v, c := NewSpace(vm), Allocated(vm.pool).1.value;
      AllocFresh(v.pool);
      if Allocated(v.pool).1.None? {
        ShrinkLast(v, v, c);
        Undone(vm, v, c, 1, DroppedSpace(v, c));
      } else {
        GrowNext(vm, v, c, 1);
        var pt := Allocated(v.pool).1.value;
        assert [c, 0, 0, 0, 0][1 := pt] == [c, pt, 0, 0, 0];
        assert CreatedTwo(vm).0.spaces == SetTable(v, c, 1, pt).spaces;
      }
    }
  }

  lemma FreeCommutes(p: Pool, f: nat, g: nat)
    requires Shaped(p) && f != g
    ensures Freed(Freed(p, f), g) == Freed(Freed(p, g), f)
  {
    if PoolFrame(f) && PoolFrame(g) {
      var i, j := f - POOL_FIRST, g - POOL_FIRST;
      var a, b := Freed(Freed(p, f), g), Freed(Freed(p, g), f);
      assert a.bits == b.bits && a.refs == b.refs;
    }
  }

  lemma CreatedFiveSpec(vm: Vm)
    requires Core(vm)
    ensures var (w, r) := CreatedFive(vm);
            if r.None? then Unchanged(vm, w) && POOL_FRAMES - vm.pool.used < 5 else Growing(vm, w, r.value, 5)
  {
    AllocFresh(vm.pool);
    if Allocated(vm.pool).1.Some? {
      GrowFirst(vm);
      var v1, c := NewSpace(vm), Allocated(vm.pool).1.value;
      AllocFresh(v1.pool);
      if Allocated(v1.pool).1.None? {
        ShrinkLast(v1, v1, c);
        Undone(vm, v1, c, 1, DroppedSpace(v1, c));
      } else {
        GrowNext(vm, v1, c, 1);
        FiveFromTwo(vm, SetTable(v1.(pool := Allocated(v1.pool).0), c, 1, Allocated(v1.pool).1.value), c);
      }
    }
  }

  /** The rest of `CreatedFive` once two tables are there. */
  lemma FiveFromTwo(vm: Vm, v2: Vm, c: nat)
    requires Growing(vm, v2, c, 2) && Allocated(vm.pool).1 == Some(c)
    requires Allocated(Allocated(vm.pool).0) == (v2.pool, Some(v2.spaces[c].tables[1]))
    ensures var (w, r) := CreatedFive(vm);
            if r.None? then Unchanged(vm, w) && POOL_FRAMES - vm.pool.used < 5 else Growing(vm, w, r.value, 5)
  {
    hide Exact, Exclusive, PoolValid;
    var pdpt := v2.spaces[c].tables[1];
    assert v2.spaces[c].tables == [c, pdpt, 0, 0, 0];
    AllocFresh(v2.pool);
    if Allocated(v2.pool).1.None? {
      assert c != pdpt by {
        AllocFresh(vm.pool);
        AllocFresh(Allocated(vm.pool).0);
      }
      ShrinkTable(v2, v2, c, 1);
      var u := DroppedTable(v2, c, 1);
      assert u.spaces[c].tables == [c, 0, 0, 0, 0];
      ShrinkLast(v2, u, c);
      FreeCommutes(v2.pool, c, pdpt);
      Undone(vm, v2, c, 2, DroppedSpace(u, c));
    } else {
      GrowNext(vm, v2, c, 2);
      var pd := Allocated(v2.pool).1.value;
      var v3 := SetTable(v2.(pool := Allocated(v2.pool).0), c, 2, pd);
      assert v3.spaces[c].tables == [c, pdpt, pd, 0, 0];
      assert v3.spaces == vm.spaces[c := Space([c, pdpt, pd, 0, 0], Blanks(PAGES))];
      FiveFromSpec(vm, v3, c, 3);
    }
  }

  lemma {:induction false} FiveFromSpec(vm: Vm, w: Vm, c: nat, k: nat)
    requires Growing(vm, w, c, k) && 3 <= k <= 5
    ensures var (u, r) := FiveFrom(w, c, k);
            if r.None? then Unchanged(vm, u) && POOL_FRAMES - vm.pool.used < 5 else Growing(vm, u, c, 5)
    decreases 5 - k
  {
    if k < 5 {
      AllocFresh(w.pool);
      if Allocated(w.pool).1.None? {
        DestroySpec(X8664, w, c);
        Undone(vm, w, c, k, Destroyed(X8664, w, c));
      } else {
        GrowNext(vm, w, c, k);
        FiveFromSpec(vm, SetTable(w.(pool := Allocated(w.pool).0), c, k, Allocated(w.pool).1.value), c, k + 1);
      }
    }
  }

  // ---- fork -----------------------------------------------------------------------------------

  /** What a forked child sees of a page of its parent: private pages, but not windows. */
  ghost function Inherited(v: View): View {
    if v.Private? then v else Unmapped
  }

  /** Entries of the other spaces stay, or become copy-on-write. */
  ghost predicate Weakened(e: Pte, w: Pte) {
    w == e || (e.present && !e.shared && w == Protected(e))
  }

  ghost predicate WeakenedIn(vm: Vm, w: Vm, ds: set<nat>)
    requires Sized(vm) && Sized(w) && ds <= vm.spaces.Keys && ds <= w.spaces.Keys
  {
    forall d :: d in ds ==>
      w.spaces[d].tables == vm.spaces[d].tables &&
      forall j :: 0 <= j < PAGES ==> Weakened(vm.spaces[d].ptes[j], w.spaces[d].ptes[j])
  }

  lemma CloneShared(vm: Vm, src: nat, dst: nat, i: nat)
    requires Core(vm) && src in vm.spaces && dst in vm.spaces && src != dst && i < PAGES
    requires vm.spaces[dst].ptes[i] == EMPTY
    requires var e := vm.spaces[src].ptes[i]; e.present && !e.shared && Shared(vm.pool, e.frame).1
    ensures var w := CloneEntry(vm, src, dst, i).value;
            && Core(w) && SameMachine(vm, w) && SameViewsBut(vm, w, dst, i)
            && ViewAt(w, dst, i) == ViewAt(vm, src, i)
  {
    var e := vm.spaces[src].ptes[i];
    assert PteOk(e);
    ProtectStep(vm, src, i);
    var v := SetPte(vm, src, i, Protected(e));
    ShareStep(v, dst, i, Protected(e));
    var w := CloneEntry(vm, src, dst, i).value;
    assert w == SetPte(v.(pool := Shared(v.pool, e.frame).0), dst, i, Protected(e));
    forall d, j | d in vm.spaces && 0 <= j < PAGES && (d != dst || j != i) ensures ViewAt(w, d, j) == ViewAt(vm, d, j) {
      assert ViewAt(w, d, j) == ViewAt(v, d, j);
      assert d != src || j != i ==> ViewAt(v, d, j) == ViewAt(vm, d, j);
    }
  }

  lemma CloneEntryStep(vm: Vm, src: nat, dst: nat, i: nat)
    requires Core(vm) && src in vm.spaces && dst in vm.spaces && src != dst && i < PAGES
    requires vm.spaces[dst].ptes[i] == EMPTY && CloneEntry(vm, src, dst, i).Some?
    ensures var w := CloneEntry(vm, src, dst, i).value;
            && Core(w) && SameMachine(vm, w) && SameViewsBut(vm, w, dst, i)
            && ViewAt(w, dst, i) == Inherited(ViewAt(vm, src, i))
            && WeakenedIn(vm, w, vm.spaces.Keys - {dst})
            && w.spaces[dst].tables == vm.spaces[dst].tables
            && w.pool.used <= vm.pool.used + 1
            && forall j :: 0 <= j < PAGES && j != i ==> w.spaces[dst].ptes[j] == vm.spaces[dst].ptes[j]
  {
    hide Exact, Exclusive, PoolValid, Allocated, Filled;
    var e := vm.spaces[src].ptes[i];
    assert PteOk(e);
    if e.shared || (!e.present && !e.demand) {
    } else if !e.present {
      PlainStep(vm, dst, i, e);
    } else if Shared(vm.pool, e.frame).1 {
      CloneShared(vm, src, dst, i);
    } else {
      CloneCopied(vm, src, dst, i);
    }
  }

  lemma CloneCopied(vm: Vm, src: nat, dst: nat, i: nat)
    requires Core(vm) && src in vm.spaces && dst in vm.spaces && src != dst && i < PAGES
    requires vm.spaces[dst].ptes[i] == EMPTY
    requires var e := vm.spaces[src].ptes[i];
             e.present && !e.shared && PteOk(e) && !Shared(vm.pool, e.frame).1 && Allocated(vm.pool).1.Some?
    ensures var w := CloneEntry(vm, src, dst, i).value;
            && Core(w) && SameMachine(vm, w) && SameViewsBut(vm, w, dst, i)
            && ViewAt(w, dst, i) == ViewAt(vm, src, i) && WeakenedIn(vm, w, vm.spaces.Keys - {dst})
            && w.spaces[dst].tables == vm.spaces[dst].tables && w.pool.used <= vm.pool.used + 1
            && forall j :: 0 <= j < PAGES && j != i ==> w.spaces[dst].ptes[j] == vm.spaces[dst].ptes[j]
  {
    hide Exact, Exclusive;
    var e := vm.spaces[src].ptes[i];
    AllocFresh(vm.pool);
    FreeMeansUnnamed(vm, Allocated(vm.pool).1.value, src, i);
    FillStep(vm, dst, i, FrameBytes(vm.(pool := Allocated(vm.pool).0), e.frame));
  }

  /** The whole loop: the child inherits every page from `i` on, or the child is gone again; in either
      case no other space looks different. */
  lemma {:induction false} CloneLoop(arch: Arch, vm: Vm, src: nat, dst: nat, i: nat)
    requires Core(vm) && src in vm.spaces && dst in vm.spaces && src != dst && i <= PAGES && vm.cr3 != dst
    requires Built(arch, vm.spaces[dst]) && forall j :: i <= j < PAGES ==> vm.spaces[dst].ptes[j] == EMPTY
    ensures var (w, ok) := ClonedFrom(arch, vm, src, dst, i);
            var others := vm.spaces.Keys - {dst};
            && Core(w) && SameMachine(vm, w)
            && w.spaces.Keys == (if ok then vm.spaces.Keys else others)
            && SameViewsIn(vm, w, others) && WeakenedIn(vm, w, others)
            && (!ok ==> POOL_FRAMES - vm.pool.used < PAGES - i)
            && (ok ==>
                && w.spaces[dst].tables == vm.spaces[dst].tables
                && forall j :: 0 <= j < PAGES ==>
                     ViewAt(w, dst, j) == if j < i then ViewAt(vm, dst, j) else Inherited(ViewAt(vm, src, j)))
    decreases PAGES - i
  {
    hide Core, PoolValid, Inherited, CloneEntry, Destroyed, WeakenedIn, SameViewsIn, SameViewsBut, ViewAt;
    if i < PAGES {
      match CloneEntry(vm, src, dst, i)
      case None =>
        CloneFails(arch, vm, src, dst, i);
      case Some(v) =>
        CloneEntryStep(vm, src, dst, i);
        CloneLoopViews(vm, v, src, dst, i);
        CloneLoop(arch, v, src, dst, i + 1);
        WeakenedChain(vm, v, ClonedFrom(arch, v, src, dst, i + 1).0, vm.spaces.Keys - {dst});
    } else {
      NothingWeakened(vm, vm.spaces.Keys - {dst});
    }
  }

  lemma NothingWeakened(vm: Vm, ds: set<nat>)
    requires Sized(vm) && ds <= vm.spaces.Keys
    ensures WeakenedIn(vm, vm, ds) && SameViewsIn(vm, vm, ds)
  {
  }

  lemma CloneFails(arch: Arch, vm: Vm, src: nat, dst: nat, i: nat)
    requires Core(vm) && src in vm.spaces && dst in vm.spaces && src != dst && i < PAGES && vm.cr3 != dst
    requires Built(arch, vm.spaces[dst]) && CloneEntry(vm, src, dst, i).None?
    ensures var w := Destroyed(arch, vm, dst);
            var others := vm.spaces.Keys - {dst};
            && Core(w) && SameMachine(vm, w) && w.spaces.Keys == others && SameViewsIn(vm, w, others)
               && WeakenedIn(vm, w, others)
            && vm.pool.used == POOL_FRAMES
  {
    AllocFresh(vm.pool);
    DestroySpec(arch, vm, dst);
  }

  lemma WeakenedChain(vm: Vm, v: Vm, w: Vm, ds: set<nat>)
    requires Sized(vm) && Sized(v) && Sized(w) && ds <= vm.spaces.Keys && ds <= v.spaces.Keys && ds <= w.spaces.Keys
    requires WeakenedIn(vm, v, ds) && WeakenedIn(v, w, ds) && SameViewsIn(vm, v, ds) && SameViewsIn(v, w, ds)
    ensures WeakenedIn(vm, w, ds) && SameViewsIn(vm, w, ds)
  {
    forall d, j | d in ds && 0 <= j < PAGES ensures ViewAt(w, d, j) == ViewAt(vm, d, j) {
      assert ViewAt(v, d, j) == ViewAt(vm, d, j);
    }
    forall d | d in ds ensures forall j :: 0 <= j < PAGES ==> Weakened(vm.spaces[d].ptes[j], w.spaces[d].ptes[j]) {
      assert forall j :: 0 <= j < PAGES ==>
        Weakened(vm.spaces[d].ptes[j], v.spaces[d].ptes[j]) && Weakened(v.spaces[d].ptes[j], w.spaces[d].ptes[j]);
    }
  }

  lemma CloneLoopViews(vm: Vm, v: Vm, src: nat, dst: nat, i: nat)
    requires Core(vm) && Core(v) && src in vm.spaces && dst in vm.spaces && src != dst && i < PAGES
    requires v.spaces.Keys == vm.spaces.Keys && SameViewsBut(vm, v, dst, i) && WeakenedIn(vm, v, vm.spaces.Keys - {dst})
    ensures forall j :: 0 <= j < PAGES ==> ViewAt(v, src, j) == ViewAt(vm, src, j)
    ensures forall j :: 0 <= j < PAGES && j != i ==> ViewAt(v, dst, j) == ViewAt(vm, dst, j)
    ensures SameViewsIn(vm, v, vm.spaces.Keys - {dst})
  {
  }
}

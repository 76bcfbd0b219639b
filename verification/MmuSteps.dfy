/** The smallest changes the operations are made of, each keeping the invariant of the tables and
    changing the view of at most one page. */
module MmuSteps {
  import opened Basics
  import opened Frames
  import opened Mmu
  import opened MmuInvariant

  /** No writable page and no table uses frame `f`. */
  ghost predicate NotOwned(vm: Vm, f: nat)
    requires Sized(vm)
  {
    forall d, j {:trigger Unshared(vm.spaces[d], j)} ::
      d in vm.spaces && 0 <= j < SLOTS && Unshared(vm.spaces[d], j) ==> SlotFrame(vm.spaces[d], j) != f
  }

  lemma UnsharedInPool(vm: Vm, c: nat, k: nat)
    requires Core(vm) && c in vm.spaces && k < SLOTS && Unshared(vm.spaces[c], k)
    ensures PoolFrame(SlotFrame(vm.spaces[c], k))
  {
    if k < PAGES {
      assert PteOk(vm.spaces[c].ptes[k]);
    }
  }

  /** Replacing one slot keeps the invariant when the counters follow and nobody owned the new frame. */
  lemma SlotStep(vm: Vm, w: Vm, c: nat, s: Space, k: nat)
    requires Core(vm) && c in vm.spaces && k < SLOTS
    requires w.spaces == vm.spaces[c := s] && w.cr3 == vm.cr3 && |w.low| == POOL_FIRST && PoolValid(w.pool)
    requires SpaceOk(c, s)
    requires forall j :: 0 <= j < SLOTS && j != k ==> SlotFrame(s, j) == SlotFrame(vm.spaces[c], j)
    requires forall j :: 0 <= j < SLOTS && j != k ==> Unshared(s, j) == Unshared(vm.spaces[c], j)
    requires forall f {:trigger RefsOf(w.pool, f)} :: PoolFrame(f) ==>
      RefsOf(w.pool, f) == RefsOf(vm.pool, f) - (if SlotFrame(vm.spaces[c], k) == f then 1 else 0) +
        (if SlotFrame(s, k) == f then 1 else 0)
    requires Unshared(s, k) ==> RefsOf(w.pool, SlotFrame(s, k)) == 1
    requires SlotFrame(s, k) == SlotFrame(vm.spaces[c], k) || NotOwned(vm, SlotFrame(s, k))
    ensures Core(w)
  {
    forall f | PoolFrame(f) ensures RefsOf(w.pool, f) == |Names(w.spaces, f)| {
      NamesSet(vm.spaces, c, s, k, f);
    }
    forall d, j | d in w.spaces && 0 <= j < SLOTS && Unshared(w.spaces[d], j)
      ensures RefsOf(w.pool, SlotFrame(w.spaces[d], j)) == 1
    {
      if (d, j) != (c, k) {
        assert Unshared(vm.spaces[d], j) && SlotFrame(w.spaces[d], j) == SlotFrame(vm.spaces[d], j);
        UnsharedInPool(vm, d, j);
        if SlotFrame(vm.spaces[c], k) == SlotFrame(vm.spaces[d], j) {
          OnlyName(vm, d, j, c, k);
        }
      }
    }
  }

  lemma PteStep(vm: Vm, w: Vm, c: nat, i: nat, e: Pte)
    requires Core(vm) && c in vm.spaces && i < PAGES
    requires w.spaces == vm.spaces[c := vm.spaces[c].(ptes := vm.spaces[c].ptes[i := e])]
    requires w.cr3 == vm.cr3 && |w.low| == POOL_FIRST && PoolValid(w.pool) && PteOk(e)
    requires var before := vm.spaces[c].ptes[i];
             forall f {:trigger RefsOf(w.pool, f)} :: PoolFrame(f) ==>
               RefsOf(w.pool, f) == RefsOf(vm.pool, f) - (if before.present && before.frame == f then 1 else 0) +
                 (if e.present && e.frame == f then 1 else 0)
    requires e.present && !e.shared && e.writable ==> RefsOf(w.pool, e.frame) == 1
    requires e.present && !e.shared ==>
      (vm.spaces[c].ptes[i].present && vm.spaces[c].ptes[i].frame == e.frame) || NotOwned(vm, e.frame)
    ensures Core(w)
  {
    PteSlots(vm.spaces[c], i, e);
    var s := vm.spaces[c].(ptes := vm.spaces[c].ptes[i := e]);
    forall j | 0 <= j < SLOTS && j != i ensures Unshared(s, j) == Unshared(vm.spaces[c], j) {
    }
    if !(e.present && !e.shared) {
      forall d, j | d in vm.spaces && 0 <= j < SLOTS && Unshared(vm.spaces[d], j)
        ensures SlotFrame(vm.spaces[d], j) != SlotFrame(s, i)
      {
        UnsharedInPool(vm, d, j);
      }
    }
    SlotStep(vm, w, c, s, i);
  }

  lemma FreeNotOwned(vm: Vm, f: nat)
    requires Core(vm) && PoolFrame(f) && RefsOf(vm.pool, f) == 0
    ensures NotOwned(vm, f)
  {
    forall d, j | d in vm.spaces && 0 <= j < SLOTS && Unshared(vm.spaces[d], j)
      ensures SlotFrame(vm.spaces[d], j) != f
    {
      FreeMeansUnnamed(vm, f, d, j);
    }
  }

  /** A fresh frame behind an absent page: the page reads as `bytes`, nothing else changes. */
  lemma FillStep(vm: Vm, c: nat, i: nat, bytes: Page)
    requires Core(vm) && c in vm.spaces && i < PAGES && Allocated(vm.pool).1.Some?
    requires !vm.spaces[c].ptes[i].present
    ensures var w := Filled(vm, c, i, bytes);
            Core(w) && w.spaces.Keys == vm.spaces.Keys && ViewAt(w, c, i) == Private(bytes) && SameViewsBut(vm, w, c, i)
  {
    AllocFresh(vm.pool);
    var f := Allocated(vm.pool).1.value;
    var w := Filled(vm, c, i, bytes);
    FreeNotOwned(vm, f);
    PteStep(vm, w, c, i, Owned(f));
    forall d, j | d in vm.spaces && 0 <= j < PAGES && (d != c || j != i)
      ensures ViewAt(w, d, j) == ViewAt(vm, d, j)
    {
      FreeMeansUnnamed(vm, f, d, j);
      assert w.spaces[d].ptes[j] == vm.spaces[d].ptes[j];
    }
  }

  ghost function Blanked(vm: Vm, c: nat, i: nat): (w: Vm)
    requires Sized(vm) && c in vm.spaces && i < PAGES
    ensures Sized(w)
  {
    var e := vm.spaces[c].ptes[i];
    SetPte(vm.(pool := if e.present then Freed(vm.pool, e.frame) else vm.pool), c, i, EMPTY)
  }

  lemma BlankStep(vm: Vm, c: nat, i: nat)
    requires Core(vm) && c in vm.spaces && i < PAGES
    ensures var w := Blanked(vm, c, i);
            Core(w) && w.spaces.Keys == vm.spaces.Keys && ViewAt(w, c, i) == Unmapped && SameViewsBut(vm, w, c, i)
  {
    var e := vm.spaces[c].ptes[i];
    var w := Blanked(vm, c, i);
    if e.present && PoolFrame(e.frame) {
      FreeExact(vm.pool, e.frame);
      assert SlotFrame(vm.spaces[c], i) == e.frame && (c, i) in Names(vm.spaces, e.frame);
    }
    PteStep(vm, w, c, i, EMPTY);
  }

  /** Making a page copy-on-write is invisible. */
  lemma ProtectStep(vm: Vm, c: nat, i: nat)
    requires Core(vm) && c in vm.spaces && i < PAGES
    requires vm.spaces[c].ptes[i].present && !vm.spaces[c].ptes[i].shared
    ensures var w := SetPte(vm, c, i, Protected(vm.spaces[c].ptes[i]));
            && Core(w) && w.spaces.Keys == vm.spaces.Keys && SameViewsBut(vm, w, c, i)
            && ViewAt(w, c, i) == ViewAt(vm, c, i) && NotOwned(w, vm.spaces[c].ptes[i].frame)
  {
    var e := vm.spaces[c].ptes[i];
    var w := SetPte(vm, c, i, Protected(e));
    PteStep(vm, w, c, i, Protected(e));
    forall d, j | d in w.spaces && 0 <= j < SLOTS && Unshared(w.spaces[d], j)
      ensures SlotFrame(w.spaces[d], j) != e.frame
    {
      if SlotFrame(w.spaces[d], j) == e.frame {
        assert SlotFrame(w.spaces[c], i) == e.frame;
        OnlyName(w, d, j, c, i);
      }
    }
  }

  /** A second name for a frame nobody may write to. */
  lemma ShareStep(vm: Vm, c: nat, i: nat, e: Pte)
    requires Core(vm) && c in vm.spaces && i < PAGES && !vm.spaces[c].ptes[i].present
    requires PteOk(e) && e.present && e.cow && Shared(vm.pool, e.frame).1 && NotOwned(vm, e.frame)
    ensures var w := SetPte(vm.(pool := Shared(vm.pool, e.frame).0), c, i, e);
            && Core(w) && w.spaces.Keys == vm.spaces.Keys && SameViewsBut(vm, w, c, i)
            && ViewAt(w, c, i) == PageView(vm.pool, e)
  {
    ShareExact(vm.pool, e.frame);
    var w := SetPte(vm.(pool := Shared(vm.pool, e.frame).0), c, i, e);
    PteStep(vm, w, c, i, e);
  }

  /** An entry that names no pool frame replaces one that names none. */
  lemma PlainStep(vm: Vm, c: nat, i: nat, e: Pte)
    requires Core(vm) && c in vm.spaces && i < PAGES && PteOk(e)
    requires !e.present || e.shared
    requires !vm.spaces[c].ptes[i].present || vm.spaces[c].ptes[i].shared
    ensures var w := SetPte(vm, c, i, e);
            && Core(w) && w.spaces.Keys == vm.spaces.Keys && SameViewsBut(vm, w, c, i)
            && ViewAt(w, c, i) == PageView(vm.pool, e)
  {
    PteStep(vm, SetPte(vm, c, i, e), c, i, e);
  }

  /** The last owner of a copy-on-write page may write to it again. */
  lemma ReuseStep(vm: Vm, c: nat, i: nat)
    requires Core(vm) && c in vm.spaces && i < PAGES
    requires vm.spaces[c].ptes[i].present && vm.spaces[c].ptes[i].cow
      && RefsOf(vm.pool, vm.spaces[c].ptes[i].frame) <= 1
    ensures var e := vm.spaces[c].ptes[i];
            var w := SetPte(vm, c, i, e.(cow := false, writable := true));
            && Core(w) && w.spaces.Keys == vm.spaces.Keys && SameViewsBut(vm, w, c, i)
            && ViewAt(w, c, i) == ViewAt(vm, c, i)
  {
    var e := vm.spaces[c].ptes[i];
    assert SlotFrame(vm.spaces[c], i) == e.frame && (c, i) in Names(vm.spaces, e.frame);
    PteStep(vm, SetPte(vm, c, i, e.(cow := false, writable := true)), c, i, e.(cow := false, writable := true));
  }

  // ---- tables -------------------------------------------------------------------------------

  /** A fresh frame for the `k`-th table of a space under construction. */
  lemma TableStep(vm: Vm, c: nat, k: nat)
    requires Core(vm) && c in vm.spaces && 0 < k < TABLE_SLOTS && vm.spaces[c].tables[k] == 0
    requires Allocated(vm.pool).1.Some?
    ensures var (p, f) := Allocated(vm.pool);
            var w := SetTable(vm.(pool := p), c, k, f.value);
            Core(w) && w.spaces.Keys == vm.spaces.Keys && forall d, j :: d in vm.spaces && 0 <= j < PAGES ==>
              ViewAt(w, d, j) == ViewAt(vm, d, j)
  {
    AllocFresh(vm.pool);
    var (p, f) := Allocated(vm.pool);
    var w := SetTable(vm.(pool := p), c, k, f.value);
    FreeNotOwned(vm, f.value);
    var s := vm.spaces[c].(tables := vm.spaces[c].tables[k := f.value]);
    TableSlots(vm.spaces[c], k, f.value);
    forall j | 0 <= j < SLOTS && j != PAGES + k ensures Unshared(s, j) == Unshared(vm.spaces[c], j) {
    }
    SlotStep(vm, w, c, s, PAGES + k);
    forall d, j | d in vm.spaces && 0 <= j < PAGES ensures ViewAt(w, d, j) == ViewAt(vm, d, j) {
      FreeMeansUnnamed(vm, f.value, d, j);
    }
  }

  lemma DropTableStep(vm: Vm, c: nat, k: nat)
    requires Core(vm) && c in vm.spaces && 0 < k < TABLE_SLOTS
    ensures var w := SetTable(vm.(pool := Freed(vm.pool, vm.spaces[c].tables[k])), c, k, 0);
            Core(w) && w.spaces.Keys == vm.spaces.Keys && forall d, j :: d in vm.spaces && 0 <= j < PAGES ==>
              ViewAt(w, d, j) == ViewAt(vm, d, j)
  {
    var f := vm.spaces[c].tables[k];
    var w := SetTable(vm.(pool := Freed(vm.pool, f)), c, k, 0);
    var s := vm.spaces[c].(tables := vm.spaces[c].tables[k := 0]);
    TableSlots(vm.spaces[c], k, 0);
    forall j | 0 <= j < SLOTS && j != PAGES + k ensures Unshared(s, j) == Unshared(vm.spaces[c], j) {
    }
    forall d, j | d in vm.spaces && 0 <= j < SLOTS && Unshared(vm.spaces[d], j)
      ensures SlotFrame(vm.spaces[d], j) != 0 {
      UnsharedInPool(vm, d, j);
    }
    FreeExact(vm.pool, f);
    if PoolFrame(f) {
      assert SlotFrame(vm.spaces[c], PAGES + k) == f && (c, PAGES + k) in Names(vm.spaces, f);
    }
    SlotStep(vm, w, c, s, PAGES + k);
  }

  lemma BlankSlots(c: nat)
    requires PoolFrame(c)
    ensures forall k :: 0 <= k < SLOTS ==> SlotFrame(BlankSpace(c), k) == (if k == PAGES then c else 0)
    ensures forall k :: 0 <= k < SLOTS ==> (Unshared(BlankSpace(c), k) <==> k == PAGES)
    ensures SpaceOk(c, BlankSpace(c))
  {
  }

  lemma NamesOfBlank(spaces: map<nat, Space>, c: nat, g: nat)
    requires c !in spaces && PoolFrame(c) && PoolFrame(g)
    ensures |Names(spaces[c := BlankSpace(c)], g)| == |Names(spaces, g)| + (if g == c then 1 else 0)
  {
    BlankSlots(c);
    SetChange(Names(spaces, g), Names(spaces[c := BlankSpace(c)], g), (c, PAGES));
  }

  /** A space with nothing but its top-level table, in a frame that was free. */
  ghost function NewSpace(vm: Vm): (w: Vm)
    requires Sized(vm) && Allocated(vm.pool).1.Some?
    ensures Sized(w)
  {
    var (p, f) := Allocated(vm.pool);
    vm.(pool := p, spaces := vm.spaces[f.value := BlankSpace(f.value)])
  }

  lemma NewSpaceStep(vm: Vm)
    requires Core(vm) && Allocated(vm.pool).1.Some?
    ensures var f := Allocated(vm.pool).1.value;
            f !in vm.spaces && !NoUserSpace(f) && Core(NewSpace(vm))
  {
    AllocFresh(vm.pool);
    var f := Allocated(vm.pool).1.value;
    var w := NewSpace(vm);
    if f in vm.spaces {
      FreeMeansUnnamed(vm, f, f, PAGES);
    }
    BlankSlots(f);
    forall g | PoolFrame(g) ensures RefsOf(w.pool, g) == |Names(w.spaces, g)| {
      NamesOfBlank(vm.spaces, f, g);
      assert RefsOf(vm.pool, g) == |Names(vm.spaces, g)|;
    }
    forall d, k | d in w.spaces && 0 <= k < SLOTS && Unshared(w.spaces[d], k)
      ensures RefsOf(w.pool, SlotFrame(w.spaces[d], k)) == 1
    {
      if d != f {
        assert Unshared(vm.spaces[d], k);
        FreeMeansUnnamed(vm, f, d, k);
        UnsharedInPool(vm, d, k);
      }
    }
  }

  lemma NewSpaceViews(vm: Vm, d: nat, j: nat)
    requires Core(vm) && Allocated(vm.pool).1.Some? && d in NewSpace(vm).spaces && j < PAGES
    ensures ViewAt(NewSpace(vm), d, j) == if d in vm.spaces then ViewAt(vm, d, j) else Unmapped
  {
    AllocFresh(vm.pool);
    var f := Allocated(vm.pool).1.value;
    if d in vm.spaces {
      FreeMeansUnnamed(vm, f, d, j);
      if d == f {
        FreeMeansUnnamed(vm, f, f, PAGES);
      }
    }
  }

  ghost function DroppedSpace(vm: Vm, c: nat): (w: Vm)
    requires Sized(vm)
    ensures Sized(w)
  {
    vm.(pool := Freed(vm.pool, c), spaces := vm.spaces - {c})
  }

  /** Giving back the directory of a space that holds nothing else removes the space. */
  lemma DropSpaceStep(vm: Vm, c: nat)
    requires Core(vm) && c in vm.spaces && vm.spaces[c] == BlankSpace(c) && vm.cr3 != c
    ensures Core(DroppedSpace(vm, c))
    ensures forall d, j :: d in DroppedSpace(vm, c).spaces && 0 <= j < PAGES ==>
      ViewAt(DroppedSpace(vm, c), d, j) == ViewAt(vm, d, j)
  {
    var w := DroppedSpace(vm, c);
    assert w.spaces[c := BlankSpace(c)] == vm.spaces;
    BlankSlots(c);
    FreeExact(vm.pool, c);
    assert RefsOf(vm.pool, c) == 1 by {
      assert Unshared(vm.spaces[c], PAGES);
    }
    forall g | PoolFrame(g) ensures RefsOf(w.pool, g) == |Names(w.spaces, g)| {
      NamesOfBlank(w.spaces, c, g);
      assert RefsOf(vm.pool, g) == |Names(vm.spaces, g)|;
    }
    forall d, k | d in w.spaces && 0 <= k < SLOTS && Unshared(w.spaces[d], k)
      ensures RefsOf(w.pool, SlotFrame(w.spaces[d], k)) == 1
    {
      assert Unshared(vm.spaces[d], k);
      UnsharedInPool(vm, d, k);
      if SlotFrame(vm.spaces[d], k) == c {
        OnlyName(vm, c, PAGES, d, k);
      }
    }
  }
}

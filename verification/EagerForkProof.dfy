/** The proof that every step of the lazy machine is a step of the eager one, and what follows for runs. */
module EagerForkProof {
  import opened Basics
  import opened Frames
  import opened Mmu
  import opened MmuInvariant
  import opened MmuSteps
  import opened MmuOperations
  import opened EagerFork

  /** What each step has to show. */
  ghost predicate Simulates(arch: Arch, vm: Vm, op: Op)
    requires Sized(vm) && Enabled(vm, op)
  {
    var (w, answer) := Step(arch, vm, op);
    && Inv(arch, w)
    && Abs(w) == EagerStep(arch, Abs(vm), op, answer)
    && EagerAnswer(arch, Abs(vm), op, answer, POOL_FRAMES - vm.pool.used)
  }

  /** The entry's frame has no other name. */
  ghost predicate Sole(vm: Vm, e: Pte)
    requires Sized(vm)
  {
    e.present && PoolFrame(e.frame) && RefsOf(vm.pool, e.frame) == 1
  }

  /** Remembered translations stay good when the loaded space's pages only lose write access and frames
      with a single name keep it. */
  lemma TlbKept(vm: Vm, w: Vm)
    requires Core(vm) && Core(w) && TlbOk(vm) && w.tlb == vm.tlb && w.cr3 == vm.cr3
    requires vm.cr3 in vm.spaces ==> vm.cr3 in w.spaces && forall j :: 0 <= j < PAGES ==>
      Weakened(vm.spaces[vm.cr3].ptes[j], w.spaces[vm.cr3].ptes[j])
    requires vm.cr3 in vm.spaces ==> forall j :: 0 <= j < PAGES && Sole(vm, vm.spaces[vm.cr3].ptes[j]) ==>
      Sole(w, vm.spaces[vm.cr3].ptes[j])
    ensures TlbOk(w)
  {
    forall page, e | (page, e) in w.tlb ensures Coherent(w, page, e) {
      assert Coherent(vm, page, e);
      var p := vm.spaces[vm.cr3].ptes[page];
      assert PteOk(p) && Weakened(p, w.spaces[vm.cr3].ptes[page]);
      if p.writable && !p.shared {
        assert Unshared(vm.spaces[vm.cr3], page);
      }
    }
  }

  lemma ViewsEqual(vm: Vm, w: Vm, d: nat)
    requires Sized(vm) && Sized(w) && d in vm.spaces && d in w.spaces
    requires forall j :: 0 <= j < PAGES ==> ViewAt(w, d, j) == ViewAt(vm, d, j)
    ensures Views(w, d) == Views(vm, d)
  {
  }

  /** Nobody sees a difference. */
  lemma AbsSame(vm: Vm, w: Vm)
    requires Sized(vm) && Sized(w) && w.spaces.Keys == vm.spaces.Keys && SameViewsIn(vm, w, vm.spaces.Keys)
    ensures Abs(w).spaces == Abs(vm).spaces
  {
    forall d | d in vm.spaces ensures Views(w, d) == Views(vm, d) {
      ViewsEqual(vm, w, d);
    }
  }

  /** Only space `c` looks different, or is new. */
  lemma AbsUpdate(vm: Vm, w: Vm, c: nat, s: seq<View>)
    requires Sized(vm) && Sized(w) && w.spaces.Keys == vm.spaces.Keys + {c} && SameViewsIn(vm, w, vm.spaces.Keys - {c})
    requires Views(w, c) == s
    ensures Abs(w).spaces == Abs(vm).spaces[c := s]
  {
    forall d | d in vm.spaces && d != c ensures Views(w, d) == Views(vm, d) {
      ViewsEqual(vm, w, d);
    }
  }

  /** Space `c` is gone. */
  lemma AbsRemove(vm: Vm, w: Vm, c: nat)
    requires Sized(vm) && Sized(w) && w.spaces.Keys == vm.spaces.Keys - {c} && SameViewsIn(vm, w, w.spaces.Keys)
    ensures Abs(w).spaces == Abs(vm).spaces - {c}
  {
    forall d | d in w.spaces ensures Views(w, d) == Views(vm, d) {
      ViewsEqual(vm, w, d);
    }
  }

  lemma CreateSimulates(arch: Arch, vm: Vm)
    requires Inv(arch, vm)
    ensures Simulates(arch, vm, Create)
  {
    CreatedSpec(arch, vm);
    var (w, r) := Created(arch, vm);
    CreateKeepsRefs(arch, vm);
    TlbKept(vm, w);
    if r.None? {
      AbsSame(vm, w);
    } else {
      AbsUpdate(vm, w, r.value, NoViews());
    }
  }

  /** Creating a space changes no counter that was positive. */
  lemma CreateKeepsRefs(arch: Arch, vm: Vm)
    requires Core(vm)
    ensures forall d, j ::
      d in vm.spaces && 0 <= j < PAGES && vm.spaces[d].ptes[j].present && PoolFrame(vm.spaces[d].ptes[j].frame) ==>
      RefsOf(Created(arch, vm).0.pool, vm.spaces[d].ptes[j].frame) == RefsOf(vm.pool, vm.spaces[d].ptes[j].frame)
  {
    CreatedSpec(arch, vm);
    var (w, r) := Created(arch, vm);
    forall d, j | d in vm.spaces && 0 <= j < PAGES && vm.spaces[d].ptes[j].present
      && PoolFrame(vm.spaces[d].ptes[j].frame)
      ensures RefsOf(w.pool, vm.spaces[d].ptes[j].frame) == RefsOf(vm.pool, vm.spaces[d].ptes[j].frame)
    {
      var f := vm.spaces[d].ptes[j].frame;
      if r.Some? {
        forall k | 0 <= k < SLOTS ensures SlotFrame(w.spaces[r.value], k) != f {
          if k >= PAGES && SlotFrame(w.spaces[r.value], k) == f {
            OnlyName(w, r.value, k, d, j);
          }
        }
        assert Names(w.spaces, f) == Names(vm.spaces, f);
        assert RefsOf(vm.pool, f) == |Names(vm.spaces, f)|;
      }
    }
  }

  lemma KeysInPool(vm: Vm)
    requires Core(vm)
    ensures forall c :: c in vm.spaces ==> PoolFrame(c)
  {
    forall c | c in vm.spaces ensures PoolFrame(c) {
      assert SpaceOk(c, vm.spaces[c]);
    }
  }

  /** No space has a directory that means there is none. */
  lemma SpacesReal(arch: Arch, vm: Vm)
    requires Inv(arch, vm)
    ensures forall c :: c in vm.spaces ==> !NoUserSpace(c)
  {
    KeysInPool(vm);
  }

  lemma EntryOk(arch: Arch, vm: Vm, c: nat, i: nat)
    requires Inv(arch, vm) && c in vm.spaces && i < PAGES
    ensures PteOk(vm.spaces[c].ptes[i])
  {
    assert SpaceOk(c, vm.spaces[c]);
  }

  // ---- destroy, switch, fork --------------------------------------------------------------------

  /** A frame with a single name keeps its counter while that name stays and no other space appears. */
  lemma SoleNameKept(vm: Vm, w: Vm, d: nat, j: nat)
    requires Core(vm) && Core(w) && d in vm.spaces && j < PAGES && w.spaces.Keys <= vm.spaces.Keys && d in w.spaces
    requires forall c :: c in w.spaces ==> w.spaces[c] == vm.spaces[c]
    requires Sole(vm, vm.spaces[d].ptes[j])
    ensures Sole(w, vm.spaces[d].ptes[j])
  {
    var f := vm.spaces[d].ptes[j].frame;
    assert SlotFrame(vm.spaces[d], j) == f;
    assert (d, j) in Names(w.spaces, f) && (d, j) in Names(vm.spaces, f);
    assert |Names(vm.spaces, f) - {(d, j)}| == 0;
    assert Names(w.spaces, f) == {(d, j)};
  }

  lemma DestroySimulates(arch: Arch, vm: Vm, c: nat)
    requires Inv(arch, vm) && Enabled(vm, Op.Destroy(c))
    ensures Simulates(arch, vm, Op.Destroy(c))
  {
    KeysInPool(vm);
    if NoUserSpace(c) {
      assert Abs(vm).spaces - {c} == Abs(vm).spaces;
    } else {
      DestroySpec(arch, vm, c);
      var w := Destroyed(arch, vm, c);
      if vm.cr3 in vm.spaces {
        forall j | 0 <= j < PAGES && Sole(vm, vm.spaces[vm.cr3].ptes[j]) ensures Sole(w, vm.spaces[vm.cr3].ptes[j]) {
          SoleNameKept(vm, w, vm.cr3, j);
        }
      }
      TlbKept(vm, w);
      AbsRemove(vm, w, c);
    }
  }

  lemma SwitchSimulates(arch: Arch, vm: Vm, c: nat)
    requires Inv(arch, vm) && Enabled(vm, Switch(c))
    ensures Simulates(arch, vm, Switch(c))
  {
    var w := Switched(arch, vm, c);
    assert Names(w.spaces, 0) == Names(vm.spaces, 0);
    AbsSame(vm, w);
  }

  /** The spaces other than the child after a failed clone name the frames they named before. */
  lemma WeakenedNames(vm: Vm, w: Vm)
    requires Core(vm) && Core(w) && w.spaces.Keys == vm.spaces.Keys && WeakenedIn(vm, w, vm.spaces.Keys)
    ensures w.pool.refs == vm.pool.refs && w.pool.bits == vm.pool.bits && w.pool.used == vm.pool.used
  {
    forall d, k | d in vm.spaces && 0 <= k < SLOTS ensures SlotFrame(w.spaces[d], k) == SlotFrame(vm.spaces[d], k) {
      if k < PAGES {
        assert Weakened(vm.spaces[d].ptes[k], w.spaces[d].ptes[k]);
      }
    }
    SameNamesSameRefs(vm, w);
  }

  /** `clone_user_space`: the child inherits the parent's private pages and reservations, nobody else
      sees a difference, and a failure, at whichever allocation, leaves every counter as it was. */
  lemma CloneSpec(arch: Arch, vm: Vm, src: nat)
    requires Inv(arch, vm) && src in vm.spaces
    ensures var (w, child) := Cloned(arch, vm, src);
            && Inv(arch, w) && w.low == vm.low && w.cr3 == vm.cr3
            && w.spaces.Keys == vm.spaces.Keys + (if child.Some? then {child.value} else {})
            && SameViewsIn(vm, w, vm.spaces.Keys)
            && (child.None? ==>
                && w.pool.refs == vm.pool.refs && w.pool.bits == vm.pool.bits && w.pool.used == vm.pool.used
                && POOL_FRAMES - vm.pool.used < TableCount(arch) + PAGES)
            && (child.Some? ==>
                && child.value !in vm.spaces && w.tlb == {}
                && forall j :: 0 <= j < PAGES ==> ViewAt(w, child.value, j) == Inherited(ViewAt(vm, src, j)))
  {
    hide Exact, Exclusive, PoolValid;
    assert SpaceOk(src, vm.spaces[src]);
    CreatedSpec(arch, vm);
    var (v, c) := Created(arch, vm);
    if c.None? {
      if vm.cr3 in vm.spaces {
        assert forall j :: 0 <= j < PAGES ==> Weakened(vm.spaces[vm.cr3].ptes[j], v.spaces[vm.cr3].ptes[j]);
      }
      TlbKept(vm, v);
    } else {
      var dst := c.value;
      forall d | d in vm.spaces ensures v.spaces[d] == vm.spaces[d] {
        assert d in v.spaces - {dst};
      }
      CloneLoop(arch, v, src, dst, 0);
      var (w, ok) := ClonedFrom(arch, v, src, dst, 0);
      forall d, j | d in vm.spaces && 0 <= j < PAGES ensures ViewAt(w, d, j) == ViewAt(vm, d, j) {
        assert ViewAt(v, d, j) == ViewAt(vm, d, j);
      }
      if !ok {
        WeakenedNames(vm, w);
        TlbKept(vm, w);
      } else {
        CloneFinished(arch, vm, v, w, src, dst);
      }
    }
  }

  lemma CloneFinished(arch: Arch, vm: Vm, v: Vm, w: Vm, src: nat, dst: nat)
    requires Inv(arch, vm) && Growing(vm, v, dst, TableCount(arch)) && src in vm.spaces
    requires forall d :: d in vm.spaces ==> v.spaces[d] == vm.spaces[d]
    requires (w, true) == ClonedFrom(arch, v, src, dst, 0)
    ensures Inv(arch, w.(tlb := {}))
    ensures forall j :: 0 <= j < PAGES ==> ViewAt(w.(tlb := {}), dst, j) == Inherited(ViewAt(vm, src, j))
  {
    CloneLoop(arch, v, src, dst, 0);
    var u := w.(tlb := {});
    assert Core(u);
    forall d | d in u.spaces ensures Built(arch, u.spaces[d]) {
      if d != dst {
        assert u.spaces[d].tables == vm.spaces[d].tables;
      }
    }
    forall j | 0 <= j < PAGES ensures ViewAt(u, dst, j) == Inherited(ViewAt(vm, src, j)) {
      assert ViewAt(v, src, j) == ViewAt(vm, src, j);
      assert ViewAt(w, dst, j) == Inherited(ViewAt(v, src, j));
    }
  }

  /** No task slot for the child: its space is destroyed again, and nobody sees a difference. */
  lemma ForkUndone(arch: Arch, vm: Vm, w: Vm, child: nat)
    requires Inv(arch, vm) && Inv(arch, w) && child !in vm.spaces && w.spaces.Keys == vm.spaces.Keys + {child}
    requires w.tlb == {} && w.low == vm.low && w.cr3 == vm.cr3 && SameViewsIn(vm, w, vm.spaces.Keys)
    ensures var u := Destroyed(arch, w, child);
            Inv(arch, u) && Abs(u) == Abs(vm)
  {
    assert SpaceOk(child, w.spaces[child]);
    DestroySpec(arch, w, child);
    var u := Destroyed(arch, w, child);
    forall d, j | d in vm.spaces && 0 <= j < PAGES ensures ViewAt(u, d, j) == ViewAt(vm, d, j) {
      assert ViewAt(u, d, j) == ViewAt(w, d, j);
    }
    AbsSame(vm, u);
  }

  lemma ForkSimulates(arch: Arch, vm: Vm, c: nat, slotFree: bool)
    requires Inv(arch, vm) && Enabled(vm, Fork(c, slotFree))
    ensures Simulates(arch, vm, Fork(c, slotFree))
  {
    hide Inv, Destroyed;
    SpacesReal(arch, vm);
    if !NoUserSpace(c) {
      CloneSpec(arch, vm, c);
      var (w, child) := Cloned(arch, vm, c);
      if child.None? {
        AbsSame(vm, w);
      } else if slotFree {
        assert Views(w, child.value) == Copied(Views(vm, c));
        AbsUpdate(vm, w, child.value, Copied(Views(vm, c)));
      } else {
        ForkUndone(arch, vm, w, child.value);
      }
    }
  }

  // ---- entries ----------------------------------------------------------------------------------

  /** Only page entries of space `c`, and what is remembered, may have changed. */
  ghost predicate EntriesChanged(vm: Vm, w: Vm, c: nat) {
    && Sized(vm) && Sized(w) && w.pool == vm.pool && w.low == vm.low && w.cr3 == vm.cr3
    && c in vm.spaces && c in w.spaces && w.spaces == vm.spaces[c := w.spaces[c]]
       && w.spaces[c].tables == vm.spaces[c].tables
  }

  /** An entry that names no pool frame. */
  ghost predicate Outside(e: Pte) {
    PteOk(e) && (!e.present || e.shared)
  }

  /** Entries outside the pool do not matter to the counters. */
  lemma OutsideChanged(vm: Vm, w: Vm, c: nat)
    requires Core(vm) && EntriesChanged(vm, w, c)
    requires forall j :: 0 <= j < PAGES ==>
      w.spaces[c].ptes[j] == vm.spaces[c].ptes[j] || (Outside(vm.spaces[c].ptes[j]) && Outside(w.spaces[c].ptes[j]))
    ensures Core(w)
  {
    var s, t := vm.spaces[c], w.spaces[c];
    assert SpaceOk(c, s) && SpaceOk(c, t);
    forall k | 0 <= k < SLOTS
      ensures Unshared(t, k) == Unshared(s, k)
      ensures SlotFrame(t, k) == SlotFrame(s, k) || (!PoolFrame(SlotFrame(t, k)) && !PoolFrame(SlotFrame(s, k)))
    {
    }
    forall f | PoolFrame(f) ensures RefsOf(w.pool, f) == |Names(w.spaces, f)| {
      assert Names(w.spaces, f) == Names(vm.spaces, f);
    }
    forall d, k | d in w.spaces && 0 <= k < SLOTS && Unshared(w.spaces[d], k)
      ensures RefsOf(w.pool, SlotFrame(w.spaces[d], k)) == 1
    {
      assert Unshared(vm.spaces[d], k);
      UnsharedInPool(vm, d, k);
    }
  }

  lemma {:induction false} ReserveLoop(vm: Vm, c: nat, from: int, last: int)
    requires Sized(vm) && c in vm.spaces
    ensures var (w, ok) := ReservedFrom(vm, c, from, last);
            && EntriesChanged(vm, w, c)
            && (ok <==> from > last || (0 <= from && last < PAGES))
            && w.tlb == (if ok then {} else vm.tlb)
            && forall j :: 0 <= j < PAGES ==>
                 w.spaces[c].ptes[j] == if 0 <= from <= j <= last
                   && !vm.spaces[c].ptes[j].present then DEMAND else vm.spaces[c].ptes[j]
    decreases last - from
  {
    if from <= last && 0 <= from < PAGES {
      ReserveLoop(if vm.spaces[c].ptes[from].present then vm else SetPte(vm, c, from, DEMAND), c, from + 1, last);
    }
  }

  lemma {:induction false} MapLoop(vm: Vm, c: nat, from: int, f: nat, n: nat)
    requires Sized(vm) && c in vm.spaces && 0 <= from && from + n <= PAGES
    ensures var (w, ok) := MappedFrom(vm, c, from, f, n);
            && EntriesChanged(vm, w, c) && ok && w.tlb == {}
            && forall j :: 0 <= j < PAGES ==>
                 w.spaces[c].ptes[j] == if from <= j < from + n then Window(f + (j - from)) else vm.spaces[c].ptes[j]
    decreases n
  {
    if n > 0 {
      var v := SetPte(vm, c, from, Window(f));
      MapLoop(v, c, from + 1, f + 1, n - 1);
      var w := MappedFrom(vm, c, from, f, n).0;
      assert w.spaces[c].ptes[from] == v.spaces[c].ptes[from];
    }
  }

  /** Rewriting absent entries keeps the invariant and changes the view of that space only. */
  lemma AbsentAbs(arch: Arch, vm: Vm, w: Vm, c: nat)
    requires Inv(arch, vm) && EntriesChanged(vm, w, c) && Core(w) && TlbOk(w)
    ensures Inv(arch, w) && Abs(w) == Abs(vm).(spaces := Abs(vm).spaces[c := Views(w, c)])
  {
    forall d | d in w.spaces ensures Built(arch, w.spaces[d]) {
      assert w.spaces[d].tables == vm.spaces[d].tables;
    }
    AbsUpdate(vm, w, c, Views(w, c));
  }

  lemma ReserveSimulates(arch: Arch, vm: Vm, c: nat, from: int, last: int)
    requires Inv(arch, vm) && Enabled(vm, Reserve(c, from, last))
    ensures Simulates(arch, vm, Reserve(c, from, last))
  {
    ReserveLoop(vm, c, from, last);
    var (w, ok) := ReservedFrom(vm, c, from, last);
    assert SpaceOk(c, vm.spaces[c]);
    OutsideChanged(vm, w, c);
    forall page, e | (page, e) in w.tlb ensures Coherent(w, page, e) {
      assert Coherent(vm, page, e);
    }
    AbsentAbs(arch, vm, w, c);
    forall j | 0 <= j < PAGES ensures ViewAt(w, c, j) == WithReserved(Views(vm, c), from, last)[j] {
      assert PteOk(vm.spaces[c].ptes[j]);
    }
    assert Views(w, c) == WithReserved(Views(vm, c), from, last);
  }

  lemma MapSimulates(arch: Arch, vm: Vm, c: nat, from: int, f: nat, n: nat)
    requires Inv(arch, vm) && Enabled(vm, MapWindow(c, from, f, n))
    ensures Simulates(arch, vm, MapWindow(c, from, f, n))
  {
    hide Exact, Exclusive, PoolValid, MappedFrom;
    MapLoop(vm, c, from, f, n);
    var (w, ok) := MappedFrom(vm, c, from, f, n);
    assert SpaceOk(c, vm.spaces[c]);
    OutsideChanged(vm, w, c);
    AbsentAbs(arch, vm, w, c);
    assert Views(w, c) == WithWindows(Views(vm, c), from, f, n);
  }

  // ---- accesses ---------------------------------------------------------------------------------

  /** Whatever translation the processor picks, it leads to the frame the table names now, and a
      write through it reaches a frame of the pool only if nothing else names that frame: stale
      translations are harmless, also after a `clone_user_space` that failed without a reload. */
  lemma NoStaleWrite(arch: Arch, vm: Vm, page: nat, write: bool, cached: Option<Pte>)
    requires Inv(arch, vm) && vm.cr3 in vm.spaces && page < PAGES
    ensures match Translated(vm, page, write, cached)
            case Some(e) =>
              var p := vm.spaces[vm.cr3].ptes[page];
              && Coherent(vm, page, e)
              && (if e.shared then e.frame < POOL_FIRST else PoolFrame(e.frame))
              && (write && !e.shared ==> RefsOf(vm.pool, e.frame) == 1)
            case None => true
  {
    var p := vm.spaces[vm.cr3].ptes[page];
    assert PteOk(p);
    if cached.Some? && (page, cached.value) in vm.tlb {
      assert Coherent(vm, page, cached.value);
    }
    if p.present && p.writable && !p.shared {
      assert Unshared(vm.spaces[vm.cr3], page);
    }
  }

  /** Giving the page a private copy is: drop the shared name, then fill the absent page. */
  lemma CowCopyIsRefill(vm: Vm, page: nat)
    requires Core(vm) && vm.cr3 in vm.spaces && page < PAGES && Allocated(vm.pool).1.Some?
    requires var e := vm.spaces[vm.cr3].ptes[page]; e.present && e.cow && RefsOf(vm.pool, e.frame) > 1
    ensures var e := vm.spaces[vm.cr3].ptes[page];
            var bytes := vm.pool.pages[e.frame - POOL_FIRST];
            && CowSplit(vm, page) == (Filled(Blanked(vm, vm.cr3, page), vm.cr3, page, bytes).(tlb := {}), true)
            && Allocated(Blanked(vm, vm.cr3, page).pool).1.Some?
  {
    hide Exact, Exclusive;
    AllocFresh(vm.pool);
    var c := vm.cr3;
    var e := vm.spaces[c].ptes[page];
    assert PteOk(e);
    var bytes := vm.pool.pages[e.frame - POOL_FIRST];
    var p, f := Allocated(vm.pool).0, Allocated(vm.pool).1.value;
    var b := Blanked(vm, c, page);
    assert b.pool.bits == vm.pool.bits;
    assert FrameBytes(vm.(pool := p), e.frame) == bytes;
    var w := CowSplit(vm, page).0;
    var u := Filled(b, c, page, bytes);
    assert w.pool.refs == u.pool.refs && w.pool.pages == u.pool.pages;
    assert w.spaces[c].ptes == u.spaces[c].ptes;
    assert w.spaces == u.spaces;
  }

  /** A fault that is handled changes nothing anybody sees, and the page can then be accessed. */
  lemma FaultSpec(arch: Arch, vm: Vm, page: nat, write: bool, cached: Option<Pte>)
    requires Inv(arch, vm) && vm.cr3 in vm.spaces && page < PAGES && Translated(vm, page, write, cached).None?
    ensures var (w, ok) := FaultHandled(vm, page, write, cached);
            && Inv(arch, w) && Abs(w) == Abs(vm)
            && (ok ==>
               w.tlb == {} && w.spaces[w.cr3].ptes[page].present && (write ==> w.spaces[w.cr3].ptes[page].writable))
            && (!ok ==>
               w == vm && (ViewAt(vm, vm.cr3, page) == Unmapped
                 || (ViewAt(vm, vm.cr3, page).Private? && vm.pool.used == POOL_FRAMES)))
  {
    hide Exact, Exclusive, PoolValid;
    var c := vm.cr3;
    var p := vm.spaces[c].ptes[page];
    assert PteOk(p) && SpaceOk(c, vm.spaces[c]);
    if cached.Some? && (page, cached.value) in vm.tlb {
      assert Coherent(vm, page, cached.value);
    }
    AllocFresh(vm.pool);
    var (w, ok) := FaultHandled(vm, page, write, cached);
    if ok {
      if !p.present {
        FillStep(vm, c, page, Zeros());
        Reloaded(arch, vm, Filled(vm, c, page, Zeros()), page);
      } else if RefsOf(vm.pool, p.frame) <= 1 {
        ReuseStep(vm, c, page);
        Reloaded(arch, vm, SetPte(vm, c, page, p.(cow := false, writable := true)), page);
      } else {
        CowCopySpec(arch, vm, page);
      }
    }
  }

  lemma CowCopySpec(arch: Arch, vm: Vm, page: nat)
    requires Inv(arch, vm) && vm.cr3 in vm.spaces && page < PAGES && Allocated(vm.pool).1.Some?
    requires var e := vm.spaces[vm.cr3].ptes[page]; e.present && e.cow && RefsOf(vm.pool, e.frame) > 1
    ensures var w := CowSplit(vm, page).0;
            Inv(arch, w) && Abs(w) == Abs(vm) && w.spaces[w.cr3].ptes[page].present
              && w.spaces[w.cr3].ptes[page].writable
  {
    assert Core(vm);
    EntryOk(arch, vm, vm.cr3, page);
    hide Inv, Core, TlbOk, Abs, Freed, Allocated, WithBytes;
    CowRefilled(vm, page);
    Reloaded(arch, vm, CowSplit(vm, page).0, page);
  }

  lemma CowRefilled(vm: Vm, page: nat)
    requires Core(vm) && vm.cr3 in vm.spaces && page < PAGES && Allocated(vm.pool).1.Some?
    requires var e := vm.spaces[vm.cr3].ptes[page];
            e.present && e.cow && !e.shared && PoolFrame(e.frame) && RefsOf(vm.pool, e.frame) > 1
    ensures var c := vm.cr3;
            var w := CowSplit(vm, page).0;
            && Core(w) && w.tlb == {} && w.low == vm.low && SameViewsBut(vm, w, c, page)
               && ViewAt(w, c, page) == ViewAt(vm, c, page)
            && (forall d :: d in vm.spaces ==> w.spaces[d].tables == vm.spaces[d].tables)
            && w.spaces[c].ptes[page].present && w.spaces[c].ptes[page].writable
  {
    hide Core, Freed, Allocated;
    var c := vm.cr3;
    CowCopyIsRefill(vm, page);
    BlankStep(vm, c, page);
    var b := Blanked(vm, c, page);
    var bytes := vm.pool.pages[vm.spaces[c].ptes[page].frame - POOL_FIRST];
    FillStep(b, c, page, bytes);
    var u := Filled(b, c, page, bytes);
    SameButChain(vm, b, u, c, page);
    Flushed(vm, u, c, page);
  }

  /** What is remembered does not matter to the tables. */
  lemma Flushed(vm: Vm, u: Vm, c: nat, i: nat)
    requires Core(u) && Sized(vm) && u.spaces.Keys == vm.spaces.Keys && SameViewsBut(vm, u, c, i)
    ensures Core(u.(tlb := {})) && SameViewsBut(vm, u.(tlb := {}), c, i)
  {
    forall d, j | d in vm.spaces && 0 <= j < PAGES && (d != c || j != i)
      ensures ViewAt(u.(tlb := {}), d, j) == ViewAt(vm, d, j) {
      assert ViewAt(u, d, j) == ViewAt(vm, d, j);
    }
  }

  lemma SameButChain(vm: Vm, v: Vm, w: Vm, c: nat, i: nat)
    requires Sized(vm) && Sized(v) && Sized(w) && v.spaces.Keys == vm.spaces.Keys && w.spaces.Keys == vm.spaces.Keys
    requires SameViewsBut(vm, v, c, i) && SameViewsBut(v, w, c, i)
    ensures SameViewsBut(vm, w, c, i)
  {
    forall d, j | d in vm.spaces && 0 <= j < PAGES && (d != c || j != i) ensures ViewAt(w, d, j) == ViewAt(vm, d, j) {
      assert ViewAt(v, d, j) == ViewAt(vm, d, j);
    }
  }

  /** One entry of the loaded space changed invisibly, and CR3 was reloaded. */
  lemma Reloaded(arch: Arch, vm: Vm, w: Vm, page: nat)
    requires Inv(arch, vm) && Core(w) && vm.cr3 in vm.spaces && page < PAGES && w.low == vm.low && w.cr3 == vm.cr3
    requires w.spaces.Keys == vm.spaces.Keys && SameViewsBut(vm, w, vm.cr3, page)
      && ViewAt(w, vm.cr3, page) == ViewAt(vm, vm.cr3, page)
    requires forall d :: d in vm.spaces ==> w.spaces[d].tables == vm.spaces[d].tables
    ensures Inv(arch, w.(tlb := {})) && Abs(w.(tlb := {})) == Abs(vm)
  {
    var u := w.(tlb := {});
    assert Core(u);
    forall d | d in u.spaces ensures Built(arch, u.spaces[d]) {
      assert u.spaces[d].tables == vm.spaces[d].tables;
    }
    forall d, j | d in vm.spaces && 0 <= j < PAGES ensures ViewAt(u, d, j) == ViewAt(vm, d, j) {
      assert ViewAt(u, d, j) == ViewAt(w, d, j);
    }
    AbsSame(vm, u);
  }

  /** An access ends after at most one fault: it is carried out, or the page is unmapped, or there is no
      frame left. */
  lemma AccessSpec(arch: Arch, vm: Vm, page: nat, write: bool, first: Option<Pte>, retry: Option<Pte>)
    requires Inv(arch, vm) && vm.cr3 in vm.spaces && page < PAGES
    ensures var (w, e, answer) := Accessed(vm, page, write, first, retry);
            var view := ViewAt(vm, vm.cr3, page);
            && Inv(arch, w) && Abs(w) == Abs(vm) && answer != FaultsAgain
            && (e.None? <==> answer == Killed) && (e.Some? ==> answer == Done)
            && (e.None? ==> view == Unmapped || (view.Private? && vm.pool.used == POOL_FRAMES))
            && (e.Some? ==>
                && Coherent(w, page, e.value) && view == PageView(w.pool, w.spaces[w.cr3].ptes[page])
                && (write && !e.value.shared ==> RefsOf(w.pool, e.value.frame) == 1))
  {
    hide Exact, Exclusive, PoolValid;
    NoStaleWrite(arch, vm, page, write, first);
    var p := vm.spaces[vm.cr3].ptes[page];
    match Translated(vm, page, write, first)
    case Some(e) =>
      Remembered(arch, vm, page, e);
    case None =>
      FaultSpec(arch, vm, page, write, first);
      var (w, ok) := FaultHandled(vm, page, write, first);
      if ok {
        NoStaleWrite(arch, w, page, write, retry);
        assert Translated(w, page, write, retry).Some?;
        Remembered(arch, w, page, Translated(w, page, write, retry).value);
        assert Abs(w).spaces[w.cr3] == Abs(vm).spaces[vm.cr3];
        assert Views(w, w.cr3)[page] == Views(vm, vm.cr3)[page];
      }
  }

  lemma Remembered(arch: Arch, vm: Vm, page: nat, e: Pte)
    requires Inv(arch, vm) && Coherent(vm, page, e)
    ensures var w := vm.(tlb := vm.tlb + {(page, e)}); Inv(arch, w) && Abs(w) == Abs(vm)
  {
    var w := vm.(tlb := vm.tlb + {(page, e)});
    assert Core(w);
    forall q, x | (q, x) in w.tlb ensures Coherent(w, q, x) {
      if (q, x) != (page, e) {
        assert Coherent(vm, q, x);
      } else {
        assert Coherent(vm, page, e);
      }
    }
    AbsSame(vm, w);
  }

  lemma ReadSimulates(arch: Arch, vm: Vm, page: nat, offset: nat, first: Option<Pte>, retry: Option<Pte>)
    requires Inv(arch, vm) && Enabled(vm, Read(page, offset, first, retry))
    ensures Simulates(arch, vm, Read(page, offset, first, retry))
  {
    hide Exact, Exclusive, PoolValid, Accessed;
    AccessSpec(arch, vm, page, false, first, retry);
    var (w, e, answer) := Accessed(vm, page, false, first, retry);
    assert Abs(vm).spaces[vm.cr3][page] == ViewAt(vm, vm.cr3, page);
    if e.Some? {
      assert PteOk(w.spaces[w.cr3].ptes[page]);
      assert w.low == vm.low by { assert Abs(w).low == Abs(vm).low; }
    }
  }

  /** Storing a byte in a pool frame with a single name changes that one page. */
  lemma StoreSpec(arch: Arch, w: Vm, page: nat, bytes: Page)
    requires Inv(arch, w) && w.cr3 in w.spaces && page < PAGES
    requires var p := w.spaces[w.cr3].ptes[page]; p.present && !p.shared && RefsOf(w.pool, p.frame) == 1
    ensures var u := WithBytes(w, w.spaces[w.cr3].ptes[page].frame, bytes);
            && Inv(arch, u) && u.low == w.low && u.cr3 == w.cr3
            && Abs(u).spaces == Abs(w).spaces[w.cr3 := Abs(w).spaces[w.cr3][page := Private(bytes)]]
  {
    var c := w.cr3;
    var f := w.spaces[c].ptes[page].frame;
    assert PteOk(w.spaces[c].ptes[page]);
    var u := WithBytes(w, f, bytes);
    StoreKeeps(arch, w, f, bytes);
    forall d, j | d in w.spaces && 0 <= j < PAGES && (d != c || j != page) ensures ViewAt(u, d, j) == ViewAt(w, d, j) {
      if w.spaces[d].ptes[j].present && w.spaces[d].ptes[j].frame == f {
        OneName(w, c, page, d, j);
      }
    }
    assert Views(u, c) == Views(w, c)[page := Private(bytes)];
    AbsUpdate(w, u, c, Views(u, c));
  }

  lemma StoreKeeps(arch: Arch, w: Vm, f: nat, bytes: Page)
    requires Inv(arch, w)
    ensures Inv(arch, WithBytes(w, f, bytes))
  {
    var u := WithBytes(w, f, bytes);
    assert forall g :: RefsOf(u.pool, g) == RefsOf(w.pool, g);
    forall g | PoolFrame(g) ensures RefsOf(u.pool, g) == |Names(u.spaces, g)| {
      assert RefsOf(w.pool, g) == |Names(w.spaces, g)|;
    }
    forall q, x | (q, x) in u.tlb ensures Coherent(u, q, x) {
      assert Coherent(w, q, x);
    }
  }

  /** A store through entry `e` of page `page` of the loaded space, as its process and the others see it. */
  lemma StoredByte(arch: Arch, w: Vm, page: nat, e: Pte, offset: nat, byte: Byte)
    requires Inv(arch, w) && Coherent(w, page, e) && offset < FRAME_SIZE
    requires !e.shared ==> RefsOf(w.pool, e.frame) == 1
    ensures var u := WithBytes(w, e.frame, FrameBytes(w, e.frame)[offset := byte]);
            && Inv(arch, u)
            && match ViewAt(w, w.cr3, page)
               case Unmapped => false
               case Private(bytes) =>
                 Abs(u) == Abs(w).(spaces := Abs(w).spaces[w.cr3 :=
                   Abs(w).spaces[w.cr3][page := Private(bytes[offset := byte])]])
               case WindowOn(f) => f < POOL_FIRST && Abs(u) == Abs(w).(low := w.low[f := w.low[f][offset := byte]])
  {
    EntryOk(arch, w, w.cr3, page);
    assert Sized(w) && w.spaces[w.cr3].ptes[page].frame == e.frame && w.spaces[w.cr3].ptes[page].shared == e.shared;
    var bytes := FrameBytes(w, e.frame)[offset := byte];
    hide Inv, Core, TlbOk, Coherent, Abs;
    if e.shared {
      StoreKeeps(arch, w, e.frame, bytes);
      AbsLow(w, e.frame, bytes);
    } else {
      StoreSpec(arch, w, page, bytes);
      assert Abs(w).low == w.low && Abs(w).cr3 == w.cr3 by { AbsFields(w); }
      AbsFields(WithBytes(w, e.frame, bytes));
    }
  }

  lemma AbsFields(w: Vm)
    requires Sized(w)
    ensures Abs(w).low == w.low && Abs(w).cr3 == w.cr3
  {
  }

  lemma AbsLow(w: Vm, f: nat, bytes: Page)
    requires Sized(w) && f < POOL_FIRST
    ensures Abs(WithBytes(w, f, bytes)) == Abs(w).(low := w.low[f := bytes])
  {
    AbsSame(w, WithBytes(w, f, bytes));
  }

  lemma WriteSimulates(arch: Arch, vm: Vm, page: nat, offset: nat, byte: Byte, first: Option<Pte>, retry: Option<Pte>)
    requires Inv(arch, vm) && Enabled(vm, Write(page, offset, byte, first, retry))
    ensures Simulates(arch, vm, Write(page, offset, byte, first, retry))
  {
    assert Sized(vm);
    hide Inv, Core, TlbOk, Accessed, WithBytes, Coherent;
    AccessSpec(arch, vm, page, true, first, retry);
    var (w, e, answer) := Accessed(vm, page, true, first, retry);
    assert Abs(vm).spaces[vm.cr3][page] == ViewAt(vm, vm.cr3, page);
    if e.Some? {
      assert w.low == vm.low && w.cr3 == vm.cr3 by { assert Abs(w).low == Abs(vm).low && Abs(w).cr3 == Abs(vm).cr3; }
      StoredByte(arch, w, page, e.value, offset, byte);
    }
  }

  // ---- the theorems -----------------------------------------------------------------------------

  /** Every step of the lazy machine is a step of the eager one. */
  lemma StepSimulates(arch: Arch, vm: Vm, op: Op)
    requires Inv(arch, vm) && Enabled(vm, op)
    ensures Simulates(arch, vm, op)
  {
    match op
    case Create => CreateSimulates(arch, vm);
    case Reserve(c, from, last) => ReserveSimulates(arch, vm, c, from, last);
    case MapWindow(c, from, f, n) => MapSimulates(arch, vm, c, from, f, n);
    case Fork(c, slotFree) => ForkSimulates(arch, vm, c, slotFree);
    case Destroy(c) => DestroySimulates(arch, vm, c);
    case Switch(c) => SwitchSimulates(arch, vm, c);
    case Read(page, offset, first, retry) => ReadSimulates(arch, vm, page, offset, first, retry);
    case Write(page, offset, byte, first, retry) => WriteSimulates(arch, vm, page, offset, byte, first, retry);
  }

  /** A sequence of steps, each called as the kernel calls it. */
  ghost predicate Runnable(arch: Arch, vm: Vm, ops: seq<Op>)
    requires Sized(vm)
    decreases |ops|
  {
    ops == [] || (Enabled(vm, ops[0]) && Runnable(arch, Step(arch, vm, ops[0]).0, ops[1..]))
  }

  ghost function Run(arch: Arch, vm: Vm, ops: seq<Op>): (w: Vm)
    requires Sized(vm) && Runnable(arch, vm, ops)
    ensures Sized(w)
    decreases |ops|
  {
    if ops == [] then vm else Run(arch, Step(arch, vm, ops[0]).0, ops[1..])
  }

  /** Along the whole run the two machines look the same and give the same answers. */
  ghost predicate InStep(arch: Arch, vm: Vm, a: Eager, ops: seq<Op>)
    requires Sized(vm) && Runnable(arch, vm, ops)
    decreases |ops|
  {
    && EagerSized(a) && Abs(vm) == a
    && (ops != [] ==>
        var (w, answer) := Step(arch, vm, ops[0]);
        && EagerAnswer(arch, a, ops[0], answer, POOL_FRAMES - vm.pool.used)
        && InStep(arch, w, EagerStep(arch, a, ops[0], answer), ops[1..]))
  }

  /** The machine before the first process: nothing is mapped, every frame is free. */
  ghost function Boot(low: seq<Page>, pages: seq<Page>): Vm {
    Vm(low, Pool(seq(POOL_FRAMES, _ => false), seq(POOL_FRAMES, _ => 0), 0, pages), map[], KERNEL_CR3, {})
  }

  lemma BootInvariant(arch: Arch, low: seq<Page>, pages: seq<Page>)
    requires |low| == POOL_FIRST && |pages| == POOL_FRAMES
    ensures Inv(arch, Boot(low, pages))
  {
    var vm := Boot(low, pages);
    CountTrueBound(vm.pool.bits);
    assert forall f :: Names(vm.spaces, f) == {};
  }

  /** The refinement theorem: over every run from a state in order the lazy machine is in step with the
      eager one. */
  lemma {:induction false} LazyForkRefinesEagerFork(arch: Arch, vm: Vm, ops: seq<Op>)
    requires Inv(arch, vm) && Runnable(arch, vm, ops)
    ensures InStep(arch, vm, Abs(vm), ops) && Inv(arch, Run(arch, vm, ops))
    decreases |ops|
  {
    if ops != [] {
      StepSimulates(arch, vm, ops[0]);
      LazyForkRefinesEagerFork(arch, Step(arch, vm, ops[0]).0, ops[1..]);
    }
  }

  /** The page entries that name a frame, over all live spaces. */
  ghost function PageUsers(vm: Vm, f: nat): set<(nat, nat)>
    requires Sized(vm)
  {
    set c, i | c in vm.spaces && 0 <= i < PAGES && vm.spaces[c].ptes[i].present && vm.spaces[c].ptes[i].frame == f ::
      (c, i)
  }

  ghost predicate IsTable(vm: Vm, f: nat)
    requires Sized(vm)
  {
    exists c, k :: c in vm.spaces && 0 <= k < TABLE_SLOTS && vm.spaces[c].tables[k] == f
  }

  /** A frame's counter is the number of page entries that name it, plus one for a table; its bit is
      set iff the counter is positive; a page its process may write to has a counter of one. */
  lemma RefcountsExact(arch: Arch, vm: Vm, f: nat)
    requires Inv(arch, vm) && PoolFrame(f)
    ensures RefsOf(vm.pool, f) == |PageUsers(vm, f)| + (if IsTable(vm, f) then 1 else 0)
    ensures vm.pool.bits[f - POOL_FIRST] <==> RefsOf(vm.pool, f) > 0
    ensures forall c, i :: (c, i) in PageUsers(vm, f) && vm.spaces[c].ptes[i].writable ==> RefsOf(vm.pool, f) == 1
  {
    var names := Names(vm.spaces, f);
    forall c, i | (c, i) in PageUsers(vm, f)
      ensures (c, i) in names && (vm.spaces[c].ptes[i].writable ==> RefsOf(vm.pool, f) == 1)
    {
      assert SlotFrame(vm.spaces[c], i) == f && PteOk(vm.spaces[c].ptes[i]);
      assert vm.spaces[c].ptes[i].writable ==> Unshared(vm.spaces[c], i);
    }
    if IsTable(vm, f) {
      var c, k :| c in vm.spaces && 0 <= k < TABLE_SLOTS && vm.spaces[c].tables[k] == f;
      assert SlotFrame(vm.spaces[c], PAGES + k) == f && Unshared(vm.spaces[c], PAGES + k);
      forall d, j | (d, j) in names ensures (d, j) == (c, PAGES + k) {
        OnlyName(vm, c, PAGES + k, d, j);
      }
      assert names == {(c, PAGES + k)};
      assert PageUsers(vm, f) == {};
    } else {
      forall d, j | (d, j) in names ensures (d, j) in PageUsers(vm, f) {
      }
      assert names == PageUsers(vm, f);
    }
  }

  /** Once every space is destroyed the pool is as empty as at boot: no operation leaks a frame. */
  lemma NothingLeaks(arch: Arch, vm: Vm)
    requires Inv(arch, vm) && vm.spaces == map[]
    ensures vm.pool.used == 0 && forall i :: 0 <= i < POOL_FRAMES ==> vm.pool.refs[i] == 0 && !vm.pool.bits[i]
  {
    forall i | 0 <= i < POOL_FRAMES ensures vm.pool.refs[i] == 0 {
      assert Names(vm.spaces, POOL_FIRST + i) == {};
      assert RefsOf(vm.pool, POOL_FIRST + i) == 0;
    }
    CountTrueBound(vm.pool.bits);
  }

  /** Over every run from boot: every answer is the eager machine's, every counter is the number of names,
      nothing is held once the spaces are gone. */
  lemma EveryRun(arch: Arch, low: seq<Page>, pages: seq<Page>, ops: seq<Op>)
    requires |low| == POOL_FIRST && |pages| == POOL_FRAMES && Runnable(arch, Boot(low, pages), ops)
    ensures InStep(arch, Boot(low, pages), Eager(map[], low, KERNEL_CR3), ops)
    ensures var vm := Run(arch, Boot(low, pages), ops);
            && (forall f {:trigger RefsOf(vm.pool, f)} :: PoolFrame(f) ==>
               RefsOf(vm.pool, f) == |PageUsers(vm, f)| + (if IsTable(vm, f) then 1 else 0))
            && (vm.spaces == map[] ==> vm.pool.used == 0)
  {
    var vm := Run(arch, Boot(low, pages), ops);
    BootInvariant(arch, low, pages);
    LazyForkRefinesEagerFork(arch, Boot(low, pages), ops);
    hide Inv;
    forall f | PoolFrame(f) ensures RefsOf(vm.pool, f) == |PageUsers(vm, f)| + (if IsTable(vm, f) then 1 else 0) {
      RefcountsExact(arch, vm, f);
    }
    if vm.spaces == map[] {
      NothingLeaks(arch, vm);
    }
  }
}

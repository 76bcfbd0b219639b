/** The code of the address-space modules, updating tables and pool in place: each method does to the
    machine exactly what the functions of module Mmu say, for which EagerForkProof shows the rest. */
module AddressSpaces {
  import opened Basics
  import opened Frames
  import opened Mmu
  import opened MmuInvariant
  import opened MmuSteps
  import opened MmuOperations
  import opened EagerFork
  import opened EagerForkProof

  /** Number of the first page of the user region (12 MiB), and the page size. */
  const USER_FIRST_PAGE: nat := 3072
  const PAGE_SIZE: nat := 4096

  // ---- ranges of bytes ----------------------------------------------------------------------------

  /** Sums of addresses and lengths wrap around in machine words. */
  function Words(arch: Arch): nat {
    match arch case I386 => 0x1_0000_0000 case X8664 => 0x1_0000_0000_0000_0000
  }

  /** `[start, start + len)` as the pages it touches, counted from the start of the region. */
  function FirstPage(start: nat): int {
    start / PAGE_SIZE - USER_FIRST_PAGE
  }

  function LastPage(arch: Arch, start: nat, len: nat): int
    requires len > 0
  {
    (start + len - 1) % Words(arch) / PAGE_SIZE - USER_FIRST_PAGE
  }

  function PageCount(arch: Arch, len: nat): nat {
    (len + PAGE_SIZE - 1) % Words(arch) / PAGE_SIZE
  }

  /** The user region, 4 MiB from 12 MiB on. */
  const USER_START: nat := 0x00C0_0000
  const USER_END: nat := 0x0100_0000

  predicate InUserPage(a: int, j: nat) {
    USER_START + j * PAGE_SIZE <= a < USER_START + (j + 1) * PAGE_SIZE
  }

  /** Some address of `[start, start + len)` lies in user page `j`. */
  ghost predicate Touches(start: nat, len: nat, j: nat) {
    exists a: int :: InUserPage(a, j) && start <= a < start + len
  }

  predicate InsideRegion(start: nat, len: nat) {
    USER_START <= start && start + len <= USER_END
  }

  lemma TouchedPages(arch: Arch, start: nat, len: nat, j: nat)
    requires 0 < len && start + len <= Words(arch) && j < PAGES
    ensures Touches(start, len, j) <==> FirstPage(start) <= j <= LastPage(arch, start, len)
    ensures InsideRegion(start, len) <==> 0 <= FirstPage(start) && LastPage(arch, start, len) < PAGES
    ensures FirstPage(start) <= LastPage(arch, start, len) && (start >= USER_START <==> 0 <= FirstPage(start))
  {
    var first, last := start / PAGE_SIZE, (start + len - 1) / PAGE_SIZE;
    assert last == LastPage(arch, start, len) + USER_FIRST_PAGE;
    var page := USER_FIRST_PAGE + j;
    assert page * PAGE_SIZE == USER_START + j * PAGE_SIZE;
    if first <= page <= last {
      var a := if start > page * PAGE_SIZE then start else page * PAGE_SIZE;
      assert InUserPage(a, j) && start <= a < start + len;
    }
  }

  lemma CountedPages(arch: Arch, vaddr: nat, len: nat)
    requires 0 < len && vaddr % PAGE_SIZE == 0 && vaddr + len + PAGE_SIZE <= Words(arch)
    ensures FirstPage(vaddr) + PageCount(arch, len) - 1 == LastPage(arch, vaddr, len) && PageCount(arch, len) > 0
  {
    hide Words;
    InWords(arch, len + PAGE_SIZE - 1);
    InWords(arch, vaddr + len - 1);
    PagesAdd(1, len - 1);
    PagesAdd(vaddr / PAGE_SIZE, len - 1);
  }

  lemma InWords(arch: Arch, a: nat)
    requires a < Words(arch)
    ensures a % Words(arch) == a
  {
  }

  lemma PagesAdd(v: nat, b: nat)
    ensures (v * PAGE_SIZE + b) / PAGE_SIZE == v + b / PAGE_SIZE
  {
  }

  /** The pages of a range that were unmapped read as zeros; every other page, and every other space, is seen
      as before. */
  ghost predicate RangeReserved(vm: Vm, w: Vm, c: nat, start: nat, len: nat)
    requires Sized(vm) && Sized(w) && c in vm.spaces && c in w.spaces
  {
    && w == vm.(spaces := vm.spaces[c := w.spaces[c]], tlb := w.tlb)
    && forall j :: 0 <= j < PAGES ==>
         ViewAt(w, c, j) == if start >= USER_START && Touches(start, len, j) && ViewAt(vm, c, j) == Unmapped
                            then Private(Zeros()) else ViewAt(vm, c, j)
  }

  /** A range is reserved as a whole exactly when it lies in the region; one that only starts there is reserved
      up to the end of the region. */
  lemma ReservedBytes(arch: Arch, vm: Vm, c: nat, start: nat, len: nat)
    requires Inv(arch, vm) && c in vm.spaces && 0 < len && start + len <= Words(arch)
    ensures var (w, ok) := ReservedFrom(vm, c, FirstPage(start), LastPage(arch, start, len));
            RangeReserved(vm, w, c, start, len) && (ok <==> InsideRegion(start, len))
  {
    var first, last := FirstPage(start), LastPage(arch, start, len);
    ReserveLoop(vm, c, first, last);
    var w := ReservedFrom(vm, c, first, last).0;
    assert SpaceOk(c, vm.spaces[c]);
    TouchedPages(arch, start, len, 0);
    forall j | 0 <= j < PAGES
      ensures ViewAt(w, c, j) == if start >= USER_START && Touches(start, len, j) && ViewAt(vm, c, j) == Unmapped
                                 then Private(Zeros()) else ViewAt(vm, c, j)
    {
      TouchedPages(arch, start, len, j);
      assert PteOk(vm.spaces[c].ptes[j]);
    }
  }

  /** The pages of a range show the frames from `phys` on, in order; every other page, and every other space,
      is seen as before. */
  ghost predicate RangeMapped(vm: Vm, w: Vm, c: nat, vaddr: nat, phys: nat, len: nat)
    requires Sized(vm) && Sized(w) && c in vm.spaces && c in w.spaces && InsideRegion(vaddr, len)
  {
    && w == vm.(spaces := vm.spaces[c := w.spaces[c]], tlb := {})
    && forall j :: 0 <= j < PAGES ==>
         ViewAt(w, c, j) == if Touches(vaddr, len, j) then WindowOn(FrameBehind(vaddr, phys, j)) else ViewAt(vm, c, j)
  }

  /** The number of the frame that lies as far behind `phys` as page `j` behind `vaddr`. */
  function FrameBehind(vaddr: nat, phys: nat, j: nat): nat {
    var at := phys + (USER_START + j * PAGE_SIZE) - vaddr;
    if at < 0 then 0 else at / PAGE_SIZE
  }

  lemma MappedBytes(arch: Arch, vm: Vm, c: nat, vaddr: nat, phys: nat, len: nat)
    requires Inv(arch, vm) && c in vm.spaces && 0 < len && vaddr + len + PAGE_SIZE <= Words(arch)
    requires vaddr % PAGE_SIZE == 0 && phys % PAGE_SIZE == 0
    ensures var (w, ok) := MappedFrom(vm, c, FirstPage(vaddr), phys / PAGE_SIZE, PageCount(arch, len));
            (ok <==> InsideRegion(vaddr, len)) && (ok ==> RangeMapped(vm, w, c, vaddr, phys, len))
  {
    var first, n, f := FirstPage(vaddr), PageCount(arch, len), phys / PAGE_SIZE;
    CountedPages(arch, vaddr, len);
    TouchedPages(arch, vaddr, len, 0);
    if InsideRegion(vaddr, len) {
      MapLoop(vm, c, first, f, n);
      var w := MappedFrom(vm, c, first, f, n).0;
      forall j | 0 <= j < PAGES
        ensures ViewAt(w, c, j) == if Touches(vaddr, len, j) then WindowOn(FrameBehind(vaddr, phys, j))
                                   else ViewAt(vm, c, j)
      {
        TouchedPages(arch, vaddr, len, j);
        if first <= j < first + n {
          FrameIs(vaddr, phys, j);
        }
      }
    } else {
      MapFails(vm, c, first, f, n);
    }
  }

  lemma FrameIs(vaddr: nat, phys: nat, j: nat)
    requires vaddr % PAGE_SIZE == 0 && phys % PAGE_SIZE == 0 && 0 <= FirstPage(vaddr) <= j
    ensures FrameBehind(vaddr, phys, j) == phys / PAGE_SIZE + (j - FirstPage(vaddr))
  {
    var v, p := vaddr / PAGE_SIZE, phys / PAGE_SIZE;
    assert vaddr == v * PAGE_SIZE && phys == p * PAGE_SIZE;
    assert phys + (USER_START + j * PAGE_SIZE) - vaddr == (p + USER_FIRST_PAGE + j - v) * PAGE_SIZE;
  }

  lemma {:induction false} MapFails(vm: Vm, c: nat, page: int, f: nat, n: nat)
    requires Sized(vm) && c in vm.spaces && n > 0 && !(0 <= page && page + n <= PAGES)
    ensures !MappedFrom(vm, c, page, f, n).1
    decreases n
  {
    if 0 <= page < PAGES {
      MapFails(SetPte(vm, c, page, Window(f)), c, page + 1, f + 1, n - 1);
    }
  }

  class Kernel {
    const arch: Arch
    const pool: FramePool
    const low: array<Page>
    var spaces: map<nat, Space>
    var cr3: nat
    /** The processor's translation cache; only a CR3 load is sure to empty it. */
    var tlb: set<(nat, Pte)>

    ghost function Footprint(): set<object> {
      {this, pool, pool.bitmap, pool.refcount, pool.pages, low}
    }

    ghost function State(): Vm
      reads Footprint()
    {
      Vm(low[..], pool.State(), spaces, cr3, tlb)
    }

    /** The shape of the machine, also in the middle of an operation. */
    ghost predicate Shape()
      reads Footprint()
    {
      pool.Valid() && low != pool.pages && Sized(State())
    }

    ghost predicate Valid()
      reads Footprint()
    {
      Shape() && Inv(arch, State())
    }

    constructor (arch: Arch, pool: FramePool, low: array<Page>)
      requires pool.Valid() && pool.State().used == 0 && low != pool.pages && low.Length == POOL_FIRST
      ensures Valid() && this.pool == pool && this.low == low && this.arch == arch
      ensures State() == Vm(low[..], pool.State(), map[], KERNEL_CR3, {})
    {
      this.arch, this.pool, this.low := arch, pool, low;
      spaces, cr3, tlb := map[], KERNEL_CR3, {};
      new;
      CountTrueBound(pool.State().bits);
      assert forall f :: Names(State().spaces, f) == {};
    }

    method WritePte(c: nat, i: nat, e: Pte)
      requires Shape() && c in spaces && i < PAGES
      modifies this`spaces
      ensures Shape() && State() == SetPte(old(State()), c, i, e)
    {
      spaces := spaces[c := spaces[c].(ptes := spaces[c].ptes[i := e])];
    }

    /** Reload CR3. */
    method FlushTlb()
      requires Shape()
      modifies this`tlb
      ensures Shape() && State() == old(State()).(tlb := {})
    {
      tlb := {};
    }

    method CopyFrame(from: nat, to: nat)
      requires Shape() && PoolFrame(to) && (from < POOL_FIRST || PoolFrame(from))
      modifies pool.pages
      ensures Shape() && State() == WithBytes(old(State()), to, FrameBytes(old(State()), from))
    {
      var bytes := if from < POOL_FIRST then low[from] else pool.pages[from - POOL_FIRST];
      pool.WritePage(to, bytes);
      assert low[..] == old(low[..]);
    }

    // ---- create and destroy -----------------------------------------------------------------

    method CreateTwo() returns (c: Option<nat>)
      requires Shape()
      modifies this, pool, pool.bitmap, pool.refcount, pool.pages
      ensures Shape() && (State(), c) == CreatedTwo(old(State()))
    {
      var pd := pool.Alloc();
      if pd.None? {
        return None;
      }
      var pt := pool.Alloc();
      if pt.None? {
        pool.Free(pd.value);
        return None;
      }
      spaces := spaces[pd.value := Space([pd.value, pt.value, 0, 0, 0], Blanks(PAGES))];
      return pd;
    }

    method CreateFive() returns (c: Option<nat>)
      requires Shape() && arch.X8664?
      modifies this, pool, pool.bitmap, pool.refcount, pool.pages
      ensures Shape() && (State(), c) == CreatedFive(old(State()))
    {
      var pml4 := pool.Alloc();
      if pml4.None? {
        return None;
      }
      var pdpt := pool.Alloc();
      if pdpt.None? {
        pool.Free(pml4.value);
        return None;
      }
      var pd := pool.Alloc();
      if pd.None? {
        pool.Free(pml4.value);
        pool.Free(pdpt.value);
        return None;
      }
      spaces := spaces[pml4.value := Space([pml4.value, pdpt.value, pd.value, 0, 0], Blanks(PAGES))];
      c := BuildPageTables(pml4.value);
    }

    method BuildPageTables(pml4: nat) returns (c: Option<nat>)
      requires Shape() && arch.X8664? && pml4 in spaces
      modifies this, pool, pool.bitmap, pool.refcount, pool.pages
      ensures Shape() && (State(), c) == FiveFrom(old(State()), pml4, 3)
    {
      var k := 3;
      while k < TABLE_SLOTS
        invariant 3 <= k <= TABLE_SLOTS && Shape() && pml4 in spaces
        invariant FiveFrom(State(), pml4, k) == FiveFrom(old(State()), pml4, 3)
      {
        var pt := pool.Alloc();
        if pt.None? {
          DestroyUserSpace(pml4);
          return None;
        }
        spaces := spaces[pml4 := spaces[pml4].(tables := spaces[pml4].tables[k := pt.value])];
        k := k + 1;
      }
      return Some(pml4);
    }

    method CreateUserSpace() returns (c: Option<nat>)
      requires Valid()
      modifies this, pool, pool.bitmap, pool.refcount, pool.pages
      ensures Valid() && (State(), c) == Created(arch, old(State()))
    {
      CreateSimulates(arch, State());
      if arch.I386? {
        c := CreateTwo();
      } else {
        c := CreateFive();
      }
    }

    method DestroyUserSpace(c: nat)
      requires Shape() && (NoUserSpace(c) || c in spaces)
      modifies this, pool, pool.bitmap, pool.refcount
      ensures Shape() && State() == Destroyed(arch, old(State()), c)
    {
      if NoUserSpace(c) {
        return;
      }
      var s := spaces[c];
      if arch.I386? {
        FreePtes(s.ptes, 0, PAGES);
        pool.Free(s.tables[1]);
      } else {
        FreePtes(s.ptes, 0, PAGES / 2);
        pool.Free(s.tables[3]);
        FreePtes(s.ptes, PAGES / 2, PAGES);
        pool.Free(s.tables[4]);
        pool.Free(s.tables[2]);
        pool.Free(s.tables[1]);
      }
      pool.Free(c);
      spaces := spaces - {c};
    }

    method FreePtes(ptes: seq<Pte>, from: nat, end: nat)
      requires Shape() && from <= end <= |ptes|
      modifies pool, pool.bitmap, pool.refcount
      ensures Shape() && State() == old(State()).(pool := FreedPtes(old(pool.State()), ptes, from, end))
    {
      var i := from;
      while i < end
        invariant from <= i <= end && Shape()
        invariant State() == old(State()).(pool := pool.State())
        invariant FreedPtes(pool.State(), ptes, i, end) == FreedPtes(old(pool.State()), ptes, from, end)
      {
        if ptes[i].present {
          pool.Free(ptes[i].frame);
        }
        i := i + 1;
      }
    }

    // ---- entries ------------------------------------------------------------------------------

    method ReserveUserRange(c: nat, start: nat, len: nat) returns (ok: bool)
      requires Valid() && c in spaces
      modifies this`spaces, this`tlb
      ensures Valid()
      ensures (State(), ok) ==
              if len == 0 then (old(State()), true)
              else ReservedFrom(old(State()), c, FirstPage(start), LastPage(arch, start, len))
      ensures 0 < len && start + len <= Words(arch) ==>
        RangeReserved(old(State()), State(), c, start, len) && (ok <==> InsideRegion(start, len))
    {
      if len == 0 {
        return true;
      }
      if start + len <= Words(arch) {
        ReservedBytes(arch, State(), c, start, len);
      }
      ReserveSimulates(arch, State(), c, FirstPage(start), LastPage(arch, start, len));
      ok := ReservePages(c, FirstPage(start), LastPage(arch, start, len));
    }

    method ReservePages(c: nat, first: int, last: int) returns (ok: bool)
      requires Shape() && c in spaces
      modifies this`spaces, this`tlb
      ensures Shape() && (State(), ok) == ReservedFrom(old(State()), c, first, last)
    {
      var page := first;
      while page <= last
        invariant Shape() && c in spaces
        invariant ReservedFrom(State(), c, page, last) == ReservedFrom(old(State()), c, first, last)
      {
        if !(0 <= page < PAGES) {
          return false;
        }
        if !spaces[c].ptes[page].present {
          WritePte(c, page, DEMAND);
        }
        page := page + 1;
      }
      FlushTlb();
      return true;
    }

    /** The machine stays in order if nothing is mapped or the window fits. */
    method MapUserFrames(c: nat, vaddr: nat, phys: nat, len: nat) returns (ok: bool)
      requires Valid() && c in spaces
      modifies this`spaces, this`tlb
      ensures Shape()
      ensures
        || len == 0 || vaddr % PAGE_SIZE != 0 || phys % PAGE_SIZE != 0 || !(0 <= FirstPage(vaddr) < PAGES)
        || WindowFits(old(State()), c, FirstPage(vaddr), phys / PAGE_SIZE, PageCount(arch, len))
        ==> Valid()
      ensures (State(), ok) ==
              if len == 0 then (old(State()), true)
              else if vaddr % PAGE_SIZE != 0 || phys % PAGE_SIZE != 0 then (old(State()), false)
              else MappedFrom(old(State()), c, FirstPage(vaddr), phys / PAGE_SIZE, PageCount(arch, len))
      ensures 0 < len && vaddr + len + PAGE_SIZE <= Words(arch) ==>
        && (ok <==> vaddr % PAGE_SIZE == 0 && phys % PAGE_SIZE == 0 && InsideRegion(vaddr, len))
        && (ok ==> RangeMapped(old(State()), State(), c, vaddr, phys, len))
    {
      if len == 0 {
        return true;
      }
      if vaddr % PAGE_SIZE != 0 || phys % PAGE_SIZE != 0 {
        return false;
      }
      if vaddr + len + PAGE_SIZE <= Words(arch) {
        MappedBytes(arch, State(), c, vaddr, phys, len);
      }
      if WindowFits(State(), c, FirstPage(vaddr), phys / PAGE_SIZE, PageCount(arch, len)) {
        MapSimulates(arch, State(), c, FirstPage(vaddr), phys / PAGE_SIZE, PageCount(arch, len));
      }
      ok := MapPages(c, FirstPage(vaddr), phys / PAGE_SIZE, PageCount(arch, len));
    }

    method MapPages(c: nat, first: int, frame: nat, pages: nat) returns (ok: bool)
      requires Shape() && c in spaces
      modifies this`spaces, this`tlb
      ensures Shape() && (State(), ok) == MappedFrom(old(State()), c, first, frame, pages)
    {
      var page, f, left := first, frame, pages;
      while left > 0
        invariant Shape() && c in spaces && 0 <= left && 0 <= f
        invariant MappedFrom(State(), c, page, f, left) == MappedFrom(old(State()), c, first, frame, pages)
      {
        if !(0 <= page < PAGES) {
          return false;
        }
        WritePte(c, page, Window(f));
        page, f, left := page + 1, f + 1, left - 1;
      }
      FlushTlb();
      return true;
    }

    // ---- page faults --------------------------------------------------------------------------

    method HandleDemandFault(page: int) returns (recovered: bool)
      requires Shape() && (NoUserSpace(cr3) || cr3 in spaces)
      modifies this`spaces, this`tlb, pool, pool.bitmap, pool.refcount, pool.pages
      ensures Shape() && (State(), recovered) == DemandFilled(old(State()), page)
    {
      if NoUserSpace(cr3) || !(0 <= page < PAGES) {
        return false;
      }
      var e := spaces[cr3].ptes[page];
      if e.present || !e.demand {
        return false;
      }
      AllocFresh(pool.State());
      var frame := pool.Alloc();
      if frame.None? {
        return false;
      }
      WritePte(cr3, page, Owned(frame.value));
      assert pool.State().pages[frame.value - POOL_FIRST := Zeros()] == pool.State().pages;
      FlushTlb();
      return true;
    }

    method HandleCowFault(page: int) returns (recovered: bool)
      requires Shape() && (NoUserSpace(cr3)
        || (cr3 in spaces && forall i :: 0 <= i < PAGES ==> PteOk(spaces[cr3].ptes[i])))
      modifies this`spaces, this`tlb, pool, pool.bitmap, pool.refcount, pool.pages
      ensures Shape() && (State(), recovered) == CowSplit(old(State()), page)
    {
      if NoUserSpace(cr3) || !(0 <= page < PAGES) {
        return false;
      }
      var e := spaces[cr3].ptes[page];
      if !e.present || !e.cow {
        return false;
      }
      var n := pool.RefCount(e.frame);
      if n <= 1 {
        WritePte(cr3, page, e.(cow := false, writable := true));
        FlushTlb();
        return true;
      }
      AllocFresh(pool.State());
      var copy := pool.Alloc();
      if copy.None? {
        return false;
      }
      CopyFrame(e.frame, copy.value);
      WritePte(cr3, page, Owned(copy.value));
      pool.Free(e.frame);
      FlushTlb();
      return true;
    }

    // ---- fork ---------------------------------------------------------------------------------

    method CloneUserSpace(src: nat) returns (child: Option<nat>)
      requires Valid() && (NoUserSpace(src) || src in spaces)
      modifies this, pool, pool.bitmap, pool.refcount, pool.pages
      ensures Valid() && (State(), child) == Cloned(arch, old(State()), src)
    {
      if NoUserSpace(src) {
        return None;
      }
      CloneSpec(arch, State(), src);
      child := CreateUserSpace();
      if child.None? {
        return;
      }
      var dst := child.value;
      CreatedSpec(arch, old(State()));
      var done := CloneEntries(src, dst);
      if !done {
        return None;
      }
      FlushTlb();
    }

    method CloneEntries(src: nat, dst: nat) returns (done: bool)
      requires Shape() && Core(State()) && src in spaces && dst in spaces && src != dst
      requires !NoUserSpace(dst) && spaces[dst].ptes == Blanks(PAGES)
      modifies this, pool, pool.bitmap, pool.refcount, pool.pages
      ensures Shape() && (State(), done) == ClonedFrom(arch, old(State()), src, dst, 0)
    {
      hide Exact, Exclusive, PoolValid;
      var i := 0;
      while i < PAGES
        invariant 0 <= i <= PAGES && Shape() && Core(State()) && src in spaces && dst in spaces
        invariant forall j :: i <= j < PAGES ==> spaces[dst].ptes[j] == EMPTY
        invariant ClonedFrom(arch, State(), src, dst, i) == ClonedFrom(arch, old(State()), src, dst, 0)
      {
        var cloned := CloneOne(src, dst, i);
        if !cloned {
          DestroyUserSpace(dst);
          return false;
        }
        i := i + 1;
      }
      return true;
    }

    method CloneOne(src: nat, dst: nat, i: nat) returns (done: bool)
      requires Shape() && Core(State()) && src in spaces && dst in spaces && src != dst && i < PAGES
      requires spaces[dst].ptes[i] == EMPTY
      modifies this`spaces, pool, pool.bitmap, pool.refcount, pool.pages
      ensures Shape() && Core(State())
      ensures done ==> CloneEntry(old(State()), src, dst, i) == Some(State())
      ensures !done ==> CloneEntry(old(State()), src, dst, i) == None && State() == old(State())
      ensures done ==> src in spaces && dst in spaces && forall j :: 0 <= j < PAGES && j != i ==>
        spaces[dst].ptes[j] == old(spaces)[dst].ptes[j]
    {
      hide Exact, Exclusive, PoolValid;
      if CloneEntry(State(), src, dst, i).Some? {
        CloneEntryStep(State(), src, dst, i);
      }
      var e := spaces[src].ptes[i];
      assert PteOk(e);
      if e.shared || (!e.present && !e.demand) {
        return true;
      }
      if !e.present {
        WritePte(dst, i, e);
        return true;
      }
      var shared := pool.Share(e.frame);
      if shared {
        WritePte(src, i, Protected(e));
        WritePte(dst, i, Protected(e));
        return true;
      }
      AllocFresh(pool.State());
      var copy := pool.Alloc();
      if copy.None? {
        return false;
      }
      CopyFrame(e.frame, copy.value);
      WritePte(dst, i, Owned(copy.value));
      return true;
    }

    /** The address-space part of `fork`: if no task can be had the child's space must not leak. */
    method Fork(src: nat, slotFree: bool) returns (child: Option<nat>)
      requires Valid() && (NoUserSpace(src) || src in spaces)
      modifies this, pool, pool.bitmap, pool.refcount, pool.pages
      ensures Valid()
      ensures (State(), if child.Some? then NewSpace(child.value) else Failed)
        == Step(arch, old(State()), Op.Fork(src, slotFree))
    {
      StepSimulates(arch, State(), Op.Fork(src, slotFree));
      child := CloneUserSpace(src);
      if child.Some? && !slotFree {
        DestroyUserSpace(child.value);
        child := None;
      }
    }

    method SwitchTo(c: nat)
      requires Valid() && (NoUserSpace(c) || c in spaces)
      modifies this
      ensures Valid() && State() == Switched(arch, old(State()), c)
    {
      StepSimulates(arch, State(), Switch(c));
      if arch.I386? {
        if c != 0 && cr3 != c {
          cr3 := c;
          FlushTlb();
        }
      } else {
        cr3 := if c == 0 then KERNEL_CR3 else c;
        FlushTlb();
      }
    }

    // ---- the processor ------------------------------------------------------------------------

    method Translate(page: nat, write: bool, cached: Option<Pte>) returns (e: Option<Pte>)
      requires Shape() && cr3 in spaces && page < PAGES
      modifies this`tlb
      ensures Shape() && e == Translated(old(State()), page, write, cached)
      ensures State() == if e.Some? then old(State()).(tlb := old(tlb) + {(page, e.value)}) else old(State())
    {
      var x := if cached.Some? && (page, cached.value) in tlb then cached.value else spaces[cr3].ptes[page];
      if x.present && (!write || x.writable) {
        tlb := tlb + {(page, x)};
        return Some(x);
      }
      return None;
    }

    /** `ex14`. */
    method PageFault(page: nat, present: bool, write: bool) returns (recovered: bool)
      requires Shape() && cr3 in spaces && page < PAGES && forall i :: 0 <= i < PAGES ==> PteOk(spaces[cr3].ptes[i])
      modifies this`spaces, this`tlb, pool, pool.bitmap, pool.refcount, pool.pages
      ensures Shape()
      ensures (State(), recovered) ==
              if !present then DemandFilled(old(State()), page)
              else if write then CowSplit(old(State()), page)
              else (old(State()), false)
    {
      if !present {
        recovered := HandleDemandFault(page);
      } else if write {
        recovered := HandleCowFault(page);
      } else {
        recovered := false;
      }
    }

    /** An access with its faults: the instruction is repeated as long as a handler recovers, which
        happens at most once. */
    method Access(page: nat, write: bool, first: Option<Pte>, retry: Option<Pte>) returns (e: Option<Pte>, faults: nat)
      requires Valid() && cr3 in spaces && page < PAGES
      modifies this, pool, pool.bitmap, pool.refcount, pool.pages
      ensures Valid() && faults <= 1
      ensures (State(), e, if e.Some? then Done else Killed) == Accessed(old(State()), page, write, first, retry)
      ensures e.None? ==> faults == 1
    {
      hide Exact, Exclusive, PoolValid;
      ghost var start := State();
      AccessSpec(arch, start, page, write, first, retry);
      assert SpaceOk(cr3, spaces[cr3]);
      var cached := first;
      e := Translate(page, write, cached);
      faults := 0;
      while e.None?
        invariant faults == 0 && e.None? ==>
          State() == start && cached == first && Translated(start, page, write, first).None?
        invariant e.Some? ==> Valid() && (State(), e, Done) == Accessed(start, page, write, first, retry)
        invariant faults <= 1 && (faults == 1 ==> e.Some?) && Shape()
        decreases 1 - faults
      {
        var used := if cached.Some? && (page, cached.value) in tlb then cached.value else spaces[cr3].ptes[page];
        var recovered := PageFault(page, used.present, write);
        faults := faults + 1;
        if !recovered {
          return None, faults;
        }
        cached := retry;
        e := Translate(page, write, cached);
      }
    }

    method Load(page: nat, offset: nat, first: Option<Pte>, retry: Option<Pte>) returns (byte: Option<Byte>)
      requires Valid() && cr3 in spaces && page < PAGES && offset < FRAME_SIZE
      modifies this, pool, pool.bitmap, pool.refcount, pool.pages
      ensures Valid()
      ensures (State(), if byte.Some? then Loaded(byte.value) else Killed)
        == Step(arch, old(State()), Read(page, offset, first, retry))
    {
      hide Exact, Exclusive, PoolValid;
      AccessSpec(arch, State(), page, false, first, retry);
      var e, _ := Access(page, false, first, retry);
      if e.None? {
        return None;
      }
      assert PteOk(spaces[cr3].ptes[page]);
      var f := e.value.frame;
      return Some(if f < POOL_FIRST then low[f][offset] else pool.pages[f - POOL_FIRST][offset]);
    }

    method Store(page: nat, offset: nat, byte: Byte, first: Option<Pte>, retry: Option<Pte>) returns (ok: bool)
      requires Valid() && cr3 in spaces && page < PAGES && offset < FRAME_SIZE
      modifies this, pool, pool.bitmap, pool.refcount, pool.pages, low
      ensures Valid()
      ensures (State(), if ok then Done else Killed)
        == Step(arch, old(State()), Write(page, offset, byte, first, retry))
    {
      hide Inv, Core;
      AccessSpec(arch, State(), page, true, first, retry);
      StepSimulates(arch, State(), Write(page, offset, byte, first, retry));
      var e, _ := Access(page, true, first, retry);
      if e.None? {
        return false;
      }
      EntryOk(arch, State(), cr3, page);
      var f := e.value.frame;
      if f < POOL_FIRST {
        low[f] := low[f][offset := byte];
      } else {
        pool.WritePage(f, pool.pages[f - POOL_FIRST][offset := byte]);
      }
      return true;
    }
  }
}

/** User address spaces over the frame pool: values and what one kernel operation does to them
    (kernel/src/level0a/core/mmu_i386.rs and mmu_x86_64.rs).

    On both architectures the user region is 1024 pages of 4 KiB; what differs is how many frames
    the tables above the page-table entries take (two on i386, five on x86_64). */
module Mmu {
  import opened Basics
  import opened Frames

  const PAGES: nat := 1024
  const TABLE_SLOTS: nat := 5
  const SLOTS: nat := PAGES + TABLE_SLOTS
  /** The kernel's own directory; it lies in the kernel image, below the pool. */
  const KERNEL_CR3: nat := 256

  datatype Arch = I386 | X8664

  /** One page-table entry: the bits the kernel uses, and the frame it names. */
  datatype Pte = Pte(present: bool, writable: bool, cow: bool, shared: bool, demand: bool, frame: nat)

  const EMPTY: Pte := Pte(false, false, false, false, false, 0)
  const DEMAND: Pte := Pte(false, false, false, false, true, 0)

  function Owned(f: nat): Pte {
    Pte(true, true, false, false, false, f)
  }

  function Window(f: nat): Pte {
    Pte(true, true, false, true, false, f)
  }

  function Protected(e: Pte): Pte {
    e.(writable := false, cow := true)
  }

  /** The frames of the tables (0: not built) and the entries of the user region. */
  datatype Space = Space(tables: seq<nat>, ptes: seq<Pte>)

  /** Physical memory below the pool, the pool, the live spaces by their CR3, the CR3 now loaded, and
      every translation used since it was loaded: the processor may still hold any of them. */
  datatype Vm = Vm(low: seq<Page>, pool: Pool, spaces: map<nat, Space>, cr3: nat, tlb: set<(nat, Pte)>)

  predicate NoUserSpace(c: nat) {
    c == 0 || c == KERNEL_CR3
  }

  ghost predicate Sized(vm: Vm) {
    && |vm.low| == POOL_FIRST
    && Shaped(vm.pool)
    && (forall c :: c in vm.spaces ==> |vm.spaces[c].ptes| == PAGES && |vm.spaces[c].tables| == TABLE_SLOTS)
  }

  function Blanks(n: nat): (s: seq<Pte>)
    ensures |s| == n && forall i :: 0 <= i < n ==> s[i] == EMPTY
  {
    seq(n, _ => EMPTY)
  }

  ghost function BlankSpace(c: nat): Space {
    Space([c, 0, 0, 0, 0], Blanks(PAGES))
  }

  ghost function SetPte(vm: Vm, c: nat, i: nat, e: Pte): (r: Vm)
    requires Sized(vm) && c in vm.spaces && i < PAGES
    ensures Sized(r)
  {
    vm.(spaces := vm.spaces[c := vm.spaces[c].(ptes := vm.spaces[c].ptes[i := e])])
  }

  ghost function SetTable(vm: Vm, c: nat, k: nat, f: nat): (r: Vm)
    requires Sized(vm) && c in vm.spaces && k < TABLE_SLOTS
    ensures Sized(r)
  {
    vm.(spaces := vm.spaces[c := vm.spaces[c].(tables := vm.spaces[c].tables[k := f])])
  }

  ghost function FrameBytes(vm: Vm, f: nat): Page
    requires Sized(vm)
  {
    if f < POOL_FIRST then vm.low[f] else if PoolFrame(f) then vm.pool.pages[f - POOL_FIRST] else Zeros()
  }

  ghost function WithBytes(vm: Vm, f: nat, bytes: Page): (r: Vm)
    requires Sized(vm)
    ensures Sized(r)
  {
    if f < POOL_FIRST then vm.(low := vm.low[f := bytes])
    else if PoolFrame(f) then vm.(pool := vm.pool.(pages := vm.pool.pages[f - POOL_FIRST := bytes]))
    else vm
  }

  /** A fresh frame with the given contents behind entry `i`. */
  ghost function Filled(vm: Vm, c: nat, i: nat, bytes: Page): (w: Vm)
    requires Sized(vm) && c in vm.spaces && i < PAGES && Allocated(vm.pool).1.Some?
    ensures Sized(w)
  {
    var (p, f) := Allocated(vm.pool);
    SetPte(WithBytes(vm.(pool := p), f.value, bytes), c, i, Owned(f.value))
  }

  // ---- building and tearing down ------------------------------------------------------------

  /** Give back the frames the entries from `i` on name. */
  ghost function FreedPtes(p: Pool, ptes: seq<Pte>, i: nat, end: nat): (q: Pool)
    requires Shaped(p) && i <= end <= |ptes|
    ensures Shaped(q)
    decreases end - i
  {
    if i == end then p
    else FreedPtes(if ptes[i].present then Freed(p, ptes[i].frame) else p, ptes, i + 1, end)
  }

  /** `destroy_user_space`: pages and page tables, then the tables above them, the top level last. A
      space is gone once its top-level frame is; its entries are not rewritten. */
  ghost function Destroyed(arch: Arch, vm: Vm, c: nat): (r: Vm)
    requires Sized(vm) && (NoUserSpace(c) || c in vm.spaces)
    ensures Sized(r)
  {
    if NoUserSpace(c) then vm
    else
      var s := vm.spaces[c];
      var p := match arch
        case I386 => Freed(FreedPtes(vm.pool, s.ptes, 0, PAGES), s.tables[1])
        case X8664 =>
          var low := Freed(FreedPtes(vm.pool, s.ptes, 0, PAGES / 2), s.tables[3]);
          var high := Freed(FreedPtes(low, s.ptes, PAGES / 2, PAGES), s.tables[4]);
          Freed(Freed(high, s.tables[2]), s.tables[1]);
      vm.(pool := Freed(p, c), spaces := vm.spaces - {c})
  }

  ghost function Created(arch: Arch, vm: Vm): (r: (Vm, Option<nat>))
    requires Sized(vm)
    ensures Sized(r.0)
    ensures r.1.Some? ==> r.0.spaces.Keys == vm.spaces.Keys + {r.1.value}
  {
    if arch.I386? then CreatedTwo(vm) else CreatedFive(vm)
  }

  /** `create_user_space` on i386: a directory and one page table. */
  ghost function CreatedTwo(vm: Vm): (r: (Vm, Option<nat>))
    requires Sized(vm)
    ensures Sized(r.0)
    ensures r.1.Some? ==> r.0.spaces.Keys == vm.spaces.Keys + {r.1.value}
  {
    var (p1, pd) := Allocated(vm.pool);
    if pd.None? then (vm, None)
    else
      var (p2, pt) := Allocated(p1);
      if pt.None? then (vm.(pool := Freed(p1, pd.value)), None)
      else
        var s := Space([pd.value, pt.value, 0, 0, 0], Blanks(PAGES));
        (vm.(pool := p2, spaces := vm.spaces[pd.value := s]), Some(pd.value))
  }

  /** `create_user_space` on x86_64: three upper tables freed one by one if they cannot all be had,
      then two page tables hooked into the half-built space, which is destroyed if one is missing. */
  ghost function CreatedFive(vm: Vm): (r: (Vm, Option<nat>))
    requires Sized(vm)
    ensures Sized(r.0)
    ensures r.1.Some? ==> r.0.spaces.Keys == vm.spaces.Keys + {r.1.value}
  {
    var (p1, pml4) := Allocated(vm.pool);
    if pml4.None? then (vm, None)
    else
      var (p2, pdpt) := Allocated(p1);
      if pdpt.None? then (vm.(pool := Freed(p1, pml4.value)), None)
      else
        var (p3, pd) := Allocated(p2);
        if pd.None? then (vm.(pool := Freed(Freed(p2, pml4.value), pdpt.value)), None)
        else
          var s := Space([pml4.value, pdpt.value, pd.value, 0, 0], Blanks(PAGES));
          var v3 := vm.(pool := p3, spaces := vm.spaces[pml4.value := s]);
          FiveFrom(v3, pml4.value, 3)
  }

  /** The two page tables of a half-built x86_64 space, from the `k`-th table on. */
  ghost function FiveFrom(vm: Vm, c: nat, k: nat): (r: (Vm, Option<nat>))
    requires Sized(vm) && c in vm.spaces && 3 <= k <= TABLE_SLOTS
    ensures Sized(r.0)
    ensures r.1.Some? ==> r.0.spaces.Keys == vm.spaces.Keys && r.1.value == c
    decreases TABLE_SLOTS - k
  {
    if k == TABLE_SLOTS then (vm, Some(c))
    else
      var (p, pt) := Allocated(vm.pool);
      if pt.None? then (Destroyed(X8664, vm, c), None)
      else FiveFrom(SetTable(vm.(pool := p), c, k, pt.value), c, k + 1)
  }

  // ---- entries ------------------------------------------------------------------------------

  /** The loop of `reserve_user_range` over the pages `page..=last` of the region. */
  ghost function ReservedFrom(vm: Vm, c: nat, page: int, last: int): (r: (Vm, bool))
    requires Sized(vm) && c in vm.spaces
    ensures Sized(r.0) && r.0.spaces.Keys == vm.spaces.Keys
    decreases last - page
  {
    if page > last then (vm.(tlb := {}), true)
    else if !(0 <= page < PAGES) then (vm, false)
    else if vm.spaces[c].ptes[page].present then ReservedFrom(vm, c, page + 1, last)
    else ReservedFrom(SetPte(vm, c, page, DEMAND), c, page + 1, last)
  }

  /** The loop of `map_user_frames`: `n` consecutive kernel frames from `f` on at pages from `page` on. */
  ghost function MappedFrom(vm: Vm, c: nat, page: int, f: nat, n: nat): (r: (Vm, bool))
    requires Sized(vm) && c in vm.spaces
    ensures Sized(r.0) && r.0.spaces.Keys == vm.spaces.Keys
    decreases n
  {
    if n == 0 then (vm.(tlb := {}), true)
    else if !(0 <= page < PAGES) then (vm, false)
    else MappedFrom(SetPte(vm, c, page, Window(f)), c, page + 1, f + 1, n - 1)
  }

  /** `handle_demand_fault` for the loaded space. */
  ghost function DemandFilled(vm: Vm, page: int): (r: (Vm, bool))
    requires Sized(vm) && (NoUserSpace(vm.cr3) || vm.cr3 in vm.spaces)
    ensures Sized(r.0)
    ensures r.0.cr3 == vm.cr3 && r.0.spaces.Keys == vm.spaces.Keys
  {
    if NoUserSpace(vm.cr3) || !(0 <= page < PAGES) then (vm, false)
    else
      var e := vm.spaces[vm.cr3].ptes[page];
      if e.present || !e.demand then (vm, false)
      else
        var (p, f) := Allocated(vm.pool);
        if f.None? then (vm, false)
        else (Filled(vm, vm.cr3, page, Zeros()).(tlb := {}), true)
  }

  /** `handle_cow_fault` for the loaded space: the last owner keeps the frame, any other gets a copy. */
  ghost function CowSplit(vm: Vm, page: int): (r: (Vm, bool))
    requires Sized(vm) && (NoUserSpace(vm.cr3) || vm.cr3 in vm.spaces)
    ensures Sized(r.0)
    ensures r.0.cr3 == vm.cr3 && r.0.spaces.Keys == vm.spaces.Keys
  {
    if NoUserSpace(vm.cr3) || !(0 <= page < PAGES) then (vm, false)
    else
      var e := vm.spaces[vm.cr3].ptes[page];
      if !e.present || !e.cow then (vm, false)
      else if RefsOf(vm.pool, e.frame) <= 1 then
        (SetPte(vm, vm.cr3, page, e.(cow := false, writable := true)).(tlb := {}), true)
      else
        var (p, f) := Allocated(vm.pool);
        if f.None? then (vm, false)
        else
          var mapped := Filled(vm, vm.cr3, page, FrameBytes(vm.(pool := p), e.frame));
          (mapped.(pool := Freed(mapped.pool, e.frame), tlb := {}), true)
  }

  // ---- fork ---------------------------------------------------------------------------------

  /** One entry of the parent: windows are skipped, a reservation is passed on, a page is shared
      read-only, and a page that cannot be shared is copied. `None`: no frame left for the copy. */
  ghost function CloneEntry(vm: Vm, src: nat, dst: nat, i: nat): (r: Option<Vm>)
    requires Sized(vm) && src in vm.spaces && dst in vm.spaces && i < PAGES
    ensures r.Some? ==> Sized(r.value) && r.value.spaces.Keys == vm.spaces.Keys
  {
    var e := vm.spaces[src].ptes[i];
    if e.shared || (!e.present && !e.demand) then Some(vm)
    else if !e.present then Some(SetPte(vm, dst, i, e))
    else if Shared(vm.pool, e.frame).1 then
      Some(SetPte(SetPte(vm.(pool := Shared(vm.pool, e.frame).0), src, i, Protected(e)), dst, i, Protected(e)))
    else if Allocated(vm.pool).1.None? then None
    else Some(Filled(vm, dst, i, FrameBytes(vm.(pool := Allocated(vm.pool).0), e.frame)))
  }

  /** The loop of `clone_user_space` from entry `i` on; on failure the half-built child is destroyed. */
  ghost function ClonedFrom(arch: Arch, vm: Vm, src: nat, dst: nat, i: nat): (r: (Vm, bool))
    requires Sized(vm) && src in vm.spaces && dst in vm.spaces && i <= PAGES
    ensures Sized(r.0)
    ensures r.1 ==> r.0.spaces.Keys == vm.spaces.Keys
    decreases PAGES - i
  {
    if i == PAGES then (vm, true)
    else
      match CloneEntry(vm, src, dst, i)
      case None => (Destroyed(arch, vm, dst), false)
      case Some(w) => ClonedFrom(arch, w, src, dst, i + 1)
  }

  /** `clone_user_space`: only the success path reloads CR3. */
  ghost function Cloned(arch: Arch, vm: Vm, src: nat): (r: (Vm, Option<nat>))
    requires Sized(vm) && (NoUserSpace(src) || src in vm.spaces)
    ensures Sized(r.0)
    ensures r.1.Some? ==> r.1.value in r.0.spaces
  {
    if NoUserSpace(src) then (vm, None)
    else
      var (v1, dst) := Created(arch, vm);
      if dst.None? then (v1, None)
      else
        var (v2, ok) := ClonedFrom(arch, v1, src, dst.value, 0);
        if ok then (v2.(tlb := {}), dst) else (v2, None)
  }

  /** `switch_to`: i386 leaves CR3 alone when it would not change. */
  ghost function Switched(arch: Arch, vm: Vm, c: nat): Vm {
    match arch
    case I386 => if c != 0 && vm.cr3 != c then vm.(cr3 := c, tlb := {}) else vm
    case X8664 => vm.(cr3 := if c == 0 then KERNEL_CR3 else c, tlb := {})
  }

  // ---- one access -----------------------------------------------------------------------------

  /** What the processor does with an access: it may use a remembered translation, or walk the table
      and remember what it finds. `None` is a page fault. Only present entries are ever remembered. */
  ghost function Translated(vm: Vm, page: nat, write: bool, cached: Option<Pte>): Option<Pte>
    requires Sized(vm) && vm.cr3 in vm.spaces && page < PAGES
  {
    var e := if cached.Some? && (page, cached.value) in vm.tlb then cached.value else vm.spaces[vm.cr3].ptes[page];
    if e.present && (!write || e.writable) then Some(e) else None
  }

  /** `ex14`: an absent page goes to the demand handler, a refused write to the copy-on-write
      handler, anything else is not recovered. The error code tells which translation faulted. */
  ghost function FaultHandled(vm: Vm, page: nat, write: bool, cached: Option<Pte>): (r: (Vm, bool))
    requires Sized(vm) && vm.cr3 in vm.spaces && page < PAGES
    ensures Sized(r.0)
    ensures r.0.cr3 == vm.cr3 && r.0.spaces.Keys == vm.spaces.Keys
  {
    var e := if cached.Some? && (page, cached.value) in vm.tlb then cached.value else vm.spaces[vm.cr3].ptes[page];
    if !e.present then DemandFilled(vm, page)
    else if write then CowSplit(vm, page)
    else (vm, false)
  }
}

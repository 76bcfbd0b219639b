/** What every address-space operation keeps: the reference counters are exact, and nobody can write
    to a frame somebody else can see. */
module MmuInvariant {
  import opened Basics
  import opened Frames
  import opened Mmu

  /** The frame the `k`-th slot of a space refers to: first its page entries, then its tables. */
  ghost function SlotFrame(s: Space, k: nat): nat {
    if k < PAGES then (if k < |s.ptes| && s.ptes[k].present then s.ptes[k].frame else 0)
    else if k - PAGES < |s.tables| then s.tables[k - PAGES] else 0
  }

  /** Every slot of every live space that refers to frame `f`. */
  ghost function Names(spaces: map<nat, Space>, f: nat): set<(nat, nat)> {
    set c, k | c in spaces && 0 <= k < SLOTS && SlotFrame(spaces[c], k) == f :: (c, k)
  }

  ghost predicate PteOk(e: Pte) {
    if e.present then
      && !e.demand
      && (if e.shared then e.frame < POOL_FIRST && e.writable && !e.cow
          else PoolFrame(e.frame) && e.cow == !e.writable)
    else !e.writable && !e.cow && !e.shared
  }

  ghost predicate SpaceOk(c: nat, s: Space) {
    && |s.ptes| == PAGES && |s.tables| == TABLE_SLOTS && s.tables[0] == c && PoolFrame(c)
    && (forall i :: 0 <= i < PAGES ==> PteOk(s.ptes[i]))
    && (forall k :: 0 <= k < TABLE_SLOTS ==> s.tables[k] == 0 || PoolFrame(s.tables[k]))
  }

  ghost predicate Exact(vm: Vm)
    requires Sized(vm)
  {
    forall f {:trigger Names(vm.spaces, f)} :: PoolFrame(f) ==> RefsOf(vm.pool, f) == |Names(vm.spaces, f)|
  }

  /** Slots nobody may share: a page its owner may write to, and a table. */
  ghost predicate Unshared(s: Space, k: nat) {
    if k < PAGES then k < |s.ptes| && s.ptes[k].present && !s.ptes[k].shared && s.ptes[k].writable
    else k - PAGES < |s.tables| && s.tables[k - PAGES] != 0
  }

  ghost predicate Exclusive(vm: Vm)
    requires Sized(vm)
  {
    forall c, k {:trigger Unshared(vm.spaces[c], k)} :: c in vm.spaces && 0 <= k < SLOTS && Unshared(vm.spaces[c], k)
                   ==> RefsOf(vm.pool, SlotFrame(vm.spaces[c], k)) == 1
  }

  /** The invariant of the tables and the pool, also in the middle of an operation. */
  ghost predicate Core(vm: Vm): (ok: bool)
    ensures ok ==> Sized(vm) && PoolValid(vm.pool) && (NoUserSpace(vm.cr3) || vm.cr3 in vm.spaces)
  {
    && Sized(vm) && PoolValid(vm.pool)
    && (forall c :: c in vm.spaces ==> SpaceOk(c, vm.spaces[c]))
    && Exact(vm) && Exclusive(vm)
    && (NoUserSpace(vm.cr3) || vm.cr3 in vm.spaces)
  }

  /** A translation the processor may still hold agrees with the table, except that it may still
      allow writing to a page that has become copy-on-write and has a single owner. */
  ghost predicate Coherent(vm: Vm, page: nat, e: Pte)
    requires Sized(vm)
  {
    && page < PAGES && vm.cr3 in vm.spaces && e.present
    && var p := vm.spaces[vm.cr3].ptes[page];
       && p.present && p.frame == e.frame && p.shared == e.shared
       && (e.writable ==> p.writable || (p.cow && RefsOf(vm.pool, p.frame) == 1))
       && (!e.writable ==> !p.writable)
  }

  ghost predicate TlbOk(vm: Vm)
    requires Sized(vm)
  {
    forall page, e :: (page, e) in vm.tlb ==> Coherent(vm, page, e)
  }

  // ---- what the processes see ---------------------------------------------------------------

  /** A page as its process sees it. A reserved page already reads as zeros. */
  datatype View = Unmapped | Private(bytes: Page) | WindowOn(frame: nat)

  ghost function PageView(pool: Pool, e: Pte): View {
    if !e.present then (if e.demand then Private(Zeros()) else Unmapped)
    else if e.shared then WindowOn(e.frame)
    else if PoolFrame(e.frame) && |pool.pages| == POOL_FRAMES then Private(pool.pages[e.frame - POOL_FIRST])
    else Unmapped
  }

  ghost function ViewAt(vm: Vm, c: nat, i: nat): View
    requires Sized(vm) && c in vm.spaces && i < PAGES
  {
    PageView(vm.pool, vm.spaces[c].ptes[i])
  }

  ghost predicate SameViewsBut(vm: Vm, w: Vm, c: nat, i: nat)
    requires Sized(vm) && Sized(w) && vm.spaces.Keys == w.spaces.Keys
  {
    forall d, j {:trigger ViewAt(w, d, j)} ::
      d in vm.spaces && 0 <= j < PAGES && (d != c || j != i) ==> ViewAt(w, d, j) == ViewAt(vm, d, j)
  }

  // ---- one slot changes ---------------------------------------------------------------------

  lemma NamesSet(spaces: map<nat, Space>, c: nat, s: Space, k: nat, f: nat)
    requires c in spaces && k < SLOTS
    requires forall j :: 0 <= j < SLOTS && j != k ==> SlotFrame(s, j) == SlotFrame(spaces[c], j)
    ensures |Names(spaces[c := s], f)|
         == |Names(spaces, f)| - (if SlotFrame(spaces[c], k) == f then 1 else 0) +
           (if SlotFrame(s, k) == f then 1 else 0)
  {
    SetChange(Names(spaces, f), Names(spaces[c := s], f), (c, k));
  }

  lemma PteSlots(s: Space, i: nat, e: Pte)
    requires |s.ptes| == PAGES && i < PAGES
    ensures var t := s.(ptes := s.ptes[i := e]);
            && SlotFrame(t, i) == (if e.present then e.frame else 0)
            && forall j :: 0 <= j < SLOTS && j != i ==> SlotFrame(t, j) == SlotFrame(s, j)
  {
  }

  lemma TableSlots(s: Space, k: nat, f: nat)
    requires |s.tables| == TABLE_SLOTS && k < TABLE_SLOTS
    ensures var t := s.(tables := s.tables[k := f]);
            && SlotFrame(t, PAGES + k) == f
            && forall j :: 0 <= j < SLOTS && j != PAGES + k ==> SlotFrame(t, j) == SlotFrame(s, j)
  {
  }

  /** A frame with one reference has one name. */
  lemma OneName(vm: Vm, c: nat, k: nat, d: nat, j: nat)
    requires Core(vm) && c in vm.spaces && k < SLOTS && d in vm.spaces && j < SLOTS
    requires PoolFrame(SlotFrame(vm.spaces[c], k)) && RefsOf(vm.pool, SlotFrame(vm.spaces[c], k)) == 1
    requires SlotFrame(vm.spaces[d], j) == SlotFrame(vm.spaces[c], k)
    ensures (c, k) == (d, j)
  {
    var names := Names(vm.spaces, SlotFrame(vm.spaces[c], k));
    assert (c, k) in names && (d, j) in names;
    assert |names - {(c, k)}| == 0;
    assert (d, j) !in names - {(c, k)};
  }

  /** The only name of an unshared slot's frame is that slot. */
  lemma OnlyName(vm: Vm, c: nat, k: nat, d: nat, j: nat)
    requires Core(vm) && c in vm.spaces && k < SLOTS && d in vm.spaces && j < SLOTS
    requires Unshared(vm.spaces[c], k) && PoolFrame(SlotFrame(vm.spaces[c], k))
    requires SlotFrame(vm.spaces[d], j) == SlotFrame(vm.spaces[c], k)
    ensures (c, k) == (d, j)
  {
    OneName(vm, c, k, d, j);
  }

  /** A frame without references has no name. */
  lemma FreeMeansUnnamed(vm: Vm, f: nat, c: nat, k: nat)
    requires Core(vm) && PoolFrame(f) && RefsOf(vm.pool, f) == 0 && c in vm.spaces && k < SLOTS
    ensures SlotFrame(vm.spaces[c], k) != f
  {
    assert Names(vm.spaces, f) == {};
    assert (c, k) !in Names(vm.spaces, f);
  }
}

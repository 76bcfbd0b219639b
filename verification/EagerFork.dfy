/** The lazy machine (copy-on-write fork, demand paging, a processor that remembers translations) is
    indistinguishable from an eager one, whose `fork` copies every page and whose reservations are
    pages of zeros: over every run each access answers what the eager machine answers. */
module EagerFork {
  import opened Basics
  import opened Frames
  import opened Mmu
  import opened MmuInvariant
  import opened MmuSteps
  import opened MmuOperations

  ghost predicate Inv(arch: Arch, vm: Vm): (ok: bool)
    ensures ok ==> Sized(vm)
  {
    Core(vm) && TlbOk(vm) && forall c :: c in vm.spaces ==> Built(arch, vm.spaces[c])
  }

  // ---- runs of the lazy machine ---------------------------------------------------------------

  /** One kernel or processor step. The two optional entries of an access say which remembered
      translation, if any, the processor tries first, and after a fault it retries. */
  datatype Op =
    | Create
    | Reserve(c: nat, from: int, last: int)
    | MapWindow(c: nat, from: int, frame: nat, n: nat)
    | Fork(c: nat, slotFree: bool)
    | Destroy(c: nat)
    | Switch(c: nat)
    | Read(page: nat, offset: nat, first: Option<Pte>, retry: Option<Pte>)
    | Write(page: nat, offset: nat, byte: Byte, first: Option<Pte>, retry: Option<Pte>)

  datatype Answer = Done | Failed | NewSpace(c: nat) | Loaded(byte: Byte) | Killed | FaultsAgain

  /** The window manager maps frames below the pool, inside the region, over absent or window pages. */
  ghost predicate WindowFits(vm: Vm, c: nat, page: int, f: nat, n: nat)
    requires Sized(vm) && c in vm.spaces
  {
    && 0 <= page && page + n <= PAGES && f + n <= POOL_FIRST
    && forall j :: page <= j < page + n ==> !vm.spaces[c].ptes[j].present || vm.spaces[c].ptes[j].shared
  }

  /** What the kernel makes sure of before each call. */
  ghost predicate Enabled(vm: Vm, op: Op)
    requires Sized(vm)
  {
    match op
    case Create => true
    case Reserve(c, _, _) => c in vm.spaces
    case MapWindow(c, page, f, n) => c in vm.spaces && WindowFits(vm, c, page, f, n)
    case Fork(c, _) => NoUserSpace(c) || c in vm.spaces
    case Destroy(c) => NoUserSpace(c) || (c in vm.spaces && c != vm.cr3)
    case Switch(c) => NoUserSpace(c) || c in vm.spaces
    case Read(page, offset, _, _) => vm.cr3 in vm.spaces && page < PAGES && offset < FRAME_SIZE
    case Write(page, offset, _, _, _) => vm.cr3 in vm.spaces && page < PAGES && offset < FRAME_SIZE
  }

  /** One access: translate, on a fault run the handler and, if it recovered, retry. */
  ghost function Accessed(vm: Vm, page: nat, write: bool, first: Option<Pte>,
      retry: Option<Pte>): (r: (Vm, Option<Pte>, Answer))
    requires Sized(vm) && vm.cr3 in vm.spaces && page < PAGES
    ensures Sized(r.0)
  {
    match Translated(vm, page, write, first)
    case Some(e) => (vm.(tlb := vm.tlb + {(page, e)}), Some(e), Done)
    case None =>
      var (w, recovered) := FaultHandled(vm, page, write, first);
      if !recovered then (w, None, Killed)
      else
        match Translated(w, page, write, retry)
        case Some(e) => (w.(tlb := w.tlb + {(page, e)}), Some(e), Done)
        case None => (w, None, FaultsAgain)
  }

  ghost function Step(arch: Arch, vm: Vm, op: Op): (r: (Vm, Answer))
    requires Sized(vm) && Enabled(vm, op)
    ensures Sized(r.0)
  {
    match op
    case Create =>
      var (w, c) := Created(arch, vm);
      (w, if c.Some? then NewSpace(c.value) else Failed)
    case Reserve(c, page, last) =>
      var (w, ok) := ReservedFrom(vm, c, page, last);
      (w, if ok then Done else Failed)
    case MapWindow(c, page, f, n) =>
      var (w, ok) := MappedFrom(vm, c, page, f, n);
      (w, if ok then Done else Failed)
    case Fork(c, slotFree) =>
      var (w, child) := Cloned(arch, vm, c);
      if child.None? then (w, Failed)
      else if slotFree then (w, NewSpace(child.value))
      else (Destroyed(arch, w, child.value), Failed)
    case Destroy(c) => (Destroyed(arch, vm, c), Done)
    case Switch(c) => (Switched(arch, vm, c), Done)
    case Read(page, offset, first, retry) =>
      var (w, e, a) := Accessed(vm, page, false, first, retry);
      (w, if e.Some? then Loaded(FrameBytes(w, e.value.frame)[offset]) else a)
    case Write(page, offset, byte, first, retry) =>
      var (w, e, a) := Accessed(vm, page, true, first, retry);
      (if e.Some? then WithBytes(w, e.value.frame, FrameBytes(w, e.value.frame)[offset := byte]) else w, a)
  }

  // ---- the eager machine ------------------------------------------------------------------------

  datatype Eager = Eager(spaces: map<nat, seq<View>>, low: seq<Page>, cr3: nat)

  ghost function NoViews(): (s: seq<View>)
    ensures |s| == PAGES && forall i :: 0 <= i < PAGES ==> s[i] == Unmapped
  {
    seq(PAGES, _ => Unmapped)
  }

  ghost function Views(vm: Vm, c: nat): (s: seq<View>)
    requires Sized(vm) && c in vm.spaces
    ensures |s| == PAGES && forall i :: 0 <= i < PAGES ==> s[i] == ViewAt(vm, c, i)
  {
    seq(PAGES, i requires 0 <= i < PAGES => ViewAt(vm, c, i))
  }

  ghost function Abs(vm: Vm): Eager
    requires Sized(vm)
  {
    Eager(map c | c in vm.spaces :: Views(vm, c), vm.low, vm.cr3)
  }

  ghost predicate EagerSized(a: Eager) {
    |a.low| == POOL_FIRST && forall c :: c in a.spaces ==> |a.spaces[c]| == PAGES
  }

  /** Reserved pages are pages of zeros from the start. */
  ghost function WithReserved(s: seq<View>, from: int, last: int): (t: seq<View>)
    requires |s| == PAGES
    ensures |t| == PAGES
  {
    seq(PAGES, i requires 0 <= i < PAGES =>
      if 0 <= from <= i <= last && s[i] == Unmapped then Private(Zeros()) else s[i])
  }

  ghost function WithWindows(s: seq<View>, from: int, f: nat, n: nat): (t: seq<View>)
    requires |s| == PAGES
    ensures |t| == PAGES
  {
    seq(PAGES, i requires 0 <= i < PAGES => if from <= i < from + n then WindowOn(f + (i - from)) else s[i])
  }

  /** A forked child gets a copy of every page but the windows. */
  ghost function Copied(s: seq<View>): (t: seq<View>)
    requires |s| == PAGES
    ensures |t| == PAGES
  {
    seq(PAGES, i requires 0 <= i < PAGES => Inherited(s[i]))
  }

  /** The same step on the eager machine. Whether a call found the memory it needed is taken from the
      lazy machine's answer; everything else is decided here. */
  ghost function EagerStep(arch: Arch, a: Eager, op: Op, answer: Answer): Eager
    requires EagerSized(a)
  {
    match op
    case Create =>
      if answer.NewSpace? then a.(spaces := a.spaces[answer.c := NoViews()]) else a
    case Reserve(c, from, last) =>
      if c in a.spaces then a.(spaces := a.spaces[c := WithReserved(a.spaces[c], from, last)]) else a
    case MapWindow(c, from, f, n) =>
      if c in a.spaces then a.(spaces := a.spaces[c := WithWindows(a.spaces[c], from, f, n)]) else a
    case Fork(c, _) =>
      if answer.NewSpace? && c in a.spaces then a.(spaces := a.spaces[answer.c := Copied(a.spaces[c])]) else a
    case Destroy(c) => a.(spaces := a.spaces - {c})
    case Switch(c) => a.(cr3 := if c != 0 then c else if arch.I386? then a.cr3 else KERNEL_CR3)
    case Read(_, _, _, _) => a
    case Write(page, offset, byte, _, _) =>
      if answer != Done || a.cr3 !in a.spaces || page >= PAGES || offset >= FRAME_SIZE then a
      else
        match a.spaces[a.cr3][page]
        case Unmapped => a
        case Private(bytes) => a.(spaces := a.spaces[a.cr3 := a.spaces[a.cr3][page := Private(bytes[offset := byte])]])
        case WindowOn(f) => if f < POOL_FIRST then a.(low := a.low[f := a.low[f][offset := byte]]) else a
  }

  /** The answers the eager machine allows when the lazy one has `free` frames left: an access to a
      mapped page succeeds and a load returns the byte there, unless there is no frame at all; calls
      fail only for lack of frames or task slots. */
  ghost predicate EagerAnswer(arch: Arch, a: Eager, op: Op, answer: Answer, free: int)
    requires EagerSized(a)
  {
    match op
    case Create => if answer.NewSpace? then answer.c !in a.spaces else answer == Failed && free < TableCount(arch)
    case Reserve(_, page, last) => answer == if page > last || (0 <= page && last < PAGES) then Done else Failed
    case Fork(c, slotFree) =>
      if answer.NewSpace? then c in a.spaces && slotFree && answer.c !in a.spaces
      else answer == Failed && (c !in a.spaces || !slotFree || free < TableCount(arch) + PAGES)
    case Read(page, offset, _, _) =>
      && a.cr3 in a.spaces && page < PAGES && offset < FRAME_SIZE
      && (match a.spaces[a.cr3][page]
          case Unmapped => answer == Killed
          case Private(bytes) => answer == Loaded(bytes[offset]) || (answer == Killed && free == 0)
          case WindowOn(f) => f < POOL_FIRST && answer == Loaded(a.low[f][offset]))
    case Write(page, offset, _, _, _) =>
      && a.cr3 in a.spaces && page < PAGES && offset < FRAME_SIZE
      && (match a.spaces[a.cr3][page]
          case Unmapped => answer == Killed
          case Private(_) => answer == Done || (answer == Killed && free == 0)
          case WindowOn(_) => answer == Done)
    case _ => answer == Done
  }
}

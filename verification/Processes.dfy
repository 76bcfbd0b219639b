/** The kernel as a whole: address spaces, tasks and descriptors change together in `fork`, `run_image`,
    the end of a task and the switch between tasks. What each module asks of its callers holds in every
    reachable state, every address space and every descriptor belongs to a living task, and `fork` does
    all of its work or none of it (kernel/src/level0b1/fork.rs, kernel/src/level0b1/process.rs and the
    callers in kernel/src/level0a/core/scheduler.rs). */
module Processes {
  import opened Basics
  import opened Frames
  import opened Mmu
  import opened MmuInvariant
  import opened MmuOperations
  import opened EagerFork
  import opened EagerForkProof
  import Sched = Scheduler
  import SchedulerProof
  import Pipes
  import PipeTables
  import AddressSpaces

  /** The pages `run_image` reserves for a program: 512 KiB. */
  const PROGRAM_PAGES: nat := 128

  /** `spaces` holds the address space of each task slot, 0 for none. */
  datatype System = System(vm: Vm, tasks: Sched.Sched, io: Pipes.Io, spaces: seq<nat>)

  ghost predicate Shaped(s: System) {
    Mmu.Sized(s.vm) && Sched.Sized(s.tasks) && Pipes.Sized(s.io) && |s.spaces| == Sched.MAX_TASKS
  }

  function Me(s: System): nat {
    s.tasks.current
  }

  /** The directory the processor uses for an address space. */
  function DirectoryOf(space: nat): nat {
    if space == 0 then KERNEL_CR3 else space
  }

  ghost predicate NoDescriptors(io: Pipes.Io, t: nat)
    requires Pipes.Sized(io) && t < Pipes.MAX_TASKS
  {
    forall k :: 0 <= k < Pipes.MAX_FDS ==> !io.tables[t][k].used
  }

  /** Living tasks own the address spaces `keys`, one each, and the loaded directory is that of the current
      task. */
  ghost predicate Ownership(spaces: seq<nat>, keys: set<nat>, cr3: nat, t: Sched.Sched)
    requires |spaces| == Sched.MAX_TASKS && Sched.Sized(t)
  {
    && (forall i {:trigger spaces[i]} :: 0 <= i < Sched.MAX_TASKS && spaces[i] != 0 ==>
       Sched.Alive(t, i) && spaces[i] in keys)
    && (forall i, j :: 0 <= i < j < Sched.MAX_TASKS && spaces[i] != 0 ==> spaces[i] != spaces[j])
    && (forall c :: c in keys ==> c in spaces && !NoUserSpace(c))
    && cr3 == DirectoryOf(spaces[t.current])
  }

  /** Dead tasks hold no descriptors. */
  ghost predicate DeadHoldNone(io: Pipes.Io, t: Sched.Sched)
    requires Pipes.Sized(io) && Sched.Sized(t)
  {
    forall i {:trigger NoDescriptors(io, i)} :: 0 <= i < Sched.MAX_TASKS && !Sched.Alive(t, i) ==> NoDescriptors(io, i)
  }

  /** Each module is in order, and what belongs together in different modules does. */
  ghost predicate Inv(arch: Arch, s: System): (ok: bool)
    ensures ok ==> Shaped(s)
  {
    && Shaped(s) && EagerFork.Inv(arch, s.vm) && SchedulerProof.Inv(s.tasks) && Pipes.Inv(s.io)
    && Ownership(s.spaces, s.vm.spaces.Keys, s.vm.cr3, s.tasks) && DeadHoldNone(s.io, s.tasks)
  }

  // ---- calls ----------------------------------------------------------------------------------------

  /** What a task, an interrupt or the processor does next. `Task` is a scheduler call that concerns no
      other module. */
  datatype Call =
    | Task(op: Sched.Op)
    | Yield(now: Sched.Tick)
    | Spawn(memory: bool)
    | Launch
    | Leave
    | Fork(memory: bool)
    | Exit
    | Kill(i: nat)
    | Load(page: nat, offset: nat, first: Option<Pte>, retry: Option<Pte>)
    | Store(page: nat, offset: nat, byte: Byte, first: Option<Pte>, retry: Option<Pte>)
    | Window(page: nat, frame: nat, n: nat)
    | Open(node: nat)
    | MakePipe
    | Dup(fd: nat)
    | DupTo(fd: nat, n: nat)
    | Close(fd: nat)

  predicate Private(op: Sched.Op) {
    !op.Yield? && !op.Spawn? && !op.Kill? && !op.Exit?
  }

  /** A program is started in a task without one and left before the task ends; memory is accessed through
      the task's own space. */
  ghost predicate Enabled(s: System, call: Call)
    requires Shaped(s)
  {
    match call
    case Task(op) => Private(op) && Sched.Enabled(s.tasks, op)
    case Yield(_) => true
    case Launch => Sched.Alive(s.tasks, Me(s)) && s.spaces[Me(s)] == 0
    case Leave => Sched.Alive(s.tasks, Me(s)) && s.spaces[Me(s)] != 0
    case Exit => Sched.Enabled(s.tasks, Sched.Exit) && s.spaces[Me(s)] == 0
    case Load(page, offset, _, _) =>
      Sched.Alive(s.tasks, Me(s)) && s.spaces[Me(s)] != 0 && page < PAGES && offset < FRAME_SIZE
    case Store(page, offset, _, _, _) =>
      Sched.Alive(s.tasks, Me(s)) && s.spaces[Me(s)] != 0 && page < PAGES && offset < FRAME_SIZE
    case Window(page, f, n) =>
      Sched.Alive(s.tasks, Me(s)) && s.spaces[Me(s)] in s.vm.spaces && WindowFits(s.vm, s.spaces[Me(s)], page, f, n)
    case _ => Sched.Alive(s.tasks, Me(s))
  }

  ghost function VmStep(arch: Arch, vm: Vm, op: Op): (w: Vm)
    requires Mmu.Sized(vm) && EagerFork.Enabled(vm, op)
    ensures Mmu.Sized(w)
  {
    Step(arch, vm, op).0
  }

  /** `yield_now`: the incoming task brings its address space. */
  ghost function Yielded(arch: Arch, s: System, now: Sched.Tick): System
    requires Inv(arch, s)
  {
    var t := Sched.Yielded(s.tasks, now);
    if t.current == s.tasks.current then s.(tasks := t)
    else s.(tasks := t, vm := VmStep(arch, s.vm, Switch(DirectoryOf(s.spaces[t.current]))))
  }

  /** The start of `run_image`: a new space, loaded, recorded and reserved. */
  ghost function Launched(arch: Arch, s: System): System
    requires Inv(arch, s)
  {
    var (v, answer) := Step(arch, s.vm, Create);
    if !answer.NewSpace? then s.(vm := v)
    else
      CreateFacts(arch, s.vm);
      var u := VmStep(arch, v, Switch(answer.c));
      StepSimulates(arch, v, Switch(answer.c));
      s.(vm := VmStep(arch, u, Reserve(answer.c, 0, PROGRAM_PAGES - 1)), spaces := s.spaces[Me(s) := answer.c])
  }

  /** `release_space`, also the end of `child_task`: first away from the space, then its frames. */
  ghost function Left(arch: Arch, s: System): System
    requires Inv(arch, s)
  {
    var v := VmStep(arch, s.vm, Switch(KERNEL_CR3));
    SpacesReal(arch, s.vm);
    s.(vm := VmStep(arch, v, Destroy(s.spaces[Me(s)])), spaces := s.spaces[Me(s) := 0])
  }

  /** `fork`: clone the space, get a task for it, copy the descriptors. */
  ghost function Forked(arch: Arch, s: System, memory: bool): (r: (System, Option<nat>))
    requires Inv(arch, s) && Sched.Alive(s.tasks, Me(s))
  {
    var c := s.spaces[Me(s)];
    if c == 0 then (s, None)
    else
      var (t, slot) := Sched.Spawned(s.tasks, true, memory);
      var (v, answer) := Step(arch, s.vm, EagerFork.Fork(c, slot.Some?));
      if Cloned(arch, s.vm, c).1.None? then (s.(vm := v), None)
      else if slot.None? then (s.(vm := v, tasks := t), None)
      else (System(v, t, Pipes.ClonedFrom(s.io, Me(s), slot.value, 0), s.spaces[slot.value := answer.c]), slot)
  }

  /** `terminate` */
  ghost function Killed(arch: Arch, s: System, i: nat): System
    requires Inv(arch, s)
  {
    var (t, refusal) := Sched.Killed(s.tasks, i);
    if refusal.Some? then s
    else
      OtherSpace(arch, s, i);
      System(VmStep(arch, s.vm, Destroy(s.spaces[i])), t, Pipes.AllClosedFrom(s.io, i, 0), s.spaces[i := 0])
  }

  ghost function After(arch: Arch, s: System, call: Call): System
    requires Inv(arch, s) && Enabled(s, call)
  {
    match call
    case Task(op) => s.(tasks := Sched.Step(s.tasks, op))
    case Yield(now) => Yielded(arch, s, now)
    case Spawn(memory) => s.(tasks := Sched.Spawned(s.tasks, false, memory).0)
    case Launch => Launched(arch, s)
    case Leave => Left(arch, s)
    case Fork(memory) => Forked(arch, s, memory).0
    case Exit => s.(tasks := Sched.Exited(s.tasks), io := Pipes.AllClosedFrom(s.io, Me(s), 0))
    case Kill(i) => Killed(arch, s, i)
    case Load(page, offset, first, retry) => s.(vm := VmStep(arch, s.vm, Read(page, offset, first, retry)))
    case Store(page, offset, byte, first, retry) =>
      s.(vm := VmStep(arch, s.vm, Write(page, offset, byte, first, retry)))
    case Window(page, f, n) => s.(vm := VmStep(arch, s.vm, MapWindow(s.spaces[Me(s)], page, f, n)))
    case Open(node) => s.(io := Pipes.Opened(s.io, Me(s), Pipes.File, node).0)
    case MakePipe => s.(io := Pipes.PipeMade(s.io, Me(s)).0)
    case Dup(fd) => s.(io := Pipes.Duped(s.io, Me(s), fd).0)
    case DupTo(fd, n) => s.(io := Pipes.DupedTo(s.io, Me(s), fd, n).0)
    case Close(fd) => s.(io := Pipes.Closed(s.io, Me(s), fd).0)
  }

  // ---- facts of the modules ---------------------------------------------------------------------------

  /** The address spaces after a step of the memory system. */
  function SpacesAfter(spaces: set<nat>, op: Op, answer: Answer): set<nat> {
    match op
    case Destroy(c) => spaces - {c}
    case _ => if answer.NewSpace? then spaces + {answer.c} else spaces
  }

  function LoadedAfter(arch: Arch, cr3: nat, op: Op): nat {
    match op
    case Switch(c) => if c != 0 then c else if arch.I386? then cr3 else KERNEL_CR3
    case _ => cr3
  }

  lemma EagerFacts(arch: Arch, a: Eager, op: Op, answer: Answer, free: int)
    requires EagerSized(a) && EagerAnswer(arch, a, op, answer, free)
    ensures var b := EagerStep(arch, a, op, answer);
            b.spaces.Keys == SpacesAfter(a.spaces.Keys, op, answer) && b.cr3 == LoadedAfter(arch, a.cr3, op)
    ensures answer.NewSpace? ==> (op.Create? || op.Fork?) && answer.c !in a.spaces
  {
  }

  /** A step of the memory system changes the spaces and the loaded directory as the eager machine's does. */
  lemma VmFacts(arch: Arch, vm: Vm, op: Op)
    requires EagerFork.Inv(arch, vm) && EagerFork.Enabled(vm, op)
    ensures var (w, answer) := Step(arch, vm, op);
            && EagerFork.Inv(arch, w) && w.spaces.Keys == SpacesAfter(vm.spaces.Keys, op, answer)
               && w.cr3 == LoadedAfter(arch, vm.cr3, op)
            && (forall c :: c in w.spaces ==> !NoUserSpace(c))
            && (answer.NewSpace? ==> (op.Create? || op.Fork?) && answer.c !in vm.spaces)
  {
    assert Mmu.Sized(vm);
    hide EagerFork.Inv, Step, EagerStep, EagerAnswer;
    StepSimulates(arch, vm, op);
    var (w, answer) := Step(arch, vm, op);
    EagerFacts(arch, Abs(vm), op, answer, POOL_FRAMES - vm.pool.used);
    SpacesReal(arch, w);
    assert Abs(w).spaces.Keys == w.spaces.Keys && Abs(vm).spaces.Keys == vm.spaces.Keys;
  }

  /** A fork makes a space exactly when the clone succeeds and a task can be had. */
  lemma ForkAnswer(arch: Arch, vm: Vm, c: nat, slotFree: bool)
    requires EagerFork.Inv(arch, vm) && c in vm.spaces
    ensures Step(arch, vm, EagerFork.Fork(c, slotFree)).1.NewSpace? <==> Cloned(arch, vm, c).1.Some? && slotFree
  {
  }

  lemma CreateFacts(arch: Arch, vm: Vm)
    requires EagerFork.Inv(arch, vm)
    ensures var (v, answer) := Step(arch, vm, Create);
            && EagerFork.Inv(arch, v) && v.cr3 == vm.cr3
            && (answer.NewSpace? ==>
               answer.c !in vm.spaces && !NoUserSpace(answer.c) && v.spaces.Keys == vm.spaces.Keys + {answer.c})
            && (!answer.NewSpace? ==> v.spaces.Keys == vm.spaces.Keys)
  {
    VmFacts(arch, vm, Create);
  }

  /** The space of another task is not the loaded one. */
  lemma OtherSpace(arch: Arch, s: System, i: nat)
    requires Inv(arch, s) && i < Sched.MAX_TASKS && i != Me(s)
    ensures EagerFork.Enabled(s.vm, Destroy(s.spaces[i]))
  {
    SpacesReal(arch, s.vm);
  }

  /** The same tasks live. */
  ghost predicate SameLiving(t: Sched.Sched, u: Sched.Sched)
    requires Sched.Sized(t) && Sched.Sized(u)
  {
    forall i :: 0 <= i < Sched.MAX_TASKS ==> Sched.Alive(u, i) == Sched.Alive(t, i)
  }

  /** What a scheduler call that concerns no other module does to the living. */
  lemma PrivateAlive(s: Sched.Sched, op: Sched.Op)
    requires SchedulerProof.Inv(s) && Sched.Enabled(s, op) && Private(op)
    ensures SameLiving(s, Sched.Step(s, op)) && Sched.Step(s, op).current == s.current
  {
  }

  lemma YieldAlive(s: Sched.Sched, now: Sched.Tick)
    requires SchedulerProof.Inv(s)
    ensures SameLiving(s, Sched.Yielded(s, now))
  {
    forall i | 0 <= i < Sched.MAX_TASKS ensures Sched.Alive(Sched.Yielded(s, now), i) == Sched.Alive(s, i) {
      if i < s.count {
        SchedulerProof.YieldedSlot(s, now, i);
      }
    }
  }

  lemma SpawnAlive(s: Sched.Sched, waitable: bool, memory: bool)
    requires SchedulerProof.Inv(s)
    ensures var (t, slot) := Sched.Spawned(s, waitable, memory);
            && t.current == s.current
            && (slot.Some? ==> slot.value < Sched.MAX_TASKS && !Sched.Alive(s, slot.value))
            && forall i {:trigger Sched.Alive(t, i)} :: 0 <= i < Sched.MAX_TASKS ==>
               Sched.Alive(t, i) == (Sched.Alive(s, i) || slot == Some(i))
  {
  }

  // ---- every call keeps the kernel in order -------------------------------------------------------------

  /** The kernel before the first program. */
  ghost function Boot(arch: Arch, low: seq<Page>, pages: seq<Page>): (s: System)
    requires |low| == POOL_FIRST && |pages| == POOL_FRAMES
    ensures Inv(arch, s)
  {
    BootInvariant(arch, low, pages);
    SchedulerProof.BootInv();
    PipeTables.EmptyInv();
    System(EagerForkProof.Boot(low, pages), Sched.Boot(), PipeTables.Empty(), seq(Sched.MAX_TASKS, _ => 0))
  }

  /** Only the memory changes, and only within the spaces there are. */
  lemma MemoryKeeps(arch: Arch, s: System, op: Op)
    requires Inv(arch, s) && EagerFork.Enabled(s.vm, op)
    requires op.Read? || op.Write? || op.MapWindow? || op.Reserve?
    ensures Inv(arch, s.(vm := VmStep(arch, s.vm, op)))
  {
    VmFacts(arch, s.vm, op);
  }

  lemma TaskKeeps(arch: Arch, s: System, op: Sched.Op)
    requires Inv(arch, s) && Private(op) && Sched.Enabled(s.tasks, op)
    ensures Inv(arch, s.(tasks := Sched.Step(s.tasks, op)))
  {
    hide EagerFork.Inv, Pipes.Inv;
    SchedulerProof.StepInv(s.tasks, op);
    PrivateAlive(s.tasks, op);
  }

  lemma YieldKeeps(arch: Arch, s: System, now: Sched.Tick)
    requires Inv(arch, s)
    ensures Inv(arch, Yielded(arch, s, now))
  {
    SchedulerProof.YieldInv(s.tasks, now);
    YieldAlive(s.tasks, now);
    var t := Sched.Yielded(s.tasks, now);
    MoreLiving(s.io, s.tasks, t);
    OwnershipSwitched(s.spaces, s.vm.spaces.Keys, s.vm.cr3, s.tasks, t);
    hide EagerFork.Inv, Step, Pipes.Inv, Ownership, DeadHoldNone, SchedulerProof.Inv, Sched.Yielded;
    if t.current != s.tasks.current {
      VmFacts(arch, s.vm, Switch(DirectoryOf(s.spaces[t.current])));
    }
  }

  /** The directory of the task switched to is the kernel's or that of a space there is. */
  lemma OwnershipSwitched(spaces: seq<nat>, keys: set<nat>, cr3: nat, t: Sched.Sched, u: Sched.Sched)
    requires |spaces| == Sched.MAX_TASKS && Sched.Sized(t) && Sched.Sized(u) && Ownership(spaces, keys, cr3, t)
      && SameLiving(t, u)
    ensures NoUserSpace(DirectoryOf(spaces[u.current])) || DirectoryOf(spaces[u.current]) in keys
    ensures Ownership(spaces, keys, DirectoryOf(spaces[u.current]), u)
    ensures u.current == t.current ==> cr3 == DirectoryOf(spaces[u.current])
  {
  }

  lemma SpawnKeeps(arch: Arch, s: System, memory: bool)
    requires Inv(arch, s) && Sched.Alive(s.tasks, Me(s))
    ensures Inv(arch, s.(tasks := Sched.Spawned(s.tasks, false, memory).0))
  {
    hide EagerFork.Inv, Pipes.Inv;
    SchedulerProof.StepInv(s.tasks, Sched.Spawn(false, memory));
    SpawnAlive(s.tasks, false, memory);
  }

  /** A new space for task `i`, which had none. */
  lemma OwnershipGained(spaces: seq<nat>, keys: set<nat>, cr3: nat, t: Sched.Sched, u: Sched.Sched, i: nat, c: nat)
    requires |spaces| == Sched.MAX_TASKS && Sched.Sized(t) && Sched.Sized(u) && Ownership(spaces, keys, cr3, t)
    requires i < Sched.MAX_TASKS && spaces[i] == 0 && c !in keys && !NoUserSpace(c) && u.current == t.current
      && Sched.Alive(u, i)
    requires forall j :: 0 <= j < Sched.MAX_TASKS && Sched.Alive(t, j) ==> Sched.Alive(u, j)
    ensures Ownership(spaces[i := c], keys + {c}, if i == t.current then c else cr3, u)
  {
    forall d | d in keys ensures d in spaces[i := c] {
      var j :| 0 <= j < |spaces| && spaces[j] == d;
      assert spaces[i := c][j] == d;
    }
    assert spaces[i := c][i] == c;
  }

  /** Task `i` gives up its space. */
  lemma OwnershipLost(spaces: seq<nat>, keys: set<nat>, cr3: nat, t: Sched.Sched, u: Sched.Sched, i: nat)
    requires |spaces| == Sched.MAX_TASKS && Sched.Sized(t) && Sched.Sized(u) && Ownership(spaces, keys, cr3, t)
    requires i < Sched.MAX_TASKS && u.current == t.current
    requires forall j :: 0 <= j < Sched.MAX_TASKS && j != i ==> Sched.Alive(t, j) == Sched.Alive(u, j)
    ensures Ownership(spaces[i := 0], keys - {spaces[i]}, if i == t.current then KERNEL_CR3 else cr3, u)
  {
    forall d | d in keys && d != spaces[i] ensures d in spaces[i := 0] {
      var j :| 0 <= j < |spaces| && spaces[j] == d;
      assert spaces[i := 0][j] == d;
    }
  }

  lemma LaunchKeeps(arch: Arch, s: System)
    requires Inv(arch, s) && Sched.Alive(s.tasks, Me(s)) && s.spaces[Me(s)] == 0
    ensures Inv(arch, Launched(arch, s))
  {
    hide EagerFork.Inv, Step, Pipes.Inv, Ownership, SchedulerProof.Inv;
    CreateFacts(arch, s.vm);
    var (v, answer) := Step(arch, s.vm, Create);
    if answer.NewSpace? {
      VmFacts(arch, v, Switch(answer.c));
      var u := VmStep(arch, v, Switch(answer.c));
      VmFacts(arch, u, Reserve(answer.c, 0, PROGRAM_PAGES - 1));
      OwnershipGained(s.spaces, s.vm.spaces.Keys, s.vm.cr3, s.tasks, s.tasks, Me(s), answer.c);
    }
  }

  /** The memory of a program, 512 KiB from 12 MiB on. */
  const PROGRAM_START: nat := 0x00C0_0000
  const PROGRAM_SIZE: nat := 0x8_0000

  /** A new program sees zeros in its own memory and nothing else, every other program sees what it saw, and
      the program's space is the one loaded; there is no space only for want of frames. */
  lemma LaunchedSpec(arch: Arch, s: System)
    requires Inv(arch, s) && Sched.Alive(s.tasks, Me(s)) && s.spaces[Me(s)] == 0
    ensures var r := Launched(arch, s);
            var c := r.spaces[Me(s)];
            && Mmu.Sized(r.vm) && r.tasks == s.tasks && r.io == s.io && r.spaces == s.spaces[Me(s) := c]
            && (forall d :: d in s.vm.spaces ==> d in r.vm.spaces && Views(r.vm, d) == Views(s.vm, d))
            && (if c == 0 then r.vm.cr3 == s.vm.cr3 && POOL_FRAMES - s.vm.pool.used < TableCount(arch)
                else
                  && r.vm.cr3 == c && c !in s.vm.spaces && r.vm.spaces.Keys == s.vm.spaces.Keys + {c}
                  && forall j :: 0 <= j < PAGES ==>
                       var own := AddressSpaces.Touches(PROGRAM_START, PROGRAM_SIZE, j);
                       Views(r.vm, c)[j] == if own then View.Private(Zeros()) else Unmapped)
  {
    hide EagerFork.Inv, Step, Pipes.Inv, Ownership, SchedulerProof.Inv, AddressSpaces.Touches, WithReserved, Zeros;
    CreateFacts(arch, s.vm);
    StepSimulates(arch, s.vm, Create);
    var (v, answer) := Step(arch, s.vm, Create);
    assert forall d :: d in s.vm.spaces ==> Abs(v).spaces[d] == Abs(s.vm).spaces[d];
    if answer.NewSpace? {
      var c := answer.c;
      VmFacts(arch, v, Switch(c));
      StepSimulates(arch, v, Switch(c));
      var u := VmStep(arch, v, Switch(c));
      VmFacts(arch, u, Reserve(c, 0, PROGRAM_PAGES - 1));
      StepSimulates(arch, u, Reserve(c, 0, PROGRAM_PAGES - 1));
      var w := VmStep(arch, u, Reserve(c, 0, PROGRAM_PAGES - 1));
      assert Abs(w).spaces[c] == WithReserved(NoViews(), 0, PROGRAM_PAGES - 1);
      ProgramPages(arch);
    }
  }

  lemma ProgramPages(arch: Arch)
    ensures forall j :: 0 <= j < PAGES ==>
      WithReserved(NoViews(), 0, PROGRAM_PAGES - 1)[j] ==
        if AddressSpaces.Touches(PROGRAM_START, PROGRAM_SIZE, j) then View.Private(Zeros()) else Unmapped
  {
    forall j | 0 <= j < PAGES
      ensures AddressSpaces.Touches(PROGRAM_START, PROGRAM_SIZE, j) <==> j <= PROGRAM_PAGES - 1
    {
      AddressSpaces.TouchedPages(arch, PROGRAM_START, PROGRAM_SIZE, j);
    }
  }

  /** Leaving a program gives up its space and loads the kernel's; what every other program sees stays. */
  lemma LeftSpec(arch: Arch, s: System)
    requires Inv(arch, s) && Sched.Alive(s.tasks, Me(s)) && s.spaces[Me(s)] != 0
    ensures var r, c := Left(arch, s), s.spaces[Me(s)];
            && Mmu.Sized(r.vm) && r.tasks == s.tasks && r.io == s.io && r.spaces == s.spaces[Me(s) := 0]
            && r.vm.cr3 == KERNEL_CR3 && r.vm.spaces.Keys == s.vm.spaces.Keys - {c}
            && forall d :: d in r.vm.spaces ==> Views(r.vm, d) == Views(s.vm, d)
  {
    LeaveEnabled(arch, s);
    hide EagerFork.Inv, Step, Pipes.Inv, Ownership, SchedulerProof.Inv, Abs, Views;
    var c := s.spaces[Me(s)];
    VmFacts(arch, s.vm, Switch(KERNEL_CR3));
    StepSimulates(arch, s.vm, Switch(KERNEL_CR3));
    var v := VmStep(arch, s.vm, Switch(KERNEL_CR3));
    VmFacts(arch, v, Destroy(c));
    StepSimulates(arch, v, Destroy(c));
    var w := VmStep(arch, v, Destroy(c));
    assert Abs(w).spaces == Abs(s.vm).spaces - {c};
    SameViews(s.vm, w, {c});
  }

  lemma SameViews(vm: Vm, w: Vm, gone: set<nat>)
    requires Mmu.Sized(vm) && Mmu.Sized(w) && Abs(w).spaces == Abs(vm).spaces - gone
    ensures w.spaces.Keys == vm.spaces.Keys - gone
    ensures forall d :: d in w.spaces ==> Views(w, d) == Views(vm, d)
  {
    assert w.spaces.Keys == Abs(w).spaces.Keys && vm.spaces.Keys == Abs(vm).spaces.Keys;
    forall d | d in w.spaces ensures Views(w, d) == Views(vm, d) {
      assert Abs(w).spaces[d] == Abs(vm).spaces[d];
    }
  }

  lemma LeaveKeeps(arch: Arch, s: System)
    requires Inv(arch, s) && Sched.Alive(s.tasks, Me(s)) && s.spaces[Me(s)] != 0
    ensures Inv(arch, Left(arch, s))
  {
    LeaveEnabled(arch, s);
    hide EagerFork.Inv, Step, Pipes.Inv, Ownership, SchedulerProof.Inv;
    VmFacts(arch, s.vm, Switch(KERNEL_CR3));
    VmFacts(arch, VmStep(arch, s.vm, Switch(KERNEL_CR3)), Destroy(s.spaces[Me(s)]));
    OwnershipLost(s.spaces, s.vm.spaces.Keys, s.vm.cr3, s.tasks, s.tasks, Me(s));
  }

  lemma LeaveEnabled(arch: Arch, s: System)
    requires Inv(arch, s)
    ensures EagerFork.Enabled(s.vm, Switch(KERNEL_CR3))
      && EagerFork.Enabled(VmStep(arch, s.vm, Switch(KERNEL_CR3)), Destroy(s.spaces[Me(s)]))
  {
  }

  lemma ForkKeeps(arch: Arch, s: System, memory: bool)
    requires Inv(arch, s) && Sched.Alive(s.tasks, Me(s))
    ensures Inv(arch, Forked(arch, s, memory).0)
  {
    var c := s.spaces[Me(s)];
    if c != 0 {
      assert c in s.vm.spaces;
      var (t, slot) := Sched.Spawned(s.tasks, true, memory);
      SchedulerProof.StepInv(s.tasks, Sched.Spawn(true, memory));
      SpawnAlive(s.tasks, true, memory);
      ForkSlot(arch, s, memory);
      hide EagerFork.Inv, Step, Pipes.Inv, Ownership, SchedulerProof.Inv, Sched.Spawned, Cloned, Pipes.ClonedFrom,
        DeadHoldNone;
      VmFacts(arch, s.vm, EagerFork.Fork(c, slot.Some?));
      ForkAnswer(arch, s.vm, c, slot.Some?);
      var (v, answer) := Step(arch, s.vm, EagerFork.Fork(c, slot.Some?));
      if Cloned(arch, s.vm, c).1.Some? && slot.Some? {
        ChildKeeps(arch, s, v, t, slot.value, answer.c);
      } else {
        SameOwnership(s.spaces, s.vm.spaces.Keys, s.vm.cr3, s.tasks, t);
        MoreLiving(s.io, s.tasks, t);
      }
    }
  }

  lemma MoreLiving(io: Pipes.Io, t: Sched.Sched, u: Sched.Sched)
    requires Pipes.Sized(io) && Sched.Sized(t) && Sched.Sized(u) && DeadHoldNone(io, t)
    requires forall j :: 0 <= j < Sched.MAX_TASKS && Sched.Alive(t, j) ==> Sched.Alive(u, j)
    ensures DeadHoldNone(io, u)
  {
  }

  /** The child's space, task and descriptors in place. */
  lemma ChildKeeps(arch: Arch, s: System, v: Vm, t: Sched.Sched, slot: nat, c: nat)
    requires Inv(arch, s) && EagerFork.Inv(arch, v) && SchedulerProof.Inv(t) && t.current == Me(s) != slot
    requires c !in s.vm.spaces && !NoUserSpace(c) && v.spaces.Keys == s.vm.spaces.Keys + {c} && v.cr3 == s.vm.cr3
    requires slot < Sched.MAX_TASKS && s.spaces[slot] == 0 && PipeTables.Enabled(s.io, PipeTables.Fork(Me(s), slot))
    requires forall j :: 0 <= j < Sched.MAX_TASKS ==> Sched.Alive(t, j) == (Sched.Alive(s.tasks, j) || j == slot)
    ensures Inv(arch, System(v, t, Pipes.ClonedFrom(s.io, Me(s), slot, 0), s.spaces[slot := c]))
  {
    assert Mmu.Sized(v);
    Pipes.ClonedKeeps(s.io, Me(s), slot, 0);
    hide EagerFork.Inv, Pipes.Inv, Ownership, SchedulerProof.Inv, Pipes.ClonedFrom;
    OwnershipGained(s.spaces, s.vm.spaces.Keys, s.vm.cr3, s.tasks, t, slot, c);
    forall i | 0 <= i < Sched.MAX_TASKS && !Sched.Alive(t, i)
      ensures NoDescriptors(Pipes.ClonedFrom(s.io, Me(s), slot, 0), i) {
      assert NoDescriptors(s.io, i);
    }
  }

  lemma SameOwnership(spaces: seq<nat>, keys: set<nat>, cr3: nat, t: Sched.Sched, u: Sched.Sched)
    requires |spaces| == Sched.MAX_TASKS && Sched.Sized(t) && Sched.Sized(u) && Ownership(spaces, keys, cr3, t)
    requires u.current == t.current && forall j :: 0 <= j < Sched.MAX_TASKS && Sched.Alive(t, j) ==> Sched.Alive(u, j)
    ensures Ownership(spaces, keys, cr3, u)
  {
  }

  /** The slot a forked child gets is not the parent's, has no space and no descriptors. */
  lemma ForkSlot(arch: Arch, s: System, memory: bool)
    requires Inv(arch, s) && Sched.Alive(s.tasks, Me(s))
    ensures var slot := Sched.Spawned(s.tasks, true, memory).1;
            slot.Some? ==> slot.value < Sched.MAX_TASKS && slot.value != Me(s) && s.spaces[slot.value] == 0
                           && PipeTables.Enabled(s.io, PipeTables.Fork(Me(s), slot.value))
  {
    SpawnAlive(s.tasks, true, memory);
    var slot := Sched.Spawned(s.tasks, true, memory).1;
    if slot.Some? {
      assert NoDescriptors(s.io, slot.value);
    }
  }

  lemma ExitKeeps(arch: Arch, s: System)
    requires Inv(arch, s) && Sched.Enabled(s.tasks, Sched.Exit) && s.spaces[Me(s)] == 0
    ensures Inv(arch, After(arch, s, Exit))
  {
    SchedulerProof.ExitInv(s.tasks);
    ExitAlive(s.tasks);
    ClosedDead(s.io, s.tasks, Sched.Exited(s.tasks), Me(s));
    hide EagerFork.Inv, SchedulerProof.Inv, Sched.Exited, Pipes.Inv;
  }

  lemma ExitAlive(s: Sched.Sched)
    requires SchedulerProof.Inv(s) && Sched.Enabled(s, Sched.Exit)
    ensures forall i :: 0 <= i < Sched.MAX_TASKS ==>
      Sched.Alive(Sched.Exited(s), i) == (i != s.current && Sched.Alive(s, i))
  {
    var t := s.tasks[s.current].(state := Sched.Terminated);
    SchedulerProof.ReapedSpec(Sched.SetTask(s, s.current, if t.waitable then t else Sched.Released(t)), 0);
  }

  lemma KillKeeps(arch: Arch, s: System, i: nat)
    requires Inv(arch, s) && Sched.Alive(s.tasks, Me(s))
    ensures Inv(arch, Killed(arch, s, i))
  {
    hide EagerFork.Inv, Step, Pipes.Inv, Ownership, SchedulerProof.Inv, Pipes.AllClosedFrom, DeadHoldNone;
    SchedulerProof.StepInv(s.tasks, Sched.Kill(i));
    var (t, refusal) := Sched.Killed(s.tasks, i);
    if refusal.None? {
      OtherSpace(arch, s, i);
      KillAlive(s.tasks, i);
      VmFacts(arch, s.vm, Destroy(s.spaces[i]));
      OwnershipLost(s.spaces, s.vm.spaces.Keys, s.vm.cr3, s.tasks, t, i);
      ClosedDead(s.io, s.tasks, t, i);
    }
  }

  lemma KillAlive(s: Sched.Sched, i: nat)
    requires SchedulerProof.Inv(s)
    ensures var (t, refusal) := Sched.Killed(s, i);
            && t.current == s.current
            && (refusal.None? ==> i < Sched.MAX_TASKS && i != s.current
                                  && forall j :: 0 <= j < Sched.MAX_TASKS ==>
                                     Sched.Alive(t, j) == (j != i && Sched.Alive(s, j)))
  {
  }

  /** Task `i` ends and its descriptors are closed. */
  lemma ClosedDead(io: Pipes.Io, t: Sched.Sched, u: Sched.Sched, i: nat)
    requires Pipes.Inv(io) && Sched.Sized(t) && Sched.Sized(u) && DeadHoldNone(io, t) && i < Sched.MAX_TASKS
    requires forall j :: 0 <= j < Sched.MAX_TASKS ==> Sched.Alive(u, j) == (j != i && Sched.Alive(t, j))
    ensures Pipes.Inv(Pipes.AllClosedFrom(io, i, 0)) && DeadHoldNone(Pipes.AllClosedFrom(io, i, 0), u)
  {
    Pipes.AllClosedKeeps(io, i, 0);
    hide Pipes.Inv, Pipes.AllClosedFrom;
    forall j | 0 <= j < Sched.MAX_TASKS && !Sched.Alive(u, j) ensures NoDescriptors(Pipes.AllClosedFrom(io, i, 0), j) {
      assert j != i ==> NoDescriptors(io, j);
    }
  }

  lemma DescriptorsKeep(arch: Arch, s: System, call: PipeTables.Call)
    requires Inv(arch, s) && PipeTables.Enabled(s.io, call) && call.t == Me(s) && Sched.Alive(s.tasks, Me(s))
    requires !call.Fork? && !call.End?
    ensures Inv(arch, s.(io := PipeTables.After(s.io, call)))
  {
    PipeTables.CallKeeps(s.io, call);
    var io := PipeTables.After(s.io, call);
    OtherTables(s.io, call);
    hide EagerFork.Inv, Pipes.Inv, PipeTables.After;
    forall i | 0 <= i < Sched.MAX_TASKS && !Sched.Alive(s.tasks, i) ensures NoDescriptors(io, i) {
      assert NoDescriptors(s.io, i);
    }
  }

  /** A task's calls leave the tables of the others alone. */
  lemma OtherTables(io: Pipes.Io, call: PipeTables.Call)
    requires Pipes.Inv(io) && PipeTables.Enabled(io, call) && !call.Fork? && !call.End?
    ensures forall i :: 0 <= i < Pipes.MAX_TASKS && i != call.t ==> PipeTables.After(io, call).tables[i] == io.tables[i]
  {
    if call.MakePipe? {
      Pipes.PipeMadeSpec(io, call.t);
    }
  }

  /** Every call keeps the kernel in order. In particular each module is called only as it asks to be: no
      space is destroyed while it is loaded, a forked child's descriptor table is empty before the copy, and
      only existing spaces are cloned or loaded. */
  lemma CallKeeps(arch: Arch, s: System, call: Call)
    requires Inv(arch, s) && Enabled(s, call)
    ensures Inv(arch, After(arch, s, call))
  {
    var t := Me(s);
    match call
    case Task(op) => TaskKeeps(arch, s, op);
    case Yield(now) => YieldKeeps(arch, s, now);
    case Spawn(memory) => SpawnKeeps(arch, s, memory);
    case Launch => LaunchKeeps(arch, s);
    case Leave => LeaveKeeps(arch, s);
    case Fork(memory) => ForkKeeps(arch, s, memory);
    case Exit => ExitKeeps(arch, s);
    case Kill(i) => KillKeeps(arch, s, i);
    case Load(page, offset, first, retry) => MemoryKeeps(arch, s, Read(page, offset, first, retry));
    case Store(page, offset, byte, first, retry) => MemoryKeeps(arch, s, Write(page, offset, byte, first, retry));
    case Window(page, f, n) => MemoryKeeps(arch, s, MapWindow(s.spaces[t], page, f, n));
    case Open(node) => DescriptorsKeep(arch, s, PipeTables.Open(t, node));
    case MakePipe => DescriptorsKeep(arch, s, PipeTables.MakePipe(t));
    case Dup(fd) => DescriptorsKeep(arch, s, PipeTables.Dup(t, fd));
    case DupTo(fd, n) => DescriptorsKeep(arch, s, PipeTables.DupTo(t, fd, n));
    case Close(fd) => DescriptorsKeep(arch, s, PipeTables.Close(t, fd));
  }

  // ---- runs -----------------------------------------------------------------------------------------------

  ghost predicate Runnable(arch: Arch, s: System, calls: seq<Call>)
    requires Inv(arch, s)
    decreases |calls|
  {
    calls == [] || (Enabled(s, calls[0]) && Inv(arch, After(arch, s, calls[0]))
      && Runnable(arch, After(arch, s, calls[0]), calls[1..]))
  }

  ghost function Run(arch: Arch, s: System, calls: seq<Call>): (r: System)
    requires Inv(arch, s) && Runnable(arch, s, calls)
    ensures Inv(arch, r)
    decreases |calls|
  {
    if calls == [] then s else Run(arch, After(arch, s, calls[0]), calls[1..])
  }

  /** Every enabled call can be made after every run: the kernel is always in order, so the second condition
      of `Runnable` never stops a run. */
  lemma {:induction false} RunKeeps(arch: Arch, s: System, calls: seq<Call>)
    requires Inv(arch, s) && Runnable(arch, s, calls)
    ensures forall call :: Enabled(Run(arch, s, calls), call) ==> Runnable(arch, s, calls + [call])
    decreases |calls|
  {
    hide Inv, After, Enabled;
    if calls == [] {
      forall call | Enabled(s, call) ensures Runnable(arch, s, [] + [call]) {
        CallKeeps(arch, s, call);
        assert ([] + [call])[1..] == [];
      }
    } else {
      var t := After(arch, s, calls[0]);
      RunKeeps(arch, t, calls[1..]);
      forall call | Enabled(Run(arch, s, calls), call) ensures Runnable(arch, s, calls + [call]) {
        assert (calls + [call])[1..] == calls[1..] + [call];
      }
    }
  }

  /** No living task is running a program or holds a descriptor of a pipe. */
  ghost predicate OnlyKernelTasks(s: System)
    requires Shaped(s)
  {
    forall i, k {:trigger s.io.tables[i][k]} ::
      0 <= i < Sched.MAX_TASKS && 0 <= k < Pipes.MAX_FDS && Sched.Alive(s.tasks, i) ==>
      s.spaces[i] == 0 && (s.io.tables[i][k].used ==> s.io.tables[i][k].kind == Pipes.File)
  }

  /** Nothing outlives the programs: over every run from boot, when no program is left, whether it ended,
      was killed or never became a child, every frame is back in the pool and every pipe slot is free. */
  lemma NothingOutlivesPrograms(arch: Arch, low: seq<Page>, pages: seq<Page>, calls: seq<Call>)
    requires |low| == POOL_FIRST && |pages| == POOL_FRAMES
    requires Runnable(arch, Boot(arch, low, pages), calls)
    ensures var s := Run(arch, Boot(arch, low, pages), calls);
            Inv(arch, s) && (OnlyKernelTasks(s) ==>
              && s.vm.spaces == map[] && s.vm.cr3 == KERNEL_CR3 && s.vm.pool.used == 0
              && forall p :: 0 <= p < Pipes.MAX_PIPES ==> !s.io.pipes[p].used)
  {
    var s := Run(arch, Boot(arch, low, pages), calls);
    if OnlyKernelTasks(s) {
      forall i | 0 <= i < Sched.MAX_TASKS ensures s.spaces[i] == 0 {
        if Sched.Alive(s.tasks, i) {
          assert s.io.tables[i][0] == s.io.tables[i][0];
        }
      }
      assert s.vm.spaces == map[] by {
        SpacesReal(arch, s.vm);
      }
      NothingLeaks(arch, s.vm);
      PipesFree(s);
    }
  }

  lemma PipesFree(s: System)
    requires Shaped(s) && Pipes.Inv(s.io) && DeadHoldNone(s.io, s.tasks) && OnlyKernelTasks(s)
    ensures forall p :: 0 <= p < Pipes.MAX_PIPES ==> !s.io.pipes[p].used
  {
    forall t, k, p, w | 0 <= t < Pipes.MAX_TASKS && 0 <= k < Pipes.MAX_FDS ensures !Pipes.IsEnd(s.io, t, k, p, w) {
      if !Sched.Alive(s.tasks, t) {
        assert NoDescriptors(s.io, t);
      }
    }
    forall p | 0 <= p < Pipes.MAX_PIPES ensures !s.io.pipes[p].used {
      assert Pipes.Ends(s.io, p, true) == {} && Pipes.Ends(s.io, p, false) == {};
    }
  }
}

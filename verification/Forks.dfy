/** What `fork` promises (kernel/src/level0b1/fork.rs): all of its work or none of it, and killing the
    child at once undoes it. */
module Forks {
  import opened Basics
  import opened Frames
  import opened Mmu
  import opened MmuInvariant
  import opened MmuOperations
  import opened EagerFork
  import opened EagerForkProof
  import opened Processes
  import Sched = Scheduler
  import SchedulerProof
  import Pipes
  import PipeTables

  /** Nobody sees a difference, and every counter of the pool is the same. */
  ghost predicate SameMemory(vm: Vm, w: Vm)
    requires Mmu.Sized(vm) && Mmu.Sized(w)
  {
    Abs(w) == Abs(vm) && w.pool.refs == vm.pool.refs && w.pool.bits == vm.pool.bits && w.pool.used == vm.pool.used
  }

  /** A clone takes write access from the parent's pages, and leaves everything else of the other spaces. */
  lemma CloneWeakens(arch: Arch, vm: Vm, src: nat)
    requires EagerFork.Inv(arch, vm) && src in vm.spaces && Cloned(arch, vm, src).1.Some?
    ensures var w := Cloned(arch, vm, src).0;
            vm.spaces.Keys <= w.spaces.Keys && WeakenedIn(vm, w, vm.spaces.Keys)
  {
    hide Exact, Exclusive, PoolValid;
    KeysInPool(vm);
    CreatedSpec(arch, vm);
    var (v, c) := Created(arch, vm);
    forall d | d in vm.spaces ensures v.spaces[d] == vm.spaces[d] {
      assert d in v.spaces - {c.value};
    }
    CloneLoop(arch, v, src, c.value, 0);
  }

  /** Destroying the child of a clone gives back every reference the clone took. */
  lemma CloneUndone(arch: Arch, vm: Vm, src: nat)
    requires EagerFork.Inv(arch, vm) && src in vm.spaces && Cloned(arch, vm, src).1.Some?
    ensures var (w, child) := Cloned(arch, vm, src);
            var u := Destroyed(arch, w, child.value);
            EagerFork.Inv(arch, u) && SameMemory(vm, u)
  {
    KeysInPool(vm);
    CloneSpec(arch, vm, src);
    CloneWeakens(arch, vm, src);
    var (w, child) := Cloned(arch, vm, src);
    var u := Destroyed(arch, w, child.value);
    ForkUndone(arch, vm, w, child.value);
    assert SpaceOk(child.value, w.spaces[child.value]);
    DestroySpec(arch, w, child.value);
    forall d | d in vm.spaces ensures u.spaces[d] == w.spaces[d] {
      assert d in w.spaces - {child.value};
    }
    WeakenedNames(vm, u);
  }

  /** The task a fork makes. */
  function ChildTask(parent: nat): Sched.Task {
    Sched.Task(Sched.Ready, 0, 0, 0, 0, Sched.Slice(0), parent, true, true)
  }

  /** Nothing but, perhaps, the number of task slots in use has changed. */
  ghost predicate Untouched(s: System, r: System)
    requires Processes.Shaped(s) && Processes.Shaped(r)
  {
    && SameMemory(s.vm, r.vm) && r.io == s.io && r.spaces == s.spaces
    && r.tasks.tasks == s.tasks.tasks && r.tasks.current == s.tasks.current
  }

  /** The child `i` in place: a slot nobody had, the eager copy of the parent's memory in a new space, and
      the parent's descriptors. */
  ghost predicate HasChild(s: System, r: System, i: nat)
    requires Processes.Shaped(s) && Processes.Shaped(r)
  {
    var me := Me(s);
    && IsNewTask(s.tasks, r.tasks, i)
    && r.io.tables == s.io.tables[i := s.io.tables[me]]
    && r.spaces == s.spaces[i := r.spaces[i]] && EagerlyCopied(s.vm, r.vm, s.spaces[me], r.spaces[i])
  }

  /** Space `child` is new and the eager copy of space `c`; nobody else sees a difference. */
  ghost predicate EagerlyCopied(vm: Vm, w: Vm, c: nat, child: nat)
    requires Mmu.Sized(vm) && Mmu.Sized(w)
  {
    && c in vm.spaces && child !in vm.spaces
    && Abs(w) == Abs(vm).(spaces := Abs(vm).spaces[child := Copied(Abs(vm).spaces[c])])
  }

  /** The eager copy, in the step a fork makes. */
  lemma ChildMemory(arch: Arch, vm: Vm, c: nat)
    requires EagerFork.Inv(arch, vm) && c in vm.spaces && Cloned(arch, vm, c).1.Some?
    ensures var (w, child) := Cloned(arch, vm, c);
            && Step(arch, vm, EagerFork.Fork(c, true)) == (w, NewSpace(child.value))
               && EagerlyCopied(vm, w, c, child.value)
  {
    assert Step(arch, vm, EagerFork.Fork(c, true))
      == (Cloned(arch, vm, c).0, NewSpace(Cloned(arch, vm, c).1.value)) by {
      SpacesReal(arch, vm);
      hide EagerFork.Inv, Cloned;
    }
    hide EagerFork.Inv, Step, Cloned;
    StepSimulates(arch, vm, EagerFork.Fork(c, true));
  }

  /** Slot `i` was not that of a living task and now is that of the current one's child. */
  ghost predicate IsNewTask(s: Sched.Sched, t: Sched.Sched, i: nat)
    requires Sched.Sized(s) && Sched.Sized(t)
  {
    && i < Sched.MAX_TASKS && !Sched.Alive(s, i) && i != s.current && i != Sched.IDLE
    && t.current == s.current && t.tasks == s.tasks[i := ChildTask(s.current)] && Sched.Alive(t, i)
  }

  /** A task for the child, if there is one. */
  lemma ChildSlot(s: Sched.Sched, memory: bool)
    requires SchedulerProof.Inv(s) && Sched.Alive(s, s.current)
    ensures var (t, slot) := Sched.Spawned(s, true, memory);
            && t.current == s.current
            && (slot.Some? ==> IsNewTask(s, t, slot.value))
            && (slot.None? ==>
               t.tasks == s.tasks && (!memory || forall i :: 0 <= i < Sched.MAX_TASKS ==>
                 s.tasks[i].state != Sched.Unused))
  {
  }

  /** `fork` does all of its work or none of it, and does it unless the caller runs no program or a resource
      is short. */
  lemma ForkSpec(arch: Arch, s: System, memory: bool)
    requires Processes.Inv(arch, s) && Sched.Alive(s.tasks, Me(s))
    ensures var (r, child) := Processes.Forked(arch, s, memory);
            && Processes.Inv(arch, r)
            && (match child
                case Some(i) => HasChild(s, r, i)
                case None =>
                  && Untouched(s, r)
                  && (s.spaces[Me(s)] == 0 || !memory || POOL_FRAMES - s.vm.pool.used < TableCount(arch) + PAGES
                      || forall i :: 0 <= i < Sched.MAX_TASKS ==> s.tasks.tasks[i].state != Sched.Unused))
  {
    ForkKeeps(arch, s, memory);
    if Processes.Forked(arch, s, memory).1.Some? {
      ForkDone(arch, s, memory);
    } else if s.spaces[Me(s)] != 0 {
      ForkRefused(arch, s, memory);
    }
  }

  lemma ForkRefused(arch: Arch, s: System, memory: bool)
    requires Processes.Inv(arch, s) && Sched.Alive(s.tasks, Me(s)) && Processes.Forked(arch, s, memory).1.None?
      && s.spaces[Me(s)] != 0
    ensures var r := Processes.Forked(arch, s, memory).0;
            && Processes.Shaped(r) && Untouched(s, r)
            && (!memory || POOL_FRAMES - s.vm.pool.used < TableCount(arch) + PAGES
                || forall i :: 0 <= i < Sched.MAX_TASKS ==> s.tasks.tasks[i].state != Sched.Unused)
  {
    var c := s.spaces[Me(s)];
    assert c in s.vm.spaces && !NoUserSpace(c) by {
      SpacesReal(arch, s.vm);
    }
    ChildSlot(s.tasks, memory);
    hide Ownership, EagerFork.Inv, SchedulerProof.Inv, Pipes.Inv, Cloned, Sched.Spawned, SameMemory;
    if Cloned(arch, s.vm, c).1.Some? {
      CloneUndone(arch, s.vm, c);
    } else {
      CloneFailed(arch, s.vm, c);
    }
  }

  lemma CloneFailed(arch: Arch, vm: Vm, c: nat)
    requires EagerFork.Inv(arch, vm) && c in vm.spaces && Cloned(arch, vm, c).1.None?
    ensures SameMemory(vm, Cloned(arch, vm, c).0) && POOL_FRAMES - vm.pool.used < TableCount(arch) + PAGES
  {
    CloneSpec(arch, vm, c);
    AbsSame(vm, Cloned(arch, vm, c).0);
  }

  lemma ForkDone(arch: Arch, s: System, memory: bool)
    requires Processes.Inv(arch, s) && Sched.Alive(s.tasks, Me(s)) && Processes.Forked(arch, s, memory).1.Some?
    ensures var (r, child) := Processes.Forked(arch, s, memory);
            Processes.Shaped(r) && HasChild(s, r, child.value)
  {
    hide EagerFork.Inv, Pipes.Inv, Ownership, DeadHoldNone, SchedulerProof.Inv, Cloned, Sched.Spawned,
      Processes.Forked, EagerlyCopied, Pipes.ClonedFrom;
    ForkKeeps(arch, s, memory);
    ForkParts(arch, s, memory);
    var (r, child) := Processes.Forked(arch, s, memory);
    ChildMemory(arch, s.vm, s.spaces[Me(s)]);
    Pipes.ClonedKeeps(s.io, Me(s), child.value, 0);
    assert r.io.tables[child.value] == s.io.tables[Me(s)];
  }

  /** What a successful fork is made of. */
  lemma ForkParts(arch: Arch, s: System, memory: bool)
    requires Processes.Inv(arch, s) && Sched.Alive(s.tasks, Me(s)) && Processes.Forked(arch, s, memory).1.Some?
    ensures var c := s.spaces[Me(s)];
            && c in s.vm.spaces && Cloned(arch, s.vm, c).1.Some?
            && var (t, i) := Sched.Spawned(s.tasks, true, memory);
               && i.Some? && IsNewTask(s.tasks, t, i.value) && s.spaces[i.value] == 0
               && PipeTables.Enabled(s.io, PipeTables.Fork(Me(s), i.value))
               && Processes.Forked(arch, s, memory)
                  == (System(Cloned(arch, s.vm, c).0, t, Pipes.ClonedFrom(s.io, Me(s), i.value, 0),
                    s.spaces[i.value := Cloned(arch, s.vm, c).1.value]), i)
  {
    ForkSlot(arch, s, memory);
    ChildSlot(s.tasks, memory);
    var c := s.spaces[Me(s)];
    assert c in s.vm.spaces;
    hide Ownership, EagerFork.Inv, SchedulerProof.Inv, Pipes.Inv, Cloned, Sched.Spawned, Step;
    ChildMemory(arch, s.vm, c);
  }

  /** Equal tables mean equal counters. */
  lemma TablesDetermineCounters(a: Pipes.Io, b: Pipes.Io)
    requires Pipes.Inv(a) && Pipes.Inv(b) && a.tables == b.tables
    ensures a == b
  {
    forall p | 0 <= p < Pipes.MAX_PIPES ensures a.pipes[p] == b.pipes[p] {
      Pipes.SameTables(a, b, p);
    }
  }

  /** Copying a task's descriptors to an empty table and closing the copies changes nothing. */
  lemma CloseUndoesCopy(io: Pipes.Io, parent: nat, i: nat)
    requires Pipes.Inv(io) && PipeTables.Enabled(io, PipeTables.Fork(parent, i))
    ensures Pipes.AllClosedFrom(Pipes.ClonedFrom(io, parent, i, 0), i, 0) == io
  {
    var copied := Pipes.ClonedFrom(io, parent, i, 0);
    var closed := Pipes.AllClosedFrom(copied, i, 0);
    Pipes.ClonedKeeps(io, parent, i, 0);
    Pipes.AllClosedKeeps(copied, i, 0);
    assert closed.tables[i] == io.tables[i];
    TablesDetermineCounters(closed, io);
  }

  /** What killing a waitable task is made of. */
  lemma KillParts(arch: Arch, s: System, i: nat)
    requires Processes.Inv(arch, s) && i < Sched.MAX_TASKS && i != Me(s) && i != Sched.IDLE
    requires Sched.Alive(s.tasks, i) && s.tasks.tasks[i].waitable
    ensures Sched.Killed(s.tasks, i).1.None?
    ensures NoUserSpace(s.spaces[i]) || s.spaces[i] in s.vm.spaces
    ensures Processes.Killed(arch, s, i)
            == System(Destroyed(arch, s.vm, s.spaces[i]),
              Sched.SetTask(s.tasks, i, s.tasks.tasks[i].(state := Sched.Terminated)),
                      Pipes.AllClosedFrom(s.io, i, 0), s.spaces[i := 0])
  {
  }

  /** Killing the child right after the fork undoes it: nobody's memory looks different, every frame and
      pipe counter is what it was, and of the child only its exit status is left for the parent. */
  lemma KillUndoesFork(arch: Arch, s: System, memory: bool)
    requires Processes.Inv(arch, s) && Sched.Alive(s.tasks, Me(s)) && Processes.Forked(arch, s, memory).1.Some?
    ensures var (r, child) := Processes.Forked(arch, s, memory);
            var i := child.value;
            && Processes.Inv(arch, r) && Sched.Killed(r.tasks, i).1.None?
            && var u := Processes.Killed(arch, r, i);
               && Processes.Inv(arch, u) && SameMemory(s.vm, u.vm) && u.io == s.io && u.spaces == s.spaces
               && i < Sched.MAX_TASKS && u.tasks.tasks
                  == s.tasks.tasks[i := ChildTask(Me(s)).(state := Sched.Terminated)]
               && SchedulerProof.Zombie(u.tasks, i)
  {
    hide EagerFork.Inv, Pipes.Inv, Ownership, DeadHoldNone, SchedulerProof.Inv, Cloned, Sched.Spawned,
      Processes.Forked, Processes.Killed, Destroyed, Pipes.AllClosedFrom, Pipes.ClonedFrom;
    ForkKeeps(arch, s, memory);
    ForkParts(arch, s, memory);
    var (r, child) := Processes.Forked(arch, s, memory);
    var i := child.value;
    KillKeeps(arch, r, i);
    KillParts(arch, r, i);
    CloneUndone(arch, s.vm, s.spaces[Me(s)]);
    CloseUndoesCopy(s.io, Me(s), i);
    assert s.spaces[i := r.spaces[i]][i := 0] == s.spaces;
  }
}

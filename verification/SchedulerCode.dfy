/** The code of the scheduler: the task table updated in place, each method doing exactly what the
    functions of module Scheduler say. The stack switch itself is not part of it. */
module SchedulerCode {
  import opened Basics
  import opened Scheduler
  import opened SchedulerProof

  /** A child of the current task that has not finished. */
  ghost predicate LivingChild(s: Sched, i: nat)
    requires Sized(s)
  {
    i != s.current && Alive(s, i) && s.tasks[i].parent == s.current
  }

  class Table {
    const tasks: array<Task>
    var current: nat
    var count: nat
    var needResched: bool

    ghost predicate Shape()
      reads this, tasks
    {
      tasks.Length == MAX_TASKS && Sized(State())
    }

    ghost predicate Valid()
      reads this, tasks
    {
      Shape() && Inv(State())
    }

    ghost function State(): Sched
      reads this, tasks
    {
      Sched(tasks[..], current, count, needResched)
    }

    constructor ()
      ensures Valid() && State() == Boot() && fresh(tasks)
    {
      tasks := new Task[MAX_TASKS](i => if i == IDLE then EmptyTask().(state := Running) else EmptyTask());
      current, count, needResched := IDLE, 1, false;
      new;
      assert tasks[..] == Boot().tasks;
      BootInv();
    }

    method Put(i: nat, t: Task)
      requires Shape() && i < MAX_TASKS
      modifies tasks
      ensures Shape() && State() == SetTask(old(State()), i, t)
    {
      tasks[i] := t;
      assert tasks[..] == old(tasks[..])[i := t];
    }

    /** `spawn_inner` */
    method Spawn(waitable: bool, memory: bool) returns (index: Option<nat>)
      requires Valid() && Alive(State(), current)
      modifies this`count, tasks
      ensures Valid() && (State(), index) == Spawned(old(State()), waitable, memory)
    {
      StepInv(State(), Op.Spawn(waitable, memory));
      var i := 0;
      while i < count && tasks[i].state != Unused
        invariant 0 <= i <= count && FirstUnused(State(), 0) == FirstUnused(State(), i)
      {
        i := i + 1;
      }
      if i == count {
        if count >= MAX_TASKS {
          return None;
        }
        count := count + 1;
      }
      if !tasks[i].stack && !memory {
        return None;
      }
      Put(i, Task(Ready, 0, 0, 0, 0, Slice(0), current, waitable, true));
      return Some(i);
    }

    method ReapOrphans()
      requires Shape()
      modifies tasks
      ensures Shape() && State() == ReapedFrom(old(State()), 0)
    {
      var i := 0;
      while i < count
        invariant 0 <= i <= count && Shape()
        invariant ReapedFrom(State(), i) == ReapedFrom(old(State()), 0)
      {
        var t := tasks[i];
        if t.state == Terminated && t.waitable {
          var p := t.parent;
          if !(p < count && tasks[p].state != Unused && tasks[p].state != Terminated) {
            Put(i, Released(t));
          }
        }
        i := i + 1;
      }
    }

    method OnTimerTick()
      requires Valid()
      modifies this`needResched, tasks
      ensures Valid() && State() == Ticked(old(State()))
    {
      var t := tasks[current];
      if t.credits > 1 {
        Put(current, t.(credits := t.credits - 1));
        return;
      }
      Put(current, t.(credits := 0));
      needResched := true;
    }

    method RefillCredits()
      requires Shape()
      modifies tasks
      ensures Shape() && State() == Refilled(old(State()))
    {
      var i := 0;
      while i < count
        invariant 0 <= i <= count && Shape()
        invariant forall j :: 0 <= j < MAX_TASKS ==>
          tasks[j] == if j < i then old(tasks[j]).(credits := Slice(old(tasks[j]).nice)) else old(tasks[j])
      {
        tasks[i] := tasks[i].(credits := Slice(tasks[i].nice));
        i := i + 1;
      }
      assert State().tasks == Refilled(old(State())).tasks;
    }

    method WakeExpired(now: Tick)
      requires Valid()
      modifies tasks
      ensures Shape() && State() == WakeAll(old(State()), now)
    {
      var i := 0;
      while i < count
        invariant 0 <= i <= count && Shape()
        invariant forall j :: 0 <= j < MAX_TASKS ==>
          tasks[j] == if j < i then Woken(old(tasks[..]), now, j) else old(tasks[j])
      {
        var t := tasks[i];
        if t.state == Blocked {
          if Expired(now, t.wakeTick) {
            tasks[i] := t.(state := Ready);
          }
        } else if t.state == Waiting {
          var target := t.waitFor - 1;
          if tasks[target].state == Terminated {
            tasks[i] := t.(state := Ready, waitFor := 0);
          }
        }
        i := i + 1;
      }
      assert State().tasks == WakeAll(old(State()), now).tasks;
    }

    method Scan() returns (found: Option<nat>)
      requires Shape()
      ensures found == ScanFrom(State(), 1)
    {
      var offset := 1;
      while offset <= count
        invariant 1 <= offset <= count + 1 && ScanFrom(State(), 1) == ScanFrom(State(), offset)
      {
        var candidate := (current + offset) % count;
        if tasks[candidate].state == Ready && candidate != IDLE && tasks[candidate].credits != 0 {
          return Some(candidate);
        }
        offset := offset + 1;
      }
      return None;
    }

    method PickNext(now: Tick) returns (next: nat)
      requires Valid()
      modifies tasks
      ensures Shape() && (State(), next) == Picked(old(State()), now)
    {
      WakeExpired(now);
      var pass := 0;
      while pass < 2
        invariant 0 <= pass <= 2 && Shape()
        invariant pass == 0 ==> State() == WakeAll(old(State()), now)
        invariant pass > 0 ==>
          ScanFrom(WakeAll(old(State()), now), 1).None? && State() == Refilled(WakeAll(old(State()), now))
        invariant pass == 2 ==> ScanFrom(State(), 1).None?
      {
        var found := Scan();
        if found.Some? {
          return found.value;
        }
        if pass == 0 {
          RefillCredits();
        }
        pass := pass + 1;
      }
      if current != IDLE && tasks[current].state == Running && tasks[current].credits > 0 {
        return current;
      }
      if tasks[IDLE].state == Ready || tasks[IDLE].state == Running {
        return IDLE;
      }
      return current;
    }

    /** `yield_now` up to the change of stacks. */
    method YieldNow(now: Tick)
      requires Valid()
      modifies this`needResched, this`current, tasks
      ensures Valid() && State() == Yielded(old(State()), now)
    {
      YieldInv(State(), now);
      needResched := false;
      var next := PickNext(now);
      if next == current {
        return;
      }
      SwitchTo(next);
    }

    method SwitchTo(next: nat)
      requires Shape() && next < count && next != current
      modifies this`current, tasks
      ensures Shape() && State() == Switched(old(State()), next)
    {
      var t := tasks[current];
      var state := if t.state == Running then Ready else t.state;
      var credits := if current != IDLE && t.credits > 0 then t.credits - 1 else t.credits;
      Put(current, t.(state := state, credits := credits));
      if next == IDLE {
        RefillCredits();
      }
      Put(next, tasks[next].(state := Running));
      current := next;
    }

    /** `terminate_current` up to its loop of yields. */
    method TerminateCurrent()
      requires Valid() && Enabled(State(), Exit)
      modifies tasks
      ensures Valid() && State() == Exited(old(State()))
      ensures forall j :: 0 <= j < MAX_TASKS ==> !Orphan(State(), j)
    {
      ExitInv(State());
      OnePassIsEnough(State());
      var t := tasks[current].(state := Terminated);
      if t.waitable {
        Put(current, t);
      } else {
        Put(current, Released(t));
      }
      ReapOrphans();
    }

    method Terminate(i: nat) returns (refusal: Option<Refusal>)
      requires Valid() && Alive(State(), current)
      modifies tasks
      ensures Valid() && (State(), refusal) == Killed(old(State()), i)
    {
      StepInv(State(), Kill(i));
      if i == IDLE {
        return Some(IsIdle);
      }
      if i >= MAX_TASKS {
        return Some(BadIndex);
      }
      if i == current {
        return Some(IsCurrent);
      }
      if tasks[i].state == Unused {
        return Some(NoTask);
      }
      if tasks[i].state == Terminated {
        return Some(AlreadyDone);
      }
      var t := tasks[i].(state := Terminated);
      if t.waitable {
        Put(i, t);
      } else {
        Put(i, Released(t));
      }
      return None;
    }

    method WakeIoWaiters() returns (woken: nat)
      requires Valid()
      modifies tasks
      ensures Valid() && State() == IoWoken(old(State()))
    {
      StepInv(State(), IoInterrupt);
      woken := 0;
      var i := 0;
      while i < count
        invariant 0 <= i <= count && Shape()
        invariant forall j :: 0 <= j < MAX_TASKS ==>
          tasks[j] == if j < i && old(tasks[j]).state == IoWait then old(tasks[j]).(state := Ready) else old(tasks[j])
      {
        if tasks[i].state == IoWait {
          tasks[i] := tasks[i].(state := Ready);
          woken := woken + 1;
        }
        i := i + 1;
      }
      assert State().tasks == IoWoken(old(State())).tasks;
    }

    /** `reap_finished_child`: the first finished child with its exit code; its slot is given back. */
    method ReapFinishedChild() returns (r: Option<(nat, Tick)>)
      requires Valid() && Alive(State(), current)
      modifies tasks
      ensures Valid()
      ensures match FinishedChild(old(State()), current, 0)
              case None => r == None && State() == old(State())
              case Some(c) =>
                r == Some((c, old(State()).tasks[c].exitCode)) && State() == Step(old(State()), Collect(c))
    {
      var i := 0;
      while i < count
        invariant 0 <= i <= count && FinishedChild(State(), current, 0) == FinishedChild(State(), current, i)
      {
        if i != current && tasks[i].parent == current && tasks[i].state == Terminated {
          StepInv(State(), Collect(i));
          var code := tasks[i].exitCode;
          Put(i, Released(tasks[i]));
          return Some((i, code));
        }
        i := i + 1;
      }
      return None;
    }

    /** `wait_for_task` up to its loop of yields when nothing comes between looking at the child and waiting:
        nothing to wait for, an exit code at once, or waiting. */
    method BeginWait(child: nat) returns (r: Option<Tick>, waiting: bool)
      requires Valid() && Alive(State(), current)
      modifies tasks
      ensures Valid()
      ensures var s := old(State());
              if child >= s.count || child == s.current || s.current == IDLE || s.tasks[child].state == Unused
              then r == None && !waiting && State() == s
              else if s.tasks[child].state == Terminated
              then r == Some(s.tasks[child].exitCode) && !waiting && State() == Step(s, Collect(child))
              else r == None && waiting && State() == Step(s, AwaitTask(child))
    {
      if child >= count || child == current || current == IDLE {
        return None, false;
      }
      if tasks[child].state == Unused {
        return None, false;
      }
      if tasks[child].state == Terminated {
        StepInv(State(), Collect(child));
        var code := tasks[child].exitCode;
        Put(child, Released(tasks[child]));
        return Some(code), false;
      }
      StartWaiting(child);
      return None, true;
    }

    /** The uninterruptible part of `wait_for_task`, which does not look at the child again. */
    method StartWaiting(child: nat)
      requires Valid() && Enabled(State(), AwaitTask(child))
      modifies tasks
      ensures Valid() && State() == Step(old(State()), AwaitTask(child))
    {
      StepInv(State(), AwaitTask(child));
      Put(current, tasks[current].(waitFor := child + 1, state := Waiting));
    }

    /** `wait_for_any` up to its loop of yields: a finished child if there is one, else the first living one
        is waited for; no child at all is no wait. */
    method BeginWaitAny() returns (r: Option<(nat, Tick)>, awaited: Option<nat>)
      requires Valid() && Alive(State(), current)
      modifies tasks
      ensures Valid()
      ensures match FinishedChild(old(State()), current, 0)
              case Some(c) =>
                r == Some((c, old(State()).tasks[c].exitCode)) && awaited == None
                  && State() == Step(old(State()), Collect(c))
              case None =>
                && r == None
                && (awaited.None? ==> State() == old(State()))
                && (awaited.Some? ==>
                   Enabled(old(State()), AwaitTask(awaited.value))
                     && State() == Step(old(State()), AwaitTask(awaited.value)))
                && (current != IDLE ==> (awaited.Some? <==> exists i :: LivingChild(old(State()), i)))
                && (awaited.Some? ==>
                      && LivingChild(old(State()), awaited.value)
                      && forall j :: 0 <= j < awaited.value ==> !LivingChild(old(State()), j))
    {
      r := ReapFinishedChild();
      if r.Some? {
        return r, None;
      }
      var i := 0;
      while i < count
        invariant 0 <= i <= count && State() == old(State())
        invariant forall j :: 0 <= j < i ==> !LivingChild(State(), j)
      {
        if i != current && tasks[i].parent == current && tasks[i].state != Unused {
          assert LivingChild(State(), i);
          var code, waiting := BeginWait(i);
          return None, if waiting then Some(i) else None;
        }
        i := i + 1;
      }
      return None, None;
    }
  }
}

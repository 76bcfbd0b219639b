/** What single scheduler calls mean for a task, in terms of its fields: when it sleeps and wakes, who comes
    next, what a period gives, and what starting and ending a task does. */
module SchedulerSteps {
  import opened Basics
  import opened Scheduler
  import opened SchedulerProof

  const TICKS: int := 0x1_0000_0000
  const HALF: int := 0x8000_0000

  // ---- sleeping -----------------------------------------------------------------------------------

  /** Tick `now` comes `j` ticks before `wake`, on a counter that wraps around. */
  predicate IsBefore(now: Tick, wake: Tick, j: int) {
    0 < j <= HALF && now == (wake - j) % TICKS
  }

  /** A task that sleeps until tick `wake` is still asleep after a switch point up to 2^31 ticks before it,
      also when the tick counter wraps around in between. */
  lemma SleeperStays(s: Sched, i: nat, now: Tick, j: int)
    requires Inv(s) && i < s.count && s.tasks[i].state == Blocked
    requires IsBefore(now, s.tasks[i].wakeTick, j)
    ensures Yielded(s, now).tasks[i].state == Blocked && Yielded(s, now).tasks[i].wakeTick == s.tasks[i].wakeTick
  {
    assert (now - s.tasks[i].wakeTick) % TICKS == TICKS - j;
    YieldedSlot(s, now, i);
  }

  /** It has woken after a switch point at that tick or less than 2^31 ticks later. */
  lemma SleeperWakes(s: Sched, i: nat, now: Tick, j: int)
    requires Inv(s) && i < s.count && s.tasks[i].state == Blocked
    requires 0 <= j < HALF && now == (s.tasks[i].wakeTick + j) % TICKS
    ensures Yielded(s, now).tasks[i].state in {Ready, Running}
  {
    assert (now - s.tasks[i].wakeTick) % TICKS == j;
    YieldedSlot(s, now, i);
  }

  lemma NotBefore(now: Tick, wake: Tick, j: int)
    ensures IsBefore(now, wake, j) ==> (now - wake) % TICKS == TICKS - j
  {
  }

  /** The two halves of `sleep_ticks` together: at the first switch point the task sleeps on unless its tick
      has come. */
  lemma SleepThenYield(s: Sched, wake: Tick, now: Tick)
    requires Inv(s) && Enabled(s, Sleep(wake))
    ensures Inv(Step(s, Sleep(wake)))
    ensures var t := Yielded(Step(s, Sleep(wake)), now).tasks[s.current];
            (exists j :: IsBefore(now, wake, j)) <==> t.state == Blocked && t.wakeTick == wake
  {
    var r := Step(s, Sleep(wake));
    StepInv(s, Sleep(wake));
    var late := (now - wake) % TICKS;
    if late < HALF {
      SleeperWakes(r, s.current, now, late);
      forall j ensures !IsBefore(now, wake, j) {
        NotBefore(now, wake, j);
      }
    } else {
      assert IsBefore(now, wake, TICKS - late);
      SleeperStays(r, s.current, now, TICKS - late);
    }
  }

  /** A task that waits for I/O goes on waiting at a switch point and is Ready after the next interrupt. */
  lemma IoWaiterWoken(s: Sched, i: nat, now: Tick)
    requires Inv(s) && i < s.count && s.tasks[i].state == IoWait
    ensures Yielded(s, now).tasks[i].state == IoWait
    ensures Step(s, IoInterrupt).tasks[i] == s.tasks[i].(state := Ready)
    ensures forall k :: 0 <= k < MAX_TASKS && s.tasks[k].state != IoWait ==> Step(s, IoInterrupt).tasks[k] == s.tasks[k]
  {
    YieldedSlot(s, now, i);
  }

  // ---- ticks and periods ----------------------------------------------------------------------------

  /** `k` timer ticks in a row. */
  function TickedTimes(s: Sched, k: nat): (r: Sched)
    requires Sized(s)
    ensures Sized(r) && r.current == s.current && r.count == s.count
  {
    if k == 0 then s else Ticked(TickedTimes(s, k - 1))
  }

  /** The running task loses one credit with each tick until it has none; the tick that takes the last one asks
      for a switch. */
  lemma {:induction false} TicksUseCredits(s: Sched, k: nat)
    requires Sized(s)
    ensures var r, c := TickedTimes(s, k), s.tasks[s.current].credits;
            && r.tasks == s.tasks[s.current := s.tasks[s.current].(credits := if k < c then c - k else 0)]
            && (r.needResched <==> s.needResched || (k > 0 && k >= c))
  {
    if k > 0 {
      TicksUseCredits(s, k - 1);
    }
  }

  /** The slice grows with the priority: 8, 4, 2 and 1 from nice -20, -9, 0 and 5 on. */
  lemma Slices(a: int, b: int)
    requires a <= b
    ensures Slice(a) >= Slice(b)
    ensures Slice(-20) == Slice(-10) == 8 && Slice(-9) == Slice(-1) == 4 && Slice(0) == Slice(4) == 2
      && Slice(5) == Slice(19) == 1
  {
  }

  /** `set_nice` takes the value into the range from -20 to 19, and takes effect at the next refill. */
  lemma NiceSpec(s: Sched, i: nat, nice: int)
    requires Inv(s) && Enabled(s, SetNice(i, nice)) && i < MAX_TASKS && s.tasks[i].state != Unused
    ensures var n := Step(s, SetNice(i, nice)).tasks[i].nice;
            -20 <= n <= 19 && (-20 <= nice <= 19 ==> n == nice) && (nice < -20 ==> n == -20) && (nice > 19 ==> n == 19)
    ensures Step(s, SetNice(i, nice)) == SetTask(s, i, s.tasks[i].(nice := Step(s, SetNice(i, nice)).tasks[i].nice))
  {
  }

  // ---- who comes next -------------------------------------------------------------------------------

  /** Some task but idle is Ready and has credit. */
  predicate Anybody(w: Sched)
    requires Sized(w)
  {
    exists t :: 0 < t < w.count && Eligible(w, t)
  }

  /** Within a period the next task is the nearest one after the current that is Ready with credit, sleepers
      having been woken. */
  lemma NextInPeriod(s: Sched, now: Tick, t: nat)
    requires Inv(s) && t < s.count && Eligible(WakeAll(s, now), t)
    ensures var c := Yielded(s, now).current;
            Eligible(WakeAll(s, now), c) && Distance(s, c) <= Distance(s, t)
  {
    var q := s.(needResched := false);
    assert WakeAll(q, now).tasks == WakeAll(s, now).tasks;
    ScanNearest(WakeAll(q, now), 1, t);
  }

  /** When nobody has credit a period ends: the next task is the nearest that is Ready. */
  lemma NextInNewPeriod(s: Sched, now: Tick, t: nat)
    requires Inv(s) && !Anybody(WakeAll(s, now))
    requires IDLE < t < s.count && WakeAll(s, now).tasks[t].state == Ready
    ensures var c := Yielded(s, now).current;
            c != IDLE && WakeAll(s, now).tasks[c].state == Ready && Distance(s, c) <= Distance(s, t)
  {
    var q := s.(needResched := false);
    var w := WakeAll(q, now);
    assert w.tasks == WakeAll(s, now).tasks;
    NobodyFound(s, now);
    ScanNearest(Refilled(w), 1, t);
  }

  lemma NobodyFound(s: Sched, now: Tick)
    requires Sized(s) && !Anybody(WakeAll(s, now))
    ensures ScanFrom(WakeAll(s.(needResched := false), now), 1).None?
  {
    var w := WakeAll(s.(needResched := false), now);
    assert w.tasks == WakeAll(s, now).tasks;
    if ScanFrom(w, 1).Some? {
      assert Eligible(WakeAll(s, now), ScanFrom(w, 1).value);
    }
  }

  lemma SomebodyFound(s: Sched, now: Tick)
    requires Sized(s)
    ensures ScanFrom(WakeAll(s.(needResched := false), now), 1).Some? <==> Anybody(WakeAll(s, now))
  {
    var w := WakeAll(s.(needResched := false), now);
    assert w.tasks == WakeAll(s, now).tasks;
    if Anybody(WakeAll(s, now)) {
      var e :| 0 < e < w.count && Eligible(WakeAll(s, now), e);
      assert Eligible(w, e);
      ScanNearest(w, 1, e);
    } else {
      NobodyFound(s, now);
    }
  }

  /** What a switch point does to the credits of a task but idle: a new period gives it its slice, whatever it
      had left; and who is switched away from pays one. */
  lemma CreditsAfter(s: Sched, now: Tick, t: nat)
    requires Inv(s) && IDLE < t < s.count
    ensures var r := Yielded(s, now);
            var renewed := !Anybody(WakeAll(s, now));
            var given := if renewed then Slice(s.tasks[t].nice) else s.tasks[t].credits;
            r.tasks[t].credits ==
              if s.current != IDLE && r.current == IDLE then Slice(s.tasks[t].nice)
              else if t == s.current != r.current && given > 0 then given - 1 else given
  {
    hide Picked, WakeAll, ScanFrom, Switched, Slice, Anybody, Inv;
    var q := s.(needResched := false);
    SomebodyFound(s, now);
    PickedCredits(q, now, t);
    PickedSlot(q, now, t);
    var (p, next) := Picked(q, now);
    if next != p.current {
      SwitchedCredits(p, next, t);
    }
  }

  /** A switch point answers the request for it. */
  lemma RequestAnswered(s: Sched, now: Tick)
    requires Sized(s)
    ensures !Yielded(s, now).needResched
  {
  }

  // ---- starting and ending tasks ----------------------------------------------------------------------

  /** `spawn_inner` takes the lowest free slot and fails exactly when there is none, or there is no memory for
      stacks the slot does not have yet. */
  lemma SpawnSpec(s: Sched, waitable: bool, memory: bool, i: nat)
    requires Inv(s) && i < MAX_TASKS && s.tasks[i].state == Unused
    requires forall j :: 0 <= j < i ==> s.tasks[j].state != Unused
    ensures var (r, slot) := Spawned(s, waitable, memory);
            && slot == (if s.tasks[i].stack || memory then Some(i) else None)
            && r.count == (if i == s.count then s.count + 1 else s.count)
            && r.current == s.current && (forall j :: 0 <= j < MAX_TASKS && j != i ==> r.tasks[j] == s.tasks[j])
            && (slot.None? ==> r.tasks[i] == s.tasks[i])
            && (slot.Some? ==>
                  var t := r.tasks[i];
                  && i < r.count && t.state == Ready && t.parent == s.current && t.waitable == waitable && t.stack
                  && t.nice == 0 && t.credits == Slice(0) && t.exitCode == 0 && t.waitFor == 0)
  {
  }

  lemma SpawnFull(s: Sched, waitable: bool, memory: bool)
    requires Inv(s)
    ensures (forall j :: 0 <= j < MAX_TASKS ==> s.tasks[j].state != Unused) ==>
      Spawned(s, waitable, memory) == (s, None)
  {
    if s.count < MAX_TASKS {
      assert s.tasks[s.count].state == Unused;
    }
  }

  /** `terminate` ends every living task but idle and the current one, and nobody else. */
  lemma KillSpec(s: Sched, i: nat)
    requires Inv(s)
    ensures var (r, refusal) := Killed(s, i);
            && (refusal.None? <==> Alive(s, i) && i != IDLE && i != s.current)
            && (refusal.Some? ==> r == s)
            && (refusal.None? ==>
                  && !Alive(r, i) && r.tasks[i].exitCode == s.tasks[i].exitCode
                  && r.tasks[i].state == (if s.tasks[i].waitable then Terminated else Unused)
                  && r == SetTask(s, i, r.tasks[i]))
  {
  }

  /** A task that ends leaves its exit code for a parent that lives, if it is waitable; otherwise its slot is
      free at once. */
  lemma ExitSpec(s: Sched)
    requires Inv(s) && Enabled(s, Exit)
    ensures var me, t := s.tasks[s.current], Exited(s).tasks[s.current];
            && t.state == (if me.waitable && me.parent != s.current && Alive(s, me.parent) then Terminated else Unused)
            && t.exitCode == me.exitCode && t.parent == me.parent
  {
    var t := s.tasks[s.current].(state := Terminated);
    ReapedSpec(SetTask(s, s.current, if t.waitable then t else Released(t)), 0);
  }

  /** An exit code set before the end is the one a parent that lives can collect after it. */
  lemma ExitCodeArrives(s: Sched, code: Tick, child: nat)
    requires Inv(s) && Enabled(s, SetExitCode(code)) && s.current == child != IDLE
    requires s.tasks[child].waitable && s.tasks[child].parent != child && Alive(s, s.tasks[child].parent)
    ensures var r := Step(s, SetExitCode(code));
            Enabled(r, Exit) && Zombie(Exited(r), child) && Exited(r).tasks[child].exitCode == code
  {
    var r := Step(s, SetExitCode(code));
    StepInv(s, SetExitCode(code));
    ExitSpec(r);
    ExitInv(r);
    var t := r.tasks[child].(state := Terminated);
    ReapedSpec(SetTask(r, child, t), 0);
  }
}

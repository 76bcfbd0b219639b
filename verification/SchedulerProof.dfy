/** What every step of the scheduler keeps, and what holds over whole runs: nobody waits too long, nobody
    gets more turns than its share in a period, and finished children are kept for their parents. */
module SchedulerProof {
  import opened Basics
  import opened Scheduler

  // ---- the invariant ------------------------------------------------------------------------------

  /** At most one slot is Running, and then it is the current one; idle can always run; a waiting task
      waits for a slot in use. */
  ghost predicate Inv(s: Sched): (ok: bool)
    ensures ok ==> Sized(s)
  {
    && Sized(s)
    && (forall i :: 0 <= i < MAX_TASKS && s.tasks[i].state == Running ==> i == s.current)
    && (forall i :: 0 <= i < MAX_TASKS && s.tasks[i].state == Waiting ==> 0 < s.tasks[i].waitFor <= s.count)
    && (s.tasks[IDLE].state == Ready || s.tasks[IDLE].state == Running)
    && (forall i :: s.count <= i < MAX_TASKS ==> s.tasks[i].state == Unused)
  }

  lemma BootInv()
    ensures Inv(Boot())
  {
  }

  /** The pass of `reap_orphans` over the changing table frees exactly the slots that were orphans when it
      began: freeing one makes no other. */
  lemma {:induction false} ReapedSpec(s: Sched, i: nat)
    requires Sized(s) && i <= s.count
    ensures var r := ReapedFrom(s, i);
            && r.count == s.count && r.current == s.current
            && forall j :: 0 <= j < MAX_TASKS ==>
               r.tasks[j] == if i <= j && Orphan(s, j) then Released(s.tasks[j]) else s.tasks[j]
    decreases s.count - i
  {
    if i < s.count {
      var g := if Orphan(s, i) then SetTask(s, i, Released(s.tasks[i])) else s;
      ReapedSpec(g, i + 1);
      forall j | 0 <= j < MAX_TASKS && j != i ensures Orphan(g, j) == Orphan(s, j) {
        assert Alive(g, s.tasks[j].parent) == Alive(s, s.tasks[j].parent);
      }
    }
  }

  /** After a task has ended no finished child is left without a living parent: one pass is enough. */
  lemma OnePassIsEnough(s: Sched)
    requires Inv(s) && Enabled(s, Exit)
    ensures forall j :: 0 <= j < MAX_TASKS ==> !Orphan(Exited(s), j)
  {
    var t := s.tasks[s.current].(state := Terminated);
    var g := SetTask(s, s.current, if t.waitable then t else Released(t));
    ReapedSpec(g, 0);
    var r := Exited(s);
    forall j | 0 <= j < MAX_TASKS ensures !Orphan(r, j) {
      assert Alive(r, r.tasks[j].parent) == Alive(g, r.tasks[j].parent);
      assert Orphan(g, j) ==> r.tasks[j].state == Unused;
    }
  }

  lemma ExitInv(s: Sched)
    requires Inv(s) && Enabled(s, Exit)
    ensures Inv(Exited(s)) && Exited(s).current == s.current && Exited(s).count == s.count
    ensures forall j :: 0 <= j < MAX_TASKS ==> Exited(s).tasks[j].credits <= s.tasks[j].credits
    ensures forall j :: 0 <= j < MAX_TASKS && j != s.current && s.tasks[j].state != Terminated ==>
      Exited(s).tasks[j] == s.tasks[j]
  {
    var t := s.tasks[s.current].(state := Terminated);
    ReapedSpec(SetTask(s, s.current, if t.waitable then t else Released(t)), 0);
  }

  lemma PickedInv(s: Sched, now: Tick)
    requires Inv(s)
    ensures var (p, next) := Picked(s, now);
            && Inv(p) && (next == s.current || p.tasks[next].state == Ready || next == IDLE)
  {
    var w := WakeAll(s, now);
    WakeInv(s, now);
    RefillInv(w);
  }

  lemma WakeInv(s: Sched, now: Tick)
    requires Inv(s)
    ensures Inv(WakeAll(s, now))
  {
  }

  lemma RefillInv(s: Sched)
    requires Inv(s)
    ensures Inv(Refilled(s))
  {
  }

  lemma SwitchedInv(s: Sched, next: nat)
    requires Inv(s) && next < s.count && next != s.current && (s.tasks[next].state == Ready || next == IDLE)
    ensures Inv(Switched(s, next))
  {
  }

  lemma YieldInv(s: Sched, now: Tick)
    requires Inv(s)
    ensures Inv(Yielded(s, now))
  {
    var q := s.(needResched := false);
    PickedInv(q, now);
    var (p, next) := Picked(q, now);
    if next != s.current {
      SwitchedInv(p, next);
    }
  }

  lemma StepInv(s: Sched, op: Op)
    requires Inv(s) && Enabled(s, op)
    ensures Inv(Step(s, op))
  {
    hide Yielded, Exited;
    match op
    case Yield(now) => YieldInv(s, now);
    case Exit => ExitInv(s);
    case _ =>
  }

  // ---- the scan -----------------------------------------------------------------------------------

  /** How many places task `t` comes after the current one, going round the table. */
  function Distance(s: Sched, t: nat): nat
    requires Sized(s) && t < s.count
  {
    if t > s.current then t - s.current else t + s.count - s.current
  }

  lemma RoundTheTable(s: Sched, d: nat)
    requires Sized(s) && 1 <= d <= s.count
    ensures (s.current + d) % s.count == if s.current + d < s.count then s.current + d else s.current + d - s.count
  {
    var x := s.current + d;
    if x >= s.count {
      assert x == s.count + (x - s.count) && x - s.count < s.count;
    }
  }

  /** The scan finds the nearest eligible task. */
  lemma {:induction false} ScanNearest(s: Sched, d: nat, t: nat)
    requires Sized(s) && t < s.count && Eligible(s, t) && 1 <= d <= Distance(s, t)
    ensures ScanFrom(s, d).Some?
    ensures d <= Distance(s, ScanFrom(s, d).value) <= Distance(s, t)
    decreases s.count - d
  {
    RoundTheTable(s, d);
    var c := (s.current + d) % s.count;
    assert Distance(s, c) == d;
    if !Eligible(s, c) {
      assert c != t;
      ScanNearest(s, d + 1, t);
    }
  }

  // ---- work conservation --------------------------------------------------------------------------

  /** After a switch point idle runs exactly when no other task is ready, now that sleepers have been woken,
      and the current one is idle or cannot go on. */
  lemma IdleOnlyWhenNothingElse(s: Sched, now: Tick)
    requires Inv(s)
    ensures Yielded(s, now).current == IDLE <==>
      && (s.current == IDLE || s.tasks[s.current].state != Running)
      && forall i :: 0 < i < s.count ==> WakeAll(s, now).tasks[i].state != Ready
  {
    var q := s.(needResched := false);
    var w := WakeAll(q, now);
    var f := Refilled(w);
    assert w.tasks == WakeAll(s, now).tasks;
    forall i | 0 < i < s.count && w.tasks[i].state == Ready ensures ScanFrom(f, 1).Some? {
      ScanNearest(f, 1, i);
    }
  }

  /** A task that has not used up its share goes on only if nobody else is eligible. */
  lemma CurrentGoesOn(s: Sched, now: Tick)
    requires Inv(s) && s.current != IDLE && s.tasks[s.current].state == Running
    ensures Yielded(s, now).current == s.current <==> forall i :: 0 < i < s.count && i != s.current ==>
      WakeAll(s, now).tasks[i].state != Ready
  {
    var q := s.(needResched := false);
    var w := WakeAll(q, now);
    var f := Refilled(w);
    assert w.tasks == WakeAll(s, now).tasks;
    forall i | 0 < i < s.count && i != s.current && w.tasks[i].state == Ready
      ensures ScanFrom(f, 1).Some? && f.tasks[s.current].state == Running
    {
      ScanNearest(f, 1, i);
    }
  }

  // ---- bounded wait -------------------------------------------------------------------------------

  /** Task `t` is ready and it is not its turn. */
  predicate Waits(s: Sched, t: nat) {
    Sized(s) && IDLE < t < s.count && s.tasks[t].state == Ready && s.current != t
  }

  /** The credits of the first `n` slots but idle's and `t`'s. */
  function CreditsBut(tasks: seq<Task>, n: nat, t: nat): nat
    requires n <= |tasks|
  {
    if n == 0 then 0
      else CreditsBut(tasks, n - 1, t) + (if n - 1 != IDLE && n - 1 != t then tasks[n - 1].credits else 0)
  }

  lemma {:induction false} CreditsSet(tasks: seq<Task>, n: nat, t: nat, i: nat, x: Task)
    requires n <= |tasks| && i < |tasks|
    ensures CreditsBut(tasks[i := x], n, t)
      == CreditsBut(tasks, n, t) + (if i < n && i != IDLE && i != t then x.credits - tasks[i].credits else 0)
  {
    if n > 0 {
      CreditsSet(tasks, n - 1, t, i, x);
    }
  }

  lemma {:induction false} CreditsLower(a: seq<Task>, b: seq<Task>, n: nat, t: nat)
    requires n <= |a| && |a| == |b| && forall i :: 0 <= i < n ==> b[i].credits <= a[i].credits
    ensures CreditsBut(b, n, t) <= CreditsBut(a, n, t)
  {
    if n > 0 {
      CreditsLower(a, b, n - 1, t);
    }
  }

  lemma {:induction false} CreditsLowerAt(a: seq<Task>, b: seq<Task>, n: nat, t: nat, k: nat)
    requires n <= |a| && |a| == |b| && forall i :: 0 <= i < n ==> b[i].credits <= a[i].credits
    requires k < n && k != IDLE && k != t && b[k].credits < a[k].credits
    ensures CreditsBut(b, n, t) < CreditsBut(a, n, t)
  {
    if k == n - 1 {
      CreditsLower(a, b, n - 1, t);
    } else {
      CreditsLowerAt(a, b, n - 1, t, k);
    }
  }

  predicate HasCredit(s: Sched)
    requires Sized(s)
  {
    s.current != IDLE && s.tasks[s.current].credits > 0
  }

  /** How many switches can still happen before it is the turn of `t`: with credit, the tasks in between;
      without, first the credits of the others have to be used up. */
  function Potential(s: Sched, t: nat): nat
    requires Sized(s) && t < s.count
  {
    if s.tasks[t].credits > 0 then Distance(s, t)
    else CreditsBut(s.tasks, MAX_TASKS, t) + (if HasCredit(s) then 0 else 1) + MAX_TASKS - 2
  }

  /** Credits only shrink while nobody is switched to. */
  lemma PotentialShrinks(s: Sched, r: Sched, t: nat)
    requires Waits(s, t) && Waits(r, t) && r.current == s.current && r.count == s.count
      && r.tasks[t].credits == s.tasks[t].credits
    requires forall i :: 0 <= i < MAX_TASKS ==> r.tasks[i].credits <= s.tasks[i].credits
    ensures Potential(r, t) <= Potential(s, t)
  {
    CreditsLower(s.tasks, r.tasks, MAX_TASKS, t);
    if HasCredit(s) && !HasCredit(r) {
      CreditsLowerAt(s.tasks, r.tasks, MAX_TASKS, t, s.current);
    }
  }

  /** A switch to an eligible task within the period. */
  lemma SwitchInPeriod(w: Sched, t: nat, c: nat)
    requires Waits(w, t) && c < w.count && Eligible(w, c) && c != w.current && c != t
    requires w.tasks[t].credits > 0 ==> Distance(w, c) <= Distance(w, t)
    ensures Waits(Switched(w, c), t) && Potential(Switched(w, c), t) < Potential(w, t)
  {
    var x := w.tasks[w.current];
    var out := x.(state := if x.state == Running then Ready else x.state,
                  credits := if w.current != IDLE && x.credits > 0 then x.credits - 1 else x.credits);
    var a := SetTask(w, w.current, out);
    CreditsSet(w.tasks, MAX_TASKS, t, w.current, out);
    CreditsSet(a.tasks, MAX_TASKS, t, c, a.tasks[c].(state := Running));
  }

  /** A switch in a fresh period. */
  lemma SwitchInNewPeriod(w: Sched, t: nat, c: nat)
    requires Waits(w, t) && w.tasks[t].credits == 0 && c < w.count && c != w.current && c != t
      && Eligible(Refilled(w), c)
    requires Distance(w, c) <= Distance(w, t)
    ensures Waits(Switched(Refilled(w), c), t) && Potential(Switched(Refilled(w), c), t) < Potential(w, t)
  {
    SwitchInPeriod(Refilled(w), t, c);
    CreditsSet(w.tasks, MAX_TASKS, t, w.current, w.tasks[w.current].(credits := 0));
    assert Potential(Refilled(w), t) < MAX_TASKS <= Potential(w, t) + 1;
  }

  /** Waking others takes nothing from anybody. */
  lemma WakeWait(s: Sched, q: Sched, now: Tick, t: nat)
    requires Sized(s) && Waits(s, t) && q == s.(needResched := false)
    ensures Sized(q) && Waits(WakeAll(q, now), t) && Potential(WakeAll(q, now), t) == Potential(s, t)
  {
    var w := WakeAll(q, now);
    CreditsLower(q.tasks, w.tasks, MAX_TASKS, t);
    CreditsLower(w.tasks, q.tasks, MAX_TASKS, t);
  }

  lemma YieldWait(s: Sched, now: Tick, t: nat)
    requires Inv(s) && Waits(s, t) && Waits(Yielded(s, now), t)
    ensures var r := Yielded(s, now);
            Potential(r, t) + (if r.current != s.current then 1 else 0) <= Potential(s, t)
  {
    hide ScanFrom, WakeAll, Woken, CreditsBut, Potential;
    var q := s.(needResched := false);
    var w := WakeAll(q, now);
    WakeWait(s, q, now, t);
    var first := ScanFrom(w, 1);
    if first.Some? {
      if w.tasks[t].credits > 0 {
        ScanNearest(w, 1, t);
      }
      if first.value != s.current {
        assert first.value != t;
        SwitchInPeriod(w, t, first.value);
      }
    } else {
      if w.tasks[t].credits > 0 {
        ScanNearest(w, 1, t);
      }
      var f := Refilled(w);
      ScanNearest(f, 1, t);
      var c := ScanFrom(f, 1).value;
      if c != s.current {
        assert c != t;
        SwitchInNewPeriod(w, t, c);
      }
    }
  }

  lemma SpawnWait(s: Sched, waitable: bool, memory: bool, t: nat)
    requires Inv(s) && Waits(s, t) && Alive(s, s.current)
    ensures var r := Spawned(s, waitable, memory).0; Waits(r, t) && Potential(r, t) <= Potential(s, t) + 2
  {
    var i := FirstUnused(s, 0);
    if i < MAX_TASKS {
      CreditsSet(s.tasks, MAX_TASKS, t, i, Task(Ready, 0, 0, 0, 0, Slice(0), s.current, waitable, true));
    }
  }

  function IsSwitch(s: Sched, op: Op): nat
    requires Sized(s) && Enabled(s, op)
  {
    if Step(s, op).current != s.current then 1 else 0
  }

  function IsSpawn(op: Op): nat {
    if op.Spawn? then 1 else 0
  }

  /** Each switch uses up at least one unit of the potential, a new task adds at most two. */
  lemma StepWait(s: Sched, op: Op, t: nat)
    requires Inv(s) && Enabled(s, op) && Waits(s, t) && Waits(Step(s, op), t)
    ensures Potential(Step(s, op), t) + IsSwitch(s, op) <= Potential(s, t) + 2 * IsSpawn(op)
  {
    match op
    case Yield(now) => YieldWait(s, now, t);
    case Spawn(waitable, memory) => SpawnWait(s, waitable, memory, t);
    case Exit => ExitInv(s); PotentialShrinks(s, Exited(s), t);
    case _ => PotentialShrinks(s, Step(s, op), t);
  }

  // ---- runs ---------------------------------------------------------------------------------------

  ghost predicate Runnable(s: Sched, ops: seq<Op>)
    requires Sized(s)
    decreases |ops|
  {
    ops == [] || (Enabled(s, ops[0]) && Runnable(Step(s, ops[0]), ops[1..]))
  }

  ghost function Run(s: Sched, ops: seq<Op>): (r: Sched)
    requires Sized(s) && Runnable(s, ops)
    ensures Sized(r)
    decreases |ops|
  {
    if ops == [] then s else Run(Step(s, ops[0]), ops[1..])
  }

  ghost function Switches(s: Sched, ops: seq<Op>): nat
    requires Sized(s) && Runnable(s, ops)
    decreases |ops|
  {
    if ops == [] then 0 else IsSwitch(s, ops[0]) + Switches(Step(s, ops[0]), ops[1..])
  }

  ghost function Spawns(ops: seq<Op>): nat {
    if ops == [] then 0 else IsSpawn(ops[0]) + Spawns(ops[1..])
  }

  /** Task `t` stays ready and is never switched to. */
  ghost predicate KeepsWaiting(s: Sched, ops: seq<Op>, t: nat)
    requires Sized(s) && Runnable(s, ops)
    decreases |ops|
  {
    Waits(s, t) && (ops != [] ==> KeepsWaiting(Step(s, ops[0]), ops[1..], t))
  }

  /** The credits all tasks but idle have left. */
  function Outstanding(s: Sched): nat
    requires Sized(s)
  {
    CreditsBut(s.tasks, MAX_TASKS, IDLE)
  }

  lemma {:induction false} FewerCredits(tasks: seq<Task>, n: nat, t: nat)
    requires n <= |tasks|
    ensures CreditsBut(tasks, n, t) <= CreditsBut(tasks, n, IDLE)
  {
    if n > 0 {
      FewerCredits(tasks, n - 1, t);
    }
  }

  /** Bounded wait: while a task is ready and passed over, the number of switches is bounded by the credits
      outstanding plus the number of the other slots, and two more for each task spawned meanwhile. */
  lemma BoundedWait(s: Sched, ops: seq<Op>, t: nat)
    requires Inv(s) && Runnable(s, ops) && KeepsWaiting(s, ops, t)
    ensures Switches(s, ops) <= Outstanding(s) + MAX_TASKS - 1 + 2 * Spawns(ops)
  {
    WaitUsesPotential(s, ops, t);
    FewerCredits(s.tasks, MAX_TASKS, t);
  }

  lemma {:induction false} WaitUsesPotential(s: Sched, ops: seq<Op>, t: nat)
    requires Inv(s) && Runnable(s, ops) && KeepsWaiting(s, ops, t)
    ensures Switches(s, ops) <= Potential(s, t) + 2 * Spawns(ops)
    decreases |ops|
  {
    if ops != [] {
      StepInv(s, ops[0]);
      StepWait(s, ops[0], t);
      WaitUsesPotential(Step(s, ops[0]), ops[1..], t);
    }
  }

  // ---- no more than its share ---------------------------------------------------------------------

  /** A yield that starts a new period. */
  predicate Refills(s: Sched, op: Op)
    requires Sized(s) && Enabled(s, op)
  {
    op.Yield? && (ScanFrom(WakeAll(s.(needResched := false), op.now), 1).None?
      || (s.current != IDLE && Step(s, op).current == IDLE))
  }

  function TurnOf(s: Sched, op: Op, t: nat): nat
    requires Sized(s) && Enabled(s, op)
  {
    if Step(s, op).current == t && s.current != t then 1 else 0
  }

  /** How many turns `t` can still get in this period. */
  function TurnsLeft(s: Sched, t: nat): nat
    requires Sized(s) && t < MAX_TASKS
  {
    var c := s.tasks[t].credits;
    if s.current == t && c > 0 then c - 1 else c
  }

  ghost predicate InUse(s: Sched, t: nat)
    requires Sized(s)
  {
    IDLE < t < s.count && s.tasks[t].state != Unused
  }

  lemma TurnCosts(s: Sched, op: Op, t: nat)
    requires Inv(s) && Enabled(s, op) && InUse(s, t) && !Refills(s, op)
    ensures TurnsLeft(Step(s, op), t) + TurnOf(s, op, t) <= TurnsLeft(s, t)
  {
    match op
    case Exit => ExitInv(s);
    case Yield(now) => YieldCosts(s, now, t);
    case _ =>
  }

  lemma YieldCosts(s: Sched, now: Tick, t: nat)
    requires Inv(s) && InUse(s, t) && !Refills(s, Yield(now))
    ensures TurnsLeft(Yielded(s, now), t) + TurnOf(s, Yield(now), t) <= TurnsLeft(s, t)
  {
    hide Picked, WakeAll, Inv, ScanFrom, Switched, Slice;
    var q := s.(needResched := false);
    var (p, next) := Picked(q, now);
    PickedCredits(q, now, t);
    if next != p.current {
      SwitchedCredits(p, next, t);
    }
  }

  lemma NewPeriod(s: Sched, op: Op, t: nat)
    requires Inv(s) && Enabled(s, op) && InUse(s, t) && Refills(s, op)
    ensures TurnsLeft(Step(s, op), t) + TurnOf(s, op, t) <= Slice(s.tasks[t].nice)
  {
    hide Picked, WakeAll, Inv, ScanFrom, Switched, Slice;
    var q := s.(needResched := false);
    var (p, next) := Picked(q, op.now);
    PickedSlot(q, op.now, t);
    PickedCredits(q, op.now, t);
    if next != p.current {
      SwitchedCredits(p, next, t);
    }
  }

  lemma PickedCredits(s: Sched, now: Tick, t: nat)
    requires Sized(s) && t < s.count
    ensures var first := ScanFrom(WakeAll(s, now), 1);
            && Picked(s, now).0.tasks[t].credits == (if first.None? then Slice(s.tasks[t].nice) else s.tasks[t].credits)
            && (first.Some? ==>
               Picked(s, now).1 == first.value && WakeAll(s, now).tasks[first.value].credits > 0 && first.value != IDLE)
            && WakeAll(s, now).tasks[t].credits == s.tasks[t].credits
  {
  }

  lemma SwitchedCredits(s: Sched, next: nat, t: nat)
    requires Sized(s) && next < s.count && next != s.current && IDLE < t < s.count
    ensures Switched(s, next).current == next
    ensures var c, d := s.tasks[t].credits, Switched(s, next).tasks[t].credits;
            d == if next == IDLE then Slice(s.tasks[t].nice) else if t == s.current && c > 0 then c - 1 else c
  {
  }

  ghost function Turns(s: Sched, ops: seq<Op>, t: nat): nat
    requires Sized(s) && Runnable(s, ops)
    decreases |ops|
  {
    if ops == [] then 0 else TurnOf(s, ops[0], t) + Turns(Step(s, ops[0]), ops[1..], t)
  }

  /** No new period begins, and the slot stays with its task. */
  ghost predicate SamePeriod(s: Sched, ops: seq<Op>, t: nat)
    requires Sized(s) && Runnable(s, ops)
    decreases |ops|
  {
    InUse(s, t) && (ops != [] ==> !Refills(s, ops[0]) && SamePeriod(Step(s, ops[0]), ops[1..], t))
  }

  lemma {:induction false} TurnsBounded(s: Sched, ops: seq<Op>, t: nat)
    requires Inv(s) && Runnable(s, ops) && SamePeriod(s, ops, t)
    ensures Turns(s, ops, t) <= TurnsLeft(s, t)
    decreases |ops|
  {
    if ops != [] {
      StepInv(s, ops[0]);
      TurnCosts(s, ops[0], t);
      TurnsBounded(Step(s, ops[0]), ops[1..], t);
    }
  }

  /** From one refill to the next a task gets at most as many turns as its `nice` at the refill gives. */
  lemma ShareInPeriod(s: Sched, refill: Op, ops: seq<Op>, t: nat)
    requires Inv(s) && Enabled(s, refill) && Refills(s, refill) && InUse(s, t)
    requires Runnable(Step(s, refill), ops) && SamePeriod(Step(s, refill), ops, t)
    ensures TurnOf(s, refill, t) + Turns(Step(s, refill), ops, t) <= Slice(s.tasks[t].nice)
  {
    StepInv(s, refill);
    NewPeriod(s, refill, t);
    TurnsBounded(Step(s, refill), ops, t);
  }

  // ---- children -----------------------------------------------------------------------------------

  /** A finished child whose exit code nobody has collected. */
  ghost predicate Zombie(s: Sched, c: nat)
    requires Sized(s)
  {
    c < s.count && s.tasks[c].state == Terminated && s.tasks[c].waitable
  }

  ghost predicate SameChild(a: Task, b: Task) {
    a.state == b.state && a.exitCode == b.exitCode && a.parent == b.parent && a.waitable == b.waitable
  }

  lemma ZombieStep(s: Sched, op: Op, c: nat)
    requires Inv(s) && Enabled(s, op) && Zombie(s, c) && Alive(s, s.tasks[c].parent)
      && Alive(Step(s, op), s.tasks[c].parent)
    requires op != Collect(c)
    ensures Zombie(Step(s, op), c) && SameChild(s.tasks[c], Step(s, op).tasks[c])
  {
    match op
    case Exit =>
      var t := s.tasks[s.current].(state := Terminated);
      ReapedSpec(SetTask(s, s.current, if t.waitable then t else Released(t)), 0);
    case Yield(now) => ZombieYield(s, now, c);
    case _ =>
  }

  /** What picking does to a slot: it may wake it and refresh its credits. */
  lemma PickedSlot(s: Sched, now: Tick, i: nat)
    requires Sized(s) && i < s.count
    ensures var t := Picked(s, now).0.tasks[i]; t == Woken(s.tasks, now, i).(credits := t.credits)
  {
  }

  /** What the switch does to a slot. */
  lemma SwitchedSlot(s: Sched, next: nat, i: nat)
    requires Sized(s) && next < s.count && next != s.current && i < s.count
    ensures var t := Switched(s, next).tasks[i];
            t == s.tasks[i].(credits := t.credits,
                             state := if i == next then Running
                                      else if i == s.current && s.tasks[i].state == Running then Ready
                                      else s.tasks[i].state)
  {
  }

  /** What `yield_now` does to the state of a slot. */
  lemma YieldedSlot(s: Sched, now: Tick, i: nat)
    requires Inv(s) && i < s.count
    ensures var t, w := Yielded(s, now).tasks[i], Woken(s.tasks, now, i);
            && t == w.(credits := t.credits, state := t.state)
            && (t.state == w.state || (w.state in {Ready, Running} && t.state in {Ready, Running}))
  {
    var q := s.(needResched := false);
    PickedInv(q, now);
    PickedSlot(q, now, i);
    var (p, next) := Picked(q, now);
    if next != s.current {
      SwitchedSlot(p, next, i);
    }
  }

  lemma ZombieYield(s: Sched, now: Tick, c: nat)
    requires Inv(s) && Zombie(s, c)
    ensures Zombie(Yielded(s, now), c) && SameChild(s.tasks[c], Yielded(s, now).tasks[c])
  {
    YieldedSlot(s, now, c);
  }

  /** The parent lives all along and nobody collects the child. */
  ghost predicate Uncollected(s: Sched, ops: seq<Op>, c: nat, parent: nat)
    requires Sized(s) && Runnable(s, ops)
    decreases |ops|
  {
    Alive(s, parent) && (ops != [] ==> ops[0] != Collect(c) && Uncollected(Step(s, ops[0]), ops[1..], c, parent))
  }

  /** A finished child's slot and exit code stay until it is collected, as long as its parent lives. */
  lemma {:induction false} ZombieKept(s: Sched, ops: seq<Op>, c: nat)
    requires Inv(s) && Zombie(s, c) && Runnable(s, ops) && Uncollected(s, ops, c, s.tasks[c].parent)
    ensures Zombie(Run(s, ops), c) && SameChild(s.tasks[c], Run(s, ops).tasks[c])
    decreases |ops|
  {
    if ops != [] {
      StepInv(s, ops[0]);
      ZombieStep(s, ops[0], c);
      ZombieKept(Step(s, ops[0]), ops[1..], c);
    }
  }

  /** A task waiting for another leaves the waiting state at the next switch point exactly when the other
      has finished and still holds its slot. */
  lemma WaiterWoken(s: Sched, now: Tick, p: nat)
    requires Inv(s) && p < s.count && s.tasks[p].state == Waiting
    ensures Yielded(s, now).tasks[p].state == Waiting <==> s.tasks[s.tasks[p].waitFor - 1].state != Terminated
    ensures Yielded(s, now).tasks[p].state in {Waiting, Ready, Running}
  {
    YieldedSlot(s, now, p);
  }

  /** Task `p` waits for task `i`. */
  predicate WaitsFor(s: Sched, p: nat, i: nat)
    requires Sized(s)
  {
    p < s.count && i < s.count && p != i && s.tasks[p].state == Waiting && s.tasks[p].waitFor == i + 1
  }

  /** Whether who waits for the current task is woken by its exit: exactly if the task is waitable and its
      parent lives on, because otherwise its slot is given back at once. */
  lemma ExitWakesWaiter(s: Sched, now: Tick, p: nat)
    requires Inv(s) && Enabled(s, Exit) && WaitsFor(s, p, s.current)
    ensures Inv(Exited(s)) && Exited(s).tasks[p] == s.tasks[p]
    ensures var t := s.tasks[s.current];
            Yielded(Exited(s), now).tasks[p].state != Waiting <==>
              t.waitable && t.parent != s.current && Alive(s, t.parent)
  {
    ExitInv(s);
    var t := s.tasks[s.current].(state := Terminated);
    ReapedSpec(SetTask(s, s.current, if t.waitable then t else Released(t)), 0);
    WaiterWoken(Exited(s), now, p);
  }

  /** Whether who waits for a task is woken when it is killed: exactly if the task is waitable. */
  lemma KillWakesWaiter(s: Sched, now: Tick, p: nat, i: nat)
    requires Inv(s) && WaitsFor(s, p, i) && Killed(s, i).1.None?
    ensures Inv(Killed(s, i).0) && Killed(s, i).0.tasks[p] == s.tasks[p]
    ensures Yielded(Killed(s, i).0, now).tasks[p].state != Waiting <==> s.tasks[i].waitable
  {
    WaiterWoken(Killed(s, i).0, now, p);
  }

  /** A child of idle that is waited for by a task that is not its parent. */
  function Adopted(waitable: bool, parent: nat): (s: Sched)
    requires parent < MAX_TASKS
    ensures Sized(s)
  {
    var idle := EmptyTask().(state := Ready);
    var waiter := EmptyTask().(state := Waiting, waitFor := 3);
    var child := EmptyTask().(state := Running, waitable := waitable, parent := parent);
    Sched([idle, waiter, child, EmptyTask(), EmptyTask(), EmptyTask(), EmptyTask(), EmptyTask()], 2, 3, false)
  }

  /** Two tables in which the end of task 2 leaves task 1 waiting for it: task 2 is not waitable, or it is and
      its parent, slot 3, is gone. */
  lemma WaitersNotWoken(now: Tick)
    ensures var a, b := Adopted(false, IDLE), Adopted(true, 3);
            && Inv(a) && WaitsFor(a, 1, 2) && Enabled(a, Exit) && Yielded(Exited(a), now).tasks[1].state == Waiting
            && Inv(b) && WaitsFor(b, 1, 2) && Enabled(b, Exit) && Yielded(Exited(b), now).tasks[1].state == Waiting
  {
    hide Yielded, Exited;
    ExitWakesWaiter(Adopted(false, IDLE), now, 1);
    ExitWakesWaiter(Adopted(true, 3), now, 1);
  }
}

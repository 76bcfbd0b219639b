/** The scheduler (kernel/src/level0a/core/scheduler.rs): the task table as a value, and what one
    uninterruptible stretch of its code does to it. */
module Scheduler {
  import opened Basics

  const MAX_TASKS: nat := 8
  const IDLE: nat := 0

  datatype TaskState = Unused | Ready | Running | Blocked | Waiting | IoWait | Terminated

  type Tick = x: int | 0 <= x < 0x1_0000_0000

  /** `waitFor` is the awaited slot plus one; `stack` says that the slot has its stacks already. */
  datatype Task = Task(state: TaskState, wakeTick: Tick, waitFor: nat, exitCode: Tick, nice: int, credits: nat,
                       parent: nat, waitable: bool, stack: bool)

  function EmptyTask(): Task {
    Task(Unused, 0, 0, 0, 0, 0, 0, false, false)
  }

  datatype Sched = Sched(tasks: seq<Task>, current: nat, count: nat, needResched: bool)

  predicate Sized(s: Sched) {
    |s.tasks| == MAX_TASKS && s.current < s.count <= MAX_TASKS
  }

  /** `slice_ticks` */
  function Slice(nice: int): (n: nat)
    ensures 1 <= n <= 8
  {
    if nice <= -10 then 8 else if nice <= -1 then 4 else if nice <= 4 then 2 else 1
  }

  function SetTask(s: Sched, i: nat, t: Task): Sched
    requires i < |s.tasks|
  {
    s.(tasks := s.tasks[i := t])
  }

  // ---- picking ------------------------------------------------------------------------------------

  /** The tick counter may wrap around: what counts is the difference. */
  predicate Expired(now: Tick, wake: Tick) {
    (now - wake) % 0x1_0000_0000 < 0x8000_0000
  }

  /** One slot as `wake_expired` leaves it. */
  function Woken(tasks: seq<Task>, now: Tick, i: nat): Task
    requires i < |tasks|
  {
    var t := tasks[i];
    if t.state == Blocked && Expired(now, t.wakeTick) then t.(state := Ready)
    else if t.state == Waiting && 0 < t.waitFor <= |tasks| && tasks[t.waitFor - 1].state == Terminated then
      t.(state := Ready, waitFor := 0)
    else t
  }

  function WakeAll(s: Sched, now: Tick): (r: Sched)
    requires Sized(s)
    ensures Sized(r)
    ensures forall i {:trigger r.tasks[i]} :: 0 <= i < MAX_TASKS ==>
      r.tasks[i] == if i < s.count then Woken(s.tasks, now, i) else s.tasks[i]
  {
    s.(tasks := seq(MAX_TASKS, i requires 0 <= i < MAX_TASKS =>
      if i < s.count then Woken(s.tasks, now, i) else s.tasks[i]))
  }

  /** `refill_credits`: what was not used is forfeited. */
  function Refilled(s: Sched): (r: Sched)
    requires Sized(s)
    ensures Sized(r)
    ensures forall i {:trigger r.tasks[i]} :: 0 <= i < MAX_TASKS ==>
              r.tasks[i] == if i < s.count then s.tasks[i].(credits := Slice(s.tasks[i].nice)) else s.tasks[i]
  {
    s.(tasks := seq(MAX_TASKS, i requires 0 <= i < MAX_TASKS =>
      if i < s.count then s.tasks[i].(credits := Slice(s.tasks[i].nice)) else s.tasks[i]))
  }

  predicate Eligible(s: Sched, i: nat)
    requires i < |s.tasks|
  {
    s.tasks[i].state == Ready && i != IDLE && s.tasks[i].credits > 0
  }

  /** The scan of `pick_next` from offset `d` on. */
  function ScanFrom(s: Sched, d: nat): (r: Option<nat>)
    requires Sized(s) && 1 <= d
    ensures r.Some? ==> r.value < s.count && Eligible(s, r.value)
    decreases s.count + 1 - d
  {
    if d > s.count then None
    else if Eligible(s, (s.current + d) % s.count) then Some((s.current + d) % s.count)
    else ScanFrom(s, d + 1)
  }

  /** `pick_next`: the first eligible task after the current one, if need be in a new period; then the
      current one; then idle. */
  function Picked(s: Sched, now: Tick): (r: (Sched, nat))
    requires Sized(s)
    ensures Sized(r.0) && r.1 < r.0.count && r.0.current == s.current && r.0.count == s.count
  {
    var w := WakeAll(s, now);
    var first := ScanFrom(w, 1);
    if first.Some? then (w, first.value)
    else
      var f := Refilled(w);
      var second := ScanFrom(f, 1);
      if second.Some? then (f, second.value)
      else
        var t := f.tasks[f.current];
        if f.current != IDLE && t.state == Running && t.credits > 0 then (f, f.current)
        else if f.tasks[IDLE].state == Ready || f.tasks[IDLE].state == Running then (f, IDLE)
        else (f, f.current)
  }

  /** `yield_now`: picking, and the switch. */
  function Switched(s: Sched, next: nat): (r: Sched)
    requires Sized(s) && next < s.count && next != s.current
    ensures Sized(r)
  {
    var t := s.tasks[s.current];
    var out := t.(state := if t.state == Running then Ready else t.state,
                  credits := if s.current != IDLE && t.credits > 0 then t.credits - 1 else t.credits);
    var a := SetTask(s, s.current, out);
    var b := if next == IDLE then Refilled(a) else a;
    SetTask(b, next, b.tasks[next].(state := Running)).(current := next)
  }

  function Yielded(s: Sched, now: Tick): (r: Sched)
    requires Sized(s)
    ensures Sized(r)
  {
    var (p, next) := Picked(s.(needResched := false), now);
    if next == s.current then p else Switched(p, next)
  }

  // ---- the other steps ----------------------------------------------------------------------------

  function FirstUnused(s: Sched, i: nat): (r: nat)
    requires Sized(s) && i <= s.count
    ensures i <= r <= s.count
    ensures r < s.count ==> s.tasks[r].state == Unused
    ensures forall j :: i <= j < r ==> s.tasks[j].state != Unused
    decreases s.count - i
  {
    if i == s.count || s.tasks[i].state == Unused then i else FirstUnused(s, i + 1)
  }

  /** `spawn_inner`: a slot used before keeps its stacks, a fresh one needs memory for them; the count
      has grown by then. */
  function Spawned(s: Sched, waitable: bool, memory: bool): (r: (Sched, Option<nat>))
    requires Sized(s)
    ensures Sized(r.0)
  {
    var i := FirstUnused(s, 0);
    if i == MAX_TASKS then (s, None)
    else
      var g := if i == s.count then s.(count := s.count + 1) else s;
      if !s.tasks[i].stack && !memory then (g, None)
      else (SetTask(g, i, Task(Ready, 0, 0, 0, 0, Slice(0), s.current, waitable, true)), Some(i))
  }

  /** `release_slot` */
  function Released(t: Task): Task {
    t.(state := Unused, waitable := false, waitFor := 0, credits := 0)
  }

  predicate Alive(s: Sched, i: nat)
    requires Sized(s)
  {
    i < s.count && s.tasks[i].state != Unused && s.tasks[i].state != Terminated
  }

  predicate Orphan(s: Sched, i: nat)
    requires Sized(s) && i < MAX_TASKS
  {
    i < s.count && s.tasks[i].state == Terminated && s.tasks[i].waitable && !Alive(s, s.tasks[i].parent)
  }

  /** `reap_orphans`: one pass over the table as it changes. */
  function ReapedFrom(s: Sched, i: nat): (r: Sched)
    requires Sized(s) && i <= s.count
    ensures Sized(r)
    decreases s.count - i
  {
    if i == s.count then s
    else ReapedFrom(if Orphan(s, i) then SetTask(s, i, Released(s.tasks[i])) else s, i + 1)
  }

  /** The uninterruptible part of `terminate_current`. */
  function Exited(s: Sched): (r: Sched)
    requires Sized(s)
    ensures Sized(r)
  {
    var t := s.tasks[s.current].(state := Terminated);
    ReapedFrom(SetTask(s, s.current, if t.waitable then t else Released(t)), 0)
  }

  datatype Refusal = IsIdle | BadIndex | IsCurrent | NoTask | AlreadyDone

  /** `terminate` */
  function Killed(s: Sched, i: nat): (r: (Sched, Option<Refusal>))
    requires Sized(s)
    ensures Sized(r.0)
  {
    if i == IDLE then (s, Some(IsIdle))
    else if i >= MAX_TASKS then (s, Some(BadIndex))
    else if i == s.current then (s, Some(IsCurrent))
    else if s.tasks[i].state == Unused then (s, Some(NoTask))
    else if s.tasks[i].state == Terminated then (s, Some(AlreadyDone))
    else
      var t := s.tasks[i].(state := Terminated);
      (SetTask(s, i, if t.waitable then t else Released(t)), None)
  }

  /** `on_timer_tick` */
  function Ticked(s: Sched): (r: Sched)
    requires Sized(s)
    ensures Sized(r)
  {
    var t := s.tasks[s.current];
    if t.credits > 1 then SetTask(s, s.current, t.(credits := t.credits - 1))
    else SetTask(s, s.current, t.(credits := 0)).(needResched := true)
  }

  /** `wake_io_waiters` */
  function IoWoken(s: Sched): (r: Sched)
    requires Sized(s)
    ensures Sized(r)
  {
    s.(tasks := seq(MAX_TASKS, i requires 0 <= i < MAX_TASKS =>
      if i < s.count && s.tasks[i].state == IoWait then s.tasks[i].(state := Ready) else s.tasks[i]))
  }

  /** The first finished child of `parent` from slot `i` on. */
  function FinishedChild(s: Sched, parent: nat, i: nat): (r: Option<nat>)
    requires Sized(s) && i <= s.count
    ensures r.Some? ==>
      i <= r.value < s.count && r.value != parent && s.tasks[r.value].parent == parent
        && s.tasks[r.value].state == Terminated
    ensures forall j :: i <= j < (if r.Some? then r.value else s.count) && j != parent ==>
      s.tasks[j].parent != parent || s.tasks[j].state != Terminated
    decreases s.count - i
  {
    if i == s.count then None
    else if i != parent && s.tasks[i].parent == parent && s.tasks[i].state == Terminated then Some(i)
    else FinishedChild(s, parent, i + 1)
  }

  // ---- steps --------------------------------------------------------------------------------------

  /** One uninterruptible stretch: a call of the current task, or an interrupt. */
  datatype Op =
    | Spawn(waitable: bool, memory: bool)
    | TimerTick
    | SetNice(i: nat, nice: int)
    | Yield(now: Tick)
    | Sleep(wake: Tick)
    | AwaitIo
    | IoInterrupt
    | Resume
    | AwaitTask(child: nat)
    | Collect(child: nat)
    | Kill(i: nat)
    | Exit
    | SetExitCode(code: Tick)

  function Clamp(v: int): int {
    if v < -20 then -20 else if v > 19 then 19 else v
  }

  /** Who makes which step: a dead task only yields, idle never blocks or ends, and a child is collected
      when it has finished. A task starts to wait for a slot in use some time after it has looked at it, so
      that whatever was there may have gone. */
  predicate Enabled(s: Sched, op: Op)
    requires Sized(s)
  {
    match op
    case Yield(_) => true
    case TimerTick => true
    case IoInterrupt => true
    case Spawn(_, _) => Alive(s, s.current)
    case SetNice(_, _) => Alive(s, s.current)
    case Kill(_) => Alive(s, s.current)
    case SetExitCode(_) => Alive(s, s.current)
    case Sleep(_) => Alive(s, s.current) && s.current != IDLE
    case AwaitIo => Alive(s, s.current) && s.current != IDLE
    case Resume => Alive(s, s.current) && s.current != IDLE
    case Exit => Alive(s, s.current) && s.current != IDLE
    case AwaitTask(c) => Alive(s, s.current) && s.current != IDLE && c != s.current && c < s.count
    case Collect(c) => Alive(s, s.current) && c != s.current && c < s.count && s.tasks[c].state == Terminated
  }

  function Step(s: Sched, op: Op): (r: Sched)
    requires Sized(s) && Enabled(s, op)
    ensures Sized(r)
  {
    var me := s.tasks[s.current];
    match op
    case Spawn(waitable, memory) => Spawned(s, waitable, memory).0
    case TimerTick => Ticked(s)
    case SetNice(i, nice) =>
      if i < MAX_TASKS && s.tasks[i].state != Unused then SetTask(s, i, s.tasks[i].(nice := Clamp(nice))) else s
    case Yield(now) => Yielded(s, now)
    case Sleep(wake) => SetTask(s, s.current, me.(wakeTick := wake, state := Blocked))
    case AwaitIo => SetTask(s, s.current, me.(state := IoWait))
    case IoInterrupt => IoWoken(s)
    case Resume => SetTask(s, s.current, me.(state := Running))
    case AwaitTask(child) => SetTask(s, s.current, me.(waitFor := child + 1, state := Waiting))
    case Collect(child) => SetTask(s, child, Released(s.tasks[child]))
    case Kill(i) => Killed(s, i).0
    case Exit => Exited(s)
    case SetExitCode(code) => SetTask(s, s.current, me.(exitCode := code))
  }

  /** The table `init` leaves. */
  function Boot(): (s: Sched)
    ensures Sized(s)
    ensures forall i {:trigger s.tasks[i]} :: 0 <= i < MAX_TASKS ==>
      s.tasks[i] == if i == IDLE then EmptyTask().(state := Running) else EmptyTask()
  {
    Sched(seq(MAX_TASKS, i requires 0 <= i < MAX_TASKS =>
      if i == IDLE then EmptyTask().(state := Running) else EmptyTask()), IDLE, 1, false)
  }
}

/** Runs of signals, system calls and returns, and the code that keeps a process's signal state. */
module SignalRuns {
  import opened Basics
  import opened Signals

  // ---- runs ---------------------------------------------------------------------------------------

  /** A signal is sent, a handler is set, or the program, after running and writing memory as it likes,
      makes a system call: `frame` is the call's frame when it is about to return. */
  datatype Op =
    | Raise(signo: nat, itself: bool)
    | SetHandler(signo: nat, handler: nat, restorer: nat)
    | Call(frame: Frame, memory: Memory)
    | SigReturn(frame: Frame, memory: Memory)

  ghost predicate Enabled(p: Proc, op: Op) {
    && p.ended.None?
    && (op.Call? || op.SigReturn? ==> ArchOf(op.frame) == p.arch)
  }

  /** `set_return(-EINVAL)` */
  function Refused(f: Frame): Frame {
    if f.F32? then f.(eax := Wide(I386) - 22) else f.(rax := Wide(X8664) - 22)
  }

  ghost predicate Inv(p: Proc) {
    Sized(p) && FromTrap(p.arch, p.saved)
  }

  /** One step: the process, the context it goes on with, if it does, and what was delivered. */
  ghost function Step(p: Proc, op: Op): (r: (Proc, Option<Context>, Outcome))
    requires Inv(p) && Enabled(p, op)
    ensures Sized(r.0) && r.0.arch == p.arch
  {
    match op
    case Raise(n, itself) => (Raised(p, n, itself).0, None, Quiet)
    case SetHandler(n, h, s) => (HandlerSet(p, n, h, s).0, None, Quiet)
    case Call(f, m) => Resumed(Delivered(p.(memory := m), f))
    case SigReturn(f, m) =>
      var (q, g, ok) := Returned(p.(memory := m), f);
      Resumed(Delivered(q, if ok then g else Refused(g)))
  }

  function Resumed(d: (Proc, Frame, Outcome)): (Proc, Option<Context>, Outcome) {
    (d.0, if d.0.ended.None? then Some(UserContext(d.1)) else None, d.2)
  }

  /** Of the pending signals those up to `n` are gone. */
  ghost predicate UpTo(p: Proc, q: Proc, n: nat)
    requires Sized(p) && Sized(q)
  {
    forall m :: 0 <= m <= MAX_SIGNAL ==> q.pending[m] == (m > n && p.pending[m])
  }

  /** A delivery by process `p` about to return to frame `f` has led to `q`, `g` and `o`: nothing, or the
      hand-over of the lowest pending signal that is not ignored. */
  ghost predicate DeliveryFits(p: Proc, f: Frame, q: Proc, g: Frame, o: Outcome)
    requires Sized(p) && ArchOf(f) == p.arch
  {
    && Inv(q) && q.dispositions == p.dispositions
    && (forall n :: 0 <= n <= MAX_SIGNAL && q.pending[n] ==> p.pending[n])
    && (forall n :: 0 <= n <= MAX_SIGNAL && p.pending[n] && !q.pending[n] ==>
         o == Handles(n) || o == Ends(n) || p.dispositions[n].handler == SIG_IGN)
    && match o
       case Quiet => q == p.(pending := q.pending) && g == f && forall n :: 0 <= n <= MAX_SIGNAL ==> !q.pending[n]
       case Handles(n) =>
         && n <= MAX_SIGNAL && p.pending[n] && UpTo(p, q, n)
         && (p.ended.None? ==> q.ended.None?) && q.inHandler && q.saved == UserContext(f)
         && var d := p.dispositions[n];
            d.handler != SIG_DFL && d.handler != SIG_IGN
              && Built(UserContext(f), p.memory, n, d.handler, d.restorer).Some?
            && g == WithContext(f, Built(UserContext(f), p.memory, n, d.handler, d.restorer).value.0)
            && q.memory == Built(UserContext(f), p.memory, n, d.handler, d.restorer).value.1
       case Ends(n) =>
         && n <= MAX_SIGNAL && p.pending[n] && UpTo(p, q, n) && g == f
         && q.ended == Some(128 + n) && q.inHandler == p.inHandler && q.memory == p.memory
         && var d := p.dispositions[n];
            d.handler == SIG_DFL
              || (d.handler != SIG_IGN && Built(UserContext(f), p.memory, n, d.handler, d.restorer).None?)
  }

  /** What the loop of `deliver_pending` does. */
  lemma {:induction false} DeliveredSpec(p: Proc, f: Frame)
    requires Inv(p) && ArchOf(f) == p.arch
    ensures var (q, g, o) := DeliveredFrom(p, f); DeliveryFits(p, f, q, g, o)
    decreases |p.pending| - Lowest(p.pending, 0)
  {
    hide Built, WithContext, UserContext, DeliveryFits;
    var n := Lowest(p.pending, 0);
    if n < |p.pending| && p.dispositions[n].handler == SIG_IGN {
      LowestGrows(p.pending, n);
      var rest := p.(pending := p.pending[n := false]);
      DeliveredSpec(rest, f);
      var (q, g, o) := DeliveredFrom(rest, f);
      IgnoredDropped(p, f, n, q, g, o);
    } else {
      FirstFits(p, f);
    }
  }

  /** Nothing is pending, or the lowest pending signal is not ignored. */
  lemma FirstFits(p: Proc, f: Frame)
    requires Inv(p) && ArchOf(f) == p.arch
    requires var n := Lowest(p.pending, 0); n == |p.pending| || p.dispositions[n].handler != SIG_IGN
    ensures var (q, g, o) := DeliveredFrom(p, f); DeliveryFits(p, f, q, g, o)
  {
    hide Built, WithContext, UserContext, FromTrap;
    ContextOfFrame(f);
    var n := Lowest(p.pending, 0);
    if n < |p.pending| {
      assert UpTo(p, p.(pending := p.pending[n := false]), n);
      hide DeliveredFrom;
      FirstUnfolds(p, f);
    }
  }

  lemma FirstUnfolds(p: Proc, f: Frame)
    requires Inv(p) && ArchOf(f) == p.arch
    requires var n := Lowest(p.pending, 0); n < |p.pending| && p.dispositions[n].handler != SIG_IGN
    ensures var n, c := Lowest(p.pending, 0), UserContext(f);
            var q, d := p.(pending := p.pending[n := false]), p.dispositions[n];
            && c.C32? == f.F32?
            && DeliveredFrom(p, f) ==
               if d.handler == SIG_DFL then (q.(ended := Some(128 + n)), f, Ends(n))
               else
                 match Built(c, p.memory, n, d.handler, d.restorer)
                 case None => (q.(saved := c, ended := Some(128 + n)), f, Ends(n))
                 case Some((h, m)) => (q.(saved := c, inHandler := true, memory := m), WithContext(f, h), Handles(n))
  {
  }

  /** Dropping an ignored signal first makes no difference to what fits. */
  lemma IgnoredDropped(p: Proc, f: Frame, n: nat, q: Proc, g: Frame, o: Outcome)
    requires Inv(p) && ArchOf(f) == p.arch && n == Lowest(p.pending, 0) <= MAX_SIGNAL
      && p.dispositions[n].handler == SIG_IGN
    requires DeliveryFits(p.(pending := p.pending[n := false]), f, q, g, o)
    ensures DeliveryFits(p, f, q, g, o)
  {
  }

  lemma DeliveredInv(p: Proc, f: Frame)
    requires Inv(p) && ArchOf(f) == p.arch
    ensures Inv(DeliveredFrom(p, f).0)
  {
    DeliveredSpec(p, f);
  }

  // ---- what a delivery does -----------------------------------------------------------------------

  ghost predicate AllIgnored(p: Proc)
    requires Sized(p)
  {
    forall n :: 0 <= n <= MAX_SIGNAL && p.pending[n] ==> p.dispositions[n].handler == SIG_IGN
  }

  /** Signal `n` is the lowest pending one that is not ignored. */
  ghost predicate IsNext(p: Proc, n: nat)
    requires Sized(p)
  {
    && n <= MAX_SIGNAL && p.pending[n] && p.dispositions[n].handler != SIG_IGN
    && forall k :: 0 <= k < n && p.pending[k] ==> p.dispositions[k].handler == SIG_IGN
  }

  /** Address `s` is the highest below the stack pointer, on x86_64 below the red zone, at which a function
      expects its return address: on i386 with room for one argument, with the argument aligned; on x86_64
      with the place above the return address aligned. */
  predicate FramePlace(c: Context, s: nat) {
    if c.C32? then s % 16 == 12 && s + 4 <= c.esp - 8 < s + 20
    else s % 16 == 8 && s + 8 <= c.rsp - RED_ZONE < s + 24
  }

  lemma FrameAtIs(c: Context, s: nat)
    requires StackPointer(c) < Wide(if c.C32? then I386 else X8664) && s < 0x8000_0000
    ensures FrameAt(c) == s <==> FramePlace(c, s)
  {
    if c.C32? {
      PlaceIs(I386, c.esp, 8, 4, s);
    } else {
      PlaceIs(X8664, c.rsp, RED_ZONE, 8, s);
    }
  }

  lemma PlaceIs(arch: Arch, sp: nat, a: nat, b: nat, s: nat)
    requires sp < Wide(arch) && a <= 128 && (b == 4 || b == 8) && s < 0x8000_0000
    ensures Minus(arch, AlignedDown(Minus(arch, sp, a)), b) == s
       <==> s % 16 == 16 - b && s + b <= sp - a < s + b + 16
  {
    var x := Minus(arch, sp, a);
    AlignedIs(x, s + b);
    AlignedIs(x, AlignedDown(x));
    assert s % 16 == 16 - b <==> (s + b) % 16 == 0;
    hide AlignedDown;
    var y := AlignedDown(x);
    assert sp < a ==> y > 0x9000_0000;
    assert 0 < y ==> y >= 16;
  }

  lemma AlignedIs(x: nat, y: nat)
    ensures y == AlignedDown(x) <==> y % 16 == 0 && y <= x < y + 16
  {
  }

  /** The eight bytes of a frame that fits into memory. */
  ghost predicate FrameFits(c: Context, m: Memory, s: nat) {
    FramePlace(c, s) && forall a :: s <= a < s + 8 ==> a in m
  }

  lemma BuiltIff(c: Context, m: Memory, signo: nat, handler: nat, restorer: nat)
    requires UserMemory(m) && StackPointer(c) < Wide(if c.C32? then I386 else X8664)
    ensures Built(c, m, signo, handler, restorer).Some? ==> FrameFits(c, m, FrameAt(c))
    ensures forall s: nat :: FrameFits(c, m, s) ==> s == FrameAt(c) && Built(c, m, signo, handler, restorer).Some?
  {
    hide Stored, FrameAt, FramePlace;
    if Built(c, m, signo, handler, restorer).Some? {
      FrameOnPages(m, FrameAt(c));
      FrameAtIs(c, FrameAt(c));
    }
    forall s: nat | FrameFits(c, m, s) ensures s == FrameAt(c) && Built(c, m, signo, handler, restorer).Some? {
      assert s in m && s + 7 in m;
      FrameAtIs(c, s);
    }
  }

  /** The handler of signal `n` is about to run with its frame at `s`: it returns to the restorer, it is told
      the signal, and of memory only the frame has changed. */
  ghost predicate Entered(p: Proc, f: Frame, q: Proc, c: Context, n: nat, s: nat)
    requires Sized(p) && Sized(q) && n <= MAX_SIGNAL
  {
    var d := p.dispositions[n];
    && q.ended.None? && q.inHandler && q.saved == UserContext(f)
    && InstructionPointer(c) == d.handler && StackPointer(c) == s && c.C32? == f.F32?
    && (if c.C32? then Loaded(q.memory, s, 4) == d.restorer % Wide(I386) && Loaded(q.memory, s + 4, 4) == n
        else Loaded(q.memory, s, 8) == d.restorer % Wide(X8664) && c.rdi == n)
    && q.memory.Keys == p.memory.Keys
    && forall a :: a in p.memory && !(s <= a < s + 8) ==> q.memory[a] == p.memory[a]
  }

  /** Signal `n` ends the process. */
  ghost predicate EndedBy(p: Proc, q: Proc, o: Outcome, n: nat) {
    o == Ends(n) && q.ended == Some(128 + n) && q.memory == p.memory && q.inHandler == p.inHandler
  }

  /** All that one delivery does. Nothing outside user mode and inside a handler. Otherwise, if every pending
      signal is ignored, none is left pending; and the lowest one that is not is handled if it has a handler
      and there is a place for its frame, and ends the process if not. */
  ghost predicate Answers(p: Proc, f: Frame, q: Proc, g: Frame, o: Outcome)
    requires Sized(p) && Sized(q) && ArchOf(f) == p.arch
  {
    if !p.userMode || p.inHandler then o == Quiet && q == p && g == f
    else
      && (AllIgnored(p) ==>
            o == Quiet && g == f && q == p.(pending := q.pending) && forall n :: 0 <= n <= MAX_SIGNAL ==> !q.pending[n])
      && forall n: nat :: IsNext(p, n) ==>
           && UpTo(p, q, n) && q.dispositions == p.dispositions
           && (p.dispositions[n].handler == SIG_DFL || (forall s: nat :: !FrameFits(UserContext(f), p.memory, s)) ==>
                 EndedBy(p, q, o, n))
           && (p.dispositions[n].handler != SIG_DFL ==>
                 forall s: nat :: FrameFits(UserContext(f), p.memory, s) ==>
                   o == Handles(n) && Entered(p, f, q, UserContext(g), n, s))
  }

  ghost predicate WellPlaced(p: Proc, f: Frame) {
    ArchOf(f) == p.arch && UserMemory(p.memory) && StackPointer(UserContext(f)) < Wide(p.arch)
  }

  lemma DeliveredAnswers(p: Proc, f: Frame)
    requires Inv(p) && p.ended.None? && WellPlaced(p, f)
    ensures var (q, g, o) := Delivered(p, f); Answers(p, f, q, g, o)
  {
    var (q, g, o) := Delivered(p, f);
    hide Built, FrameFits, Entered, UserContext, WithContext, DeliveredFrom, FromTrap;
    DeliveredSpec(p, f);
    if p.userMode && !p.inHandler {
      forall n: nat | IsNext(p, n)
        ensures UpTo(p, q, n) && (o == Handles(n) || o == Ends(n))
        ensures p.dispositions[n].handler == SIG_DFL || (forall s: nat :: !FrameFits(UserContext(f), p.memory, s)) ==>
          EndedBy(p, q, o, n)
        ensures p.dispositions[n].handler != SIG_DFL ==>
          forall s: nat :: FrameFits(UserContext(f), p.memory, s) ==>
            o == Handles(n) && Entered(p, f, q, UserContext(g), n, s)
      {
        var d := p.dispositions[n];
        BuiltIff(UserContext(f), p.memory, n, d.handler, d.restorer);
        if o.Handles? {
          EntryIs(p, f, q, g, n);
        }
      }
    }
  }

  lemma EntryIs(p: Proc, f: Frame, q: Proc, g: Frame, n: nat)
    requires Inv(p) && Sized(q) && p.ended.None? && WellPlaced(p, f) && n <= MAX_SIGNAL
    requires DeliveryFits(p, f, q, g, Handles(n))
    ensures Entered(p, f, q, UserContext(g), n, FrameAt(UserContext(f)))
  {
    var d := p.dispositions[n];
    var c := UserContext(f);
    hide FrameAt, Stored, Loaded, DeliveredFrom;
    FramePlacement(c, p.memory, n, d.handler, d.restorer);
    FrameContents(c, p.memory, n, d.handler, d.restorer);
    HandlerContext(c, p.memory, n, d.handler, d.restorer, f);
  }

  /** What a system call does about signals before it returns. */
  lemma CallAnswers(p: Proc, f: Frame, m: Memory)
    requires Inv(p) && Enabled(p, Call(f, m)) && UserMemory(m) && StackPointer(UserContext(f)) < Wide(p.arch)
    ensures var (q, c, o) := Step(p, Call(f, m));
            && Answers(p.(memory := m), f, q, Delivered(p.(memory := m), f).1, o)
            && c == (if q.ended.None? then Some(UserContext(Delivered(p.(memory := m), f).1)) else None)
  {
    hide Answers, Delivered;
    DeliveredAnswers(p.(memory := m), f);
  }

  /** A signal sent to a program with nothing else to deliver ends it at its next system call, unless it has a
      handler or ignores it; `SIGKILL` ends it at once. */
  lemma SentIsAnswered(p: Proc, n: nat, itself: bool, f: Frame, m: Memory)
    requires Inv(p) && Enabled(p, Raise(n, itself)) && AllIgnored(p) && p.userMode && !p.inHandler
    requires 1 <= n <= MAX_SIGNAL && WellPlaced(p.(memory := m), f)
    ensures n == SIGKILL ==> Step(p, Raise(n, itself)).0.ended == Some(if itself then 137 else 0)
    ensures n != SIGKILL ==>
      var r := Step(p, Raise(n, itself)).0;
      && Inv(r) && Enabled(r, Call(f, m))
      && var (q, c, o) := Step(r, Call(f, m));
         && (p.dispositions[n].handler == SIG_DFL ==> o == Ends(n) && q.ended == Some(128 + n))
         && (p.dispositions[n].handler == SIG_IGN ==> o == Quiet && q == p.(memory := m, pending := q.pending))
         && (p.dispositions[n].handler > 1 ==>
               forall s: nat :: FrameFits(UserContext(f), m, s) ==>
                 o == Handles(n) && c.Some? && Entered(p.(memory := m), f, q, c.value, n, s))
  {
    hide FrameFits, Entered, UserContext, Delivered, FromTrap, DeliveryFits;
    if n != SIGKILL {
      var r := Step(p, Raise(n, itself)).0;
      assert r.pending == p.pending[n := true];
      CallAnswers(r, f, m);
      assert p.dispositions[n].handler != SIG_IGN ==> IsNext(r.(memory := m), n);
      assert p.dispositions[n].handler == SIG_IGN ==> AllIgnored(r.(memory := m));
      EnteredSame(p.(memory := m), r.(memory := m), f, n);
    }
  }

  lemma EnteredSame(p: Proc, r: Proc, f: Frame, n: nat)
    requires Sized(p) && Sized(r) && p.dispositions == r.dispositions && p.memory == r.memory && n <= MAX_SIGNAL
    ensures forall q: Proc, c: Context, s: nat :: Sized(q) && Entered(r, f, q, c, n, s) ==>
      Entered(p, f, q, c, n, s) && q.ended.None?
  {
  }

  /** A handler that lies in user memory is accepted for every signal but `SIGKILL`, and is the one that runs
      next, with its restorer. */
  lemma NewHandlerRuns(p: Proc, n: nat, handler: nat, restorer: nat, f: Frame, m: Memory, s: nat)
    requires Inv(p) && Enabled(p, SetHandler(n, handler, restorer)) && p.userMode && !p.inHandler
    requires 1 <= n <= MAX_SIGNAL && n != SIGKILL && handler > 1 && handler in p.memory && restorer in p.memory
    requires WellPlaced(p.(memory := m), f) && FrameFits(UserContext(f), m, s)
    requires p.pending[n] && forall k :: 0 <= k < n && p.pending[k] ==> p.dispositions[k].handler == SIG_IGN
    ensures var r := Step(p, SetHandler(n, handler, restorer)).0;
            && Inv(r) && Enabled(r, Call(f, m)) && r.dispositions[n] == Disposition(handler, restorer)
            && (forall k :: 0 <= k <= MAX_SIGNAL && k != n ==> r.dispositions[k] == p.dispositions[k])
            && var (q, c, o) := Step(r, Call(f, m));
               && o == Handles(n) && c.Some? && InstructionPointer(c.value) == handler && StackPointer(c.value) == s
               && Loaded(q.memory, s, if f.F32? then 4 else 8) == restorer % Wide(p.arch)
  {
    hide FrameFits, UserContext, Delivered, FromTrap, DeliveryFits, Loaded;
    var r := Step(p, SetHandler(n, handler, restorer)).0;
    CallAnswers(r, f, m);
    assert IsNext(r.(memory := m), n);
  }

  /** The context a program goes on with when `sigreturn` refuses: `-EINVAL` in the return register. */
  predicate RefusedContext(c: Context, d: Context) {
    if c.C32? then d == c.(eax := Wide(I386) - 22) else d == c.(rax := Wide(X8664) - 22)
  }

  /** The frame `sigreturn` leaves for a delivery. */
  function FrameAfter(p: Proc, f: Frame): Frame
    requires Inv(p) && ArchOf(f) == p.arch
  {
    if p.inHandler then WithContext(f, p.saved) else Refused(f)
  }

  /** `sigreturn` ends the handler: the program is back in the context kept aside, and what waited meanwhile is
      delivered from there. Outside a handler it is an error like any other call's. */
  lemma ReturnAnswers(p: Proc, f: Frame, m: Memory)
    requires Inv(p) && Enabled(p, SigReturn(f, m)) && UserMemory(m)
    requires StackPointer(if p.inHandler then p.saved else UserContext(f)) < Wide(p.arch)
    ensures var (q, c, o) := Step(p, SigReturn(f, m));
            var d := UserContext(FrameAfter(p, f));
            && (if p.inHandler then d == p.saved else RefusedContext(UserContext(f), d))
            && (exists g :: Answers(p.(memory := m, inHandler := false), FrameAfter(p, f), q, g, o)
                  && c == (if q.ended.None? then Some(UserContext(g)) else None))
            && (!p.userMode || AllIgnored(p) ==> o == Quiet && !q.inHandler && c == Some(d))
  {
    hide Answers, Delivered;
    FrameOfContext(f, p.saved);
    var r, g := p.(memory := m, inHandler := false), FrameAfter(p, f);
    assert Returned(p.(memory := m), f) == (r, if p.inHandler then g else f, p.inHandler);
    DeliveredAnswers(r, g);
    if !p.userMode || AllIgnored(p) {
      QuietAnswers(r, g, Delivered(r, g).0, Delivered(r, g).1, Delivered(r, g).2);
    }
  }

  lemma QuietAnswers(p: Proc, f: Frame, q: Proc, g: Frame, o: Outcome)
    requires Sized(p) && Sized(q) && ArchOf(f) == p.arch && p.ended.None? && !p.inHandler
    requires Answers(p, f, q, g, o) && (!p.userMode || AllIgnored(p))
    ensures o == Quiet && g == f && !q.inHandler && q.ended.None?
  {
  }

  // ---- runs: the invariant --------------------------------------------------------------------------

  lemma StepInv(p: Proc, op: Op)
    requires Inv(p) && Enabled(p, op)
    ensures Inv(Step(p, op).0)
  {
    match op
    case Call(f, m) => DeliveredSpec(p.(memory := m), f);
    case SigReturn(f, m) =>
      var (q, g, ok) := Returned(p.(memory := m), f);
      DeliveredSpec(q, if ok then g else Refused(g));
    case _ =>
  }

  /** A handler is entered with the interrupted context kept aside, below its stack pointer, at the address
      the program gave. */
  lemma HandlerEntered(p: Proc, f: Frame, m: Memory)
    requires Inv(p) && Enabled(p, Call(f, m)) && !p.inHandler && Step(p, Call(f, m)).0.inHandler
      && Step(p, Call(f, m)).0.ended.None?
    requires UserMemory(m) && StackPointer(UserContext(f)) < Wide(p.arch)
    ensures var (q, c, o) := Step(p, Call(f, m));
            && o.Handles? && o.signo <= MAX_SIGNAL && p.pending[o.signo] && !q.pending[o.signo]
            && q.saved == UserContext(f)
            && c.Some? && InstructionPointer(c.value) == p.dispositions[o.signo].handler
            && StackPointer(c.value) + 8 < StackPointer(q.saved)
            && (p.arch == X8664 ==> StackPointer(c.value) + 8 <= StackPointer(q.saved) - RED_ZONE)
            && forall a :: a in m && a >= StackPointer(q.saved) - (if p.arch == X8664 then RED_ZONE else 0) ==>
               a in q.memory && q.memory[a] == m[a]
  {
    DeliveredSpec(p.(memory := m), f);
    var (q, c, o) := Step(p, Call(f, m));
    var d := p.dispositions[o.signo];
    FramePlacement(UserContext(f), m, o.signo, d.handler, d.restorer);
    HandlerContext(UserContext(f), m, o.signo, d.handler, d.restorer, f);
  }

  /** What the frame hands to the handler is the built context but for RCX, which carries RIP. */
  lemma HandlerContext(c: Context, m: Memory, signo: nat, handler: nat, restorer: nat, f: Frame)
    requires c == UserContext(f) && Built(c, m, signo, handler, restorer).Some?
    ensures var h := Built(c, m, signo, handler, restorer).value.0;
            var r := UserContext(WithContext(f, h));
            InstructionPointer(r) == InstructionPointer(h) && StackPointer(r) == StackPointer(h)
  {
  }

  ghost predicate Runnable(p: Proc, ops: seq<Op>)
    requires Inv(p)
    decreases |ops|
  {
    ops == [] || (Enabled(p, ops[0]) && (StepInv(p, ops[0]); Runnable(Step(p, ops[0]).0, ops[1..])))
  }

  ghost function Run(p: Proc, ops: seq<Op>): (q: Proc)
    requires Inv(p) && Runnable(p, ops)
    ensures Inv(q)
    decreases |ops|
  {
    if ops == [] then p else StepInv(p, ops[0]); Run(Step(p, ops[0]).0, ops[1..])
  }

  /** The context the last step of a run goes on with. */
  ghost function LastResumed(p: Proc, ops: seq<Op>): Option<Context>
    requires Inv(p) && Runnable(p, ops) && ops != []
    decreases |ops|
  {
    StepInv(p, ops[0]);
    if |ops| == 1 then Step(p, ops[0]).1 else LastResumed(Step(p, ops[0]).0, ops[1..])
  }

  /** Before each step the program is in a handler. */
  ghost predicate StaysInside(p: Proc, ops: seq<Op>)
    requires Inv(p) && Runnable(p, ops)
    decreases |ops|
  {
    ops != [] ==> p.inHandler && (StepInv(p, ops[0]); StaysInside(Step(p, ops[0]).0, ops[1..]))
  }

  /** From inside a handler, whatever happens, also when other signals are delivered one after the other,
      the first context outside is the one kept aside. */
  lemma {:induction false} SavedComesBack(p: Proc, ops: seq<Op>)
    requires Inv(p) && Runnable(p, ops) && ops != [] && StaysInside(p, ops)
    requires Run(p, ops).ended.None? && !Run(p, ops).inHandler
    ensures LastResumed(p, ops) == Some(p.saved)
    decreases |ops|
  {
    StepInv(p, ops[0]);
    InsideStep(p, ops[0]);
    if |ops| == 1 {
      assert ops[1..] == [];
    } else {
      var q := Step(p, ops[0]).0;
      SavedComesBack(q, ops[1..]);
    }
  }

  lemma InsideStep(p: Proc, op: Op)
    requires Inv(p) && Enabled(p, op) && p.inHandler
    ensures var (q, c, o) := Step(p, op);
            q.ended.None? ==> if q.inHandler then q.saved == p.saved else c == Some(p.saved)
  {
    match op
    case SigReturn(f, m) =>
      var (q, g, ok) := Returned(p.(memory := m), f);
      FrameOfContext(f, p.saved);
      DeliveredSpec(q, g);
    case _ =>
  }

  /** Signals are transparent: a program interrupted at a context goes on outside its handlers with exactly
      that context. */
  lemma InterruptedGoesOn(p: Proc, f: Frame, m: Memory, ops: seq<Op>)
    requires Inv(p) && Enabled(p, Call(f, m)) && !p.inHandler
    requires Inv(Step(p, Call(f, m)).0) && Step(p, Call(f, m)).0.inHandler
    requires ops != [] && Runnable(Step(p, Call(f, m)).0, ops) && StaysInside(Step(p, Call(f, m)).0, ops)
    requires Run(Step(p, Call(f, m)).0, ops).ended.None? && !Run(Step(p, Call(f, m)).0, ops).inHandler
    ensures LastResumed(Step(p, Call(f, m)).0, ops) == Some(UserContext(f))
  {
    DeliveredSpec(p.(memory := m), f);
    SavedComesBack(Step(p, Call(f, m)).0, ops);
  }

  // ---- every pending signal is consumed once ------------------------------------------------------

  /** Signal `n` sent while it was not pending. */
  ghost function Sent(p: Proc, op: Op, n: nat): nat
    requires Inv(p) && n <= MAX_SIGNAL
  {
    if op.Raise? && op.signo == n && 1 <= n && n != SIGKILL && !p.pending[n] then 1 else 0
  }

  /** Signal `n` taken off the pending ones. */
  ghost function Taken(p: Proc, op: Op, n: nat): nat
    requires Inv(p) && Enabled(p, op) && n <= MAX_SIGNAL
  {
    if p.pending[n] && !Step(p, op).0.pending[n] then 1 else 0
  }

  /** Signal `n` handed to its handler. */
  ghost function Handled(p: Proc, op: Op, n: nat): nat
    requires Inv(p) && Enabled(p, op)
  {
    if Step(p, op).2 == Handles(n) then 1 else 0
  }

  ghost function Flag(p: Proc, n: nat): nat
    requires Sized(p) && n <= MAX_SIGNAL
  {
    if p.pending[n] then 1 else 0
  }

  /** A pending bit is set by sending, and taken exactly when the signal is handled, ends the process or is
      ignored, outside handlers. */
  lemma StepConserves(p: Proc, op: Op, n: nat)
    requires Inv(p) && Enabled(p, op) && n <= MAX_SIGNAL
    ensures Flag(Step(p, op).0, n) + Taken(p, op, n) == Flag(p, n) + Sent(p, op, n)
    ensures Handled(p, op, n) <= Taken(p, op, n)
    ensures Taken(p, op, n) == 1 ==>
      Step(p, op).2 == Handles(n) || Step(p, op).2 == Ends(n) || p.dispositions[n].handler == SIG_IGN
  {
    match op
    case Call(f, m) => DeliveredSpec(p.(memory := m), f);
    case SigReturn(f, m) =>
      var (q, g, ok) := Returned(p.(memory := m), f);
      DeliveredSpec(q, if ok then g else Refused(g));
    case _ =>
  }

  ghost function SentIn(p: Proc, ops: seq<Op>, n: nat): nat
    requires Inv(p) && Runnable(p, ops) && n <= MAX_SIGNAL
    decreases |ops|
  {
    if ops == [] then 0 else StepInv(p, ops[0]); Sent(p, ops[0], n) + SentIn(Step(p, ops[0]).0, ops[1..], n)
  }

  ghost function TakenIn(p: Proc, ops: seq<Op>, n: nat): nat
    requires Inv(p) && Runnable(p, ops) && n <= MAX_SIGNAL
    decreases |ops|
  {
    if ops == [] then 0 else StepInv(p, ops[0]); Taken(p, ops[0], n) + TakenIn(Step(p, ops[0]).0, ops[1..], n)
  }

  ghost function HandledIn(p: Proc, ops: seq<Op>, n: nat): nat
    requires Inv(p) && Runnable(p, ops)
    decreases |ops|
  {
    if ops == [] then 0 else StepInv(p, ops[0]); Handled(p, ops[0], n) + HandledIn(Step(p, ops[0]).0, ops[1..], n)
  }

  /** Over every run each signal sent is pending or was taken once, and a handler runs at most once for
      each. */
  lemma {:induction false} ConsumedOnce(p: Proc, ops: seq<Op>, n: nat)
    requires Inv(p) && Runnable(p, ops) && n <= MAX_SIGNAL
    ensures Flag(Run(p, ops), n) + TakenIn(p, ops, n) == Flag(p, n) + SentIn(p, ops, n)
    ensures HandledIn(p, ops, n) <= TakenIn(p, ops, n)
    decreases |ops|
  {
    if ops != [] {
      StepInv(p, ops[0]);
      StepConserves(p, ops[0], n);
      ConsumedOnce(Step(p, ops[0]).0, ops[1..], n);
    }
  }

  /** Until a handler returns nothing is delivered, whatever is sent and whichever calls it makes: no signal
      is handled or lost, and the interrupted context stays kept. */
  lemma {:induction false} NoNesting(p: Proc, ops: seq<Op>, n: nat)
    requires Inv(p) && Runnable(p, ops) && p.inHandler && n <= MAX_SIGNAL
    requires forall k :: 0 <= k < |ops| ==> !ops[k].SigReturn?
    ensures var q := Run(p, ops);
            && q.inHandler && q.saved == p.saved
            && HandledIn(p, ops, n) == 0 && TakenIn(p, ops, n) == 0 && Flag(q, n) == Flag(p, n) + SentIn(p, ops, n)
    decreases |ops|
  {
    if ops != [] {
      StepInv(p, ops[0]);
      StepConserves(p, ops[0], n);
      NoNesting(Step(p, ops[0]).0, ops[1..], n);
    }
  }

  // ---- the code -----------------------------------------------------------------------------------

  class Process {
    const arch: Arch
    const dispositions: array<Disposition>
    const pending: array<bool>
    var saved: Context
    var inHandler: bool
    var userMode: bool
    var memory: Memory
    var ended: Option<nat>

    ghost predicate Valid()
      reads this, dispositions, pending
    {
      dispositions.Length == MAX_SIGNAL + 1 && pending.Length == MAX_SIGNAL + 1 && Inv(State())
    }

    ghost function State(): Proc
      reads this, dispositions, pending
    {
      Proc(arch, dispositions[..], pending[..], saved, inHandler, userMode, memory, ended)
    }

    constructor (arch: Arch, memory: Memory)
      ensures Valid() && fresh(dispositions) && fresh(pending) && !inHandler && ended.None? && this.memory == memory
      ensures forall n :: 0 <= n <= MAX_SIGNAL ==>
        State().dispositions[n] == Disposition(SIG_DFL, 0) && !State().pending[n]
    {
      this.arch, this.memory := arch, memory;
      dispositions := new Disposition[MAX_SIGNAL + 1](_ => Disposition(SIG_DFL, 0));
      pending := new bool[MAX_SIGNAL + 1](_ => false);
      saved := if arch == I386 then C32(0, 0, 0, 0, 0, 0, 0, 0, 0, 0)
        else C64(0, 0, 0, 0, 0, 0, 0, 0, 0, 0, 0, 0, 0, 0, 0, 0, 0, 0);
      inHandler, userMode, ended := false, true, None;
    }

    method RaiseSignal(signo: nat, itself: bool) returns (error: Option<Error>)
      requires Valid()
      modifies this`ended, pending
      ensures Valid() && (State(), error) == Raised(old(State()), signo, itself)
    {
      if !(1 <= signo <= MAX_SIGNAL) {
        return Some(InvalidSignal);
      }
      if ended.Some? {
        return Some(NoSuchTask);
      }
      if signo == SIGKILL {
        ended := Some(if itself then 128 + SIGKILL else 0);
        return None;
      }
      pending[signo] := true;
      return None;
    }

    method InstallHandler(signo: nat, handler: nat, restorer: nat) returns (answer: Answer)
      requires Valid()
      modifies dispositions
      ensures Valid() && (State(), answer) == HandlerSet(old(State()), signo, handler, restorer)
    {
      if !(1 <= signo <= MAX_SIGNAL) {
        return Rejected(InvalidSignal);
      }
      if signo == SIGKILL {
        return Rejected(Uncatchable);
      }
      if handler != SIG_DFL && handler != SIG_IGN {
        if handler !in memory || restorer !in memory {
          return Rejected(InvalidSignal);
        }
      }
      answer := Replaced(dispositions[signo].handler);
      dispositions[signo] := Disposition(handler, restorer);
    }

    /** `clone_into`: a forked child gets its parent's handlers, nothing pending, and is in no handler. */
    method CloneInto(child: Process)
      requires Valid() && child.Valid() && child != this && child.dispositions != dispositions
        && child.pending != pending
      modifies child`inHandler, child.dispositions, child.pending
      ensures Valid() && State() == old(State()) && child.Valid()
      ensures child.State() == old(child.State()).(dispositions := old(State()).dispositions,
                pending := seq(MAX_SIGNAL + 1, _ => false), inHandler := false)
    {
      forall n | 0 <= n <= MAX_SIGNAL {
        child.dispositions[n] := dispositions[n];
      }
      child.inHandler := false;
      forall n | 0 <= n <= MAX_SIGNAL {
        child.pending[n] := false;
      }
      assert child.dispositions[..] == dispositions[..];
    }

    method DeliverPending(f: Frame) returns (g: Frame, ghost o: Outcome)
      requires Valid() && ArchOf(f) == arch
      modifies this`saved, this`inHandler, this`memory, this`ended, pending
      ensures Valid() && (State(), g, o) == Delivered(old(State()), f)
      ensures old(ended).None? && WellPlaced(old(State()), f) ==> Answers(old(State()), f, State(), g, o)
    {
      hide Answers, WellPlaced, DeliveredFrom;
      if ended.None? && WellPlaced(State(), f) {
        DeliveredAnswers(State(), f);
      }
      if !userMode || inHandler {
        return f, Quiet;
      }
      g, o := DeliverLoop(f);
    }

    method DeliverLoop(f: Frame) returns (g: Frame, ghost o: Outcome)
      requires Valid() && ArchOf(f) == arch
      modifies this`saved, this`inHandler, this`memory, this`ended, pending
      ensures Valid() && (State(), g, o) == DeliveredFrom(old(State()), f)
    {
      hide FrameAt, Stored, UpTo, DeliveryFits;
      DeliveredInv(State(), f);
      while true
        invariant Sized(State()) && dispositions.Length == MAX_SIGNAL + 1 && pending.Length == MAX_SIGNAL + 1
        invariant DeliveredFrom(State(), f) == DeliveredFrom(old(State()), f)
        decreases MAX_SIGNAL + 1 - Lowest(pending[..], 0)
      {
        var signo := LowestPending();
        if signo == pending.Length {
          return f, Quiet;
        }
        LowestGrows(pending[..], signo);
        pending[signo] := false;
        var d := dispositions[signo];
        if d.handler == SIG_IGN {
          continue;
        }
        if d.handler == SIG_DFL {
          ended := Some(128 + signo);
          return f, Ends(signo);
        }
        var context := UserContext(f);
        saved := context;
        var built := Built(context, memory, signo, d.handler, d.restorer);
        if built.None? {
          ended := Some(128 + signo);
          return f, Ends(signo);
        }
        memory := built.value.1;
        inHandler := true;
        return WithContext(f, built.value.0), Handles(signo);
      }
    }

    method LowestPending() returns (n: nat)
      requires pending.Length == MAX_SIGNAL + 1
      ensures n == Lowest(pending[..], 0)
    {
      n := 0;
      while n < pending.Length && !pending[n]
        invariant 0 <= n <= pending.Length && Lowest(pending[..], 0) == Lowest(pending[..], n)
      {
        n := n + 1;
      }
    }

    method ReturnFromHandler(f: Frame) returns (g: Frame, ok: bool)
      requires Valid() && ArchOf(f) == arch
      modifies this`inHandler
      ensures Valid() && (State(), g, ok) == Returned(old(State()), f)
    {
      if !inHandler {
        return f, false;
      }
      inHandler := false;
      return WithContext(f, saved), true;
    }
  }
}

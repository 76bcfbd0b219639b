/** Signal delivery and `sigreturn` (kernel/src/level0b1/signal.rs, with the contexts and stack frames of
    both architectures from kernel/src/arch): a handler runs as if it had been called where the program was
    interrupted, and the program does not notice. */
module Signals {
  import opened Basics

  const MAX_SIGNAL: nat := 31
  const SIGKILL: nat := 9
  const SIG_DFL: nat := 0
  const SIG_IGN: nat := 1
  const RED_ZONE: nat := 128

  datatype Error = InvalidSignal | NoSuchTask | Uncatchable

  function Wide(arch: Arch): nat {
    match arch case I386 => 0x1_0000_0000 case X8664 => 0x1_0000_0000_0000_0000
  }

  datatype Arch = I386 | X8664

  /** A whole user context. */
  datatype Context =
    | C32(edi: nat, esi: nat, ebp: nat, ebx: nat, edx: nat, ecx: nat, eax: nat, eip: nat, esp: nat, eflags: nat)
    | C64(rax: nat, rbx: nat, rcx: nat, rdx: nat, rsi: nat, rdi: nat, rbp: nat, r8: nat, r9: nat, r10: nat, r11: nat,
          r12: nat, r13: nat, r14: nat, r15: nat, rip: nat, rsp: nat, rflags: nat)

  /** What the entry code pushes: on i386 the `pusha` block and the interrupt frame above it, on x86_64 the
      registers, RIP in RCX and RFLAGS in R11, and the user's RSP in the word above. */
  datatype Frame =
    | F32(edi: nat, esi: nat, ebp: nat, espDummy: nat, ebx: nat, edx: nat, ecx: nat, eax: nat,
          eip: nat, cs: nat, eflags: nat, esp: nat, ss: nat)
    | F64(r15: nat, r14: nat, r13: nat, r12: nat, r11: nat, r10: nat, r9: nat, r8: nat, rbp: nat, rdi: nat, rsi: nat,
          rdx: nat, rcx: nat, rbx: nat, rax: nat, userRsp: nat)

  function ArchOf(f: Frame): Arch {
    if f.F32? then I386 else X8664
  }

  /** `user_context` */
  function UserContext(f: Frame): Context {
    match f
    case F32(edi, esi, ebp, _, ebx, edx, ecx, eax, eip, _, eflags, esp, _) =>
      C32(edi, esi, ebp, ebx, edx, ecx, eax, eip, esp, eflags)
    case F64(r15, r14, r13, r12, r11, r10, r9, r8, rbp, rdi, rsi, rdx, rcx, rbx, rax, userRsp) =>
      C64(rax, rbx, rcx, rdx, rsi, rdi, rbp, r8, r9, r10, r11, r12, r13, r14, r15, rcx, userRsp, r11)
  }

  /** `set_user_context` */
  function WithContext(f: Frame, c: Context): Frame
    requires f.F32? == c.C32?
  {
    match c
    case C32(edi, esi, ebp, ebx, edx, ecx, eax, eip, esp, eflags) =>
      F32(edi, esi, ebp, f.espDummy, ebx, edx, ecx, eax, eip, f.cs, eflags, esp, f.ss)
    case C64(rax, rbx, _, rdx, rsi, rdi, rbp, r8, r9, r10, _, r12, r13, r14, r15, rip, rsp, rflags) =>
      F64(r15, r14, r13, r12, rflags, r10, r9, r8, rbp, rdi, rsi, rdx, rip, rbx, rax, rsp)
  }

  function StackPointer(c: Context): nat {
    if c.C32? then c.esp else c.rsp
  }

  /** Where a program goes on; the rest of the context is untouched by a redirection. */
  function InstructionPointer(c: Context): nat {
    if c.C32? then c.eip else c.rip
  }

  /** A context the kernel took from a system call: `syscall` has put RIP and RFLAGS into RCX and R11. */
  predicate FromTrap(arch: Arch, c: Context) {
    if arch == I386 then c.C32? else c.C64? && c.rcx == c.rip && c.r11 == c.rflags
  }

  // ---- the stack frame ----------------------------------------------------------------------------

  /** Subtraction of a small number in machine words, which may wrap around. */
  function Minus(arch: Arch, a: nat, b: nat): nat
    requires b <= 128
  {
    if a >= b then a - b else a + Wide(arch) - b
  }

  function AlignedDown(a: nat): nat {
    a - a % 16
  }

  /** The bytes of user memory that can be accessed now. */
  type Memory = map<nat, Byte>

  /** User pages lie in the lower part of the address space, whole pages at a time. */
  ghost predicate UserMemory(m: Memory) {
    && (forall a :: a in m ==> a < 0x8000_0000)
    && (forall a, b {:trigger a in m, b in m} :: a in m && b < 0x8000_0000 && a / 4096 == b / 4096 ==> b in m)
  }

  function Stored(m: Memory, at: nat, v: nat, n: nat): (r: Memory)
    decreases n
  {
    if n == 0 then m else Stored(m[at := v % 256], at + 1, v / 256, n - 1)
  }

  function FrameAt(c: Context): nat {
    if c.C32? then Minus(I386, AlignedDown(Minus(I386, c.esp, 8)), 4)
    else Minus(X8664, AlignedDown(Minus(X8664, c.rsp, RED_ZONE)), 8)
  }

  /** `build_signal_frame`: the restorer as return address, the signal number as argument. */
  function Built(c: Context, m: Memory, signo: nat, handler: nat, restorer: nat): Option<(Context, Memory)> {
    var sp := FrameAt(c);
    if sp !in m || sp + 7 !in m then None
    else if c.C32? then Some((c.(eip := handler, esp := sp), Stored(Stored(m, sp, restorer, 4), sp + 4, signo, 4)))
    else Some((c.(rdi := signo, rip := handler, rsp := sp), Stored(m, sp, restorer, 8)))
  }

  // ---- a process ----------------------------------------------------------------------------------

  datatype Disposition = Disposition(handler: nat, restorer: nat)

  /** What the kernel keeps of a process for signals; `ended` is its exit code. */
  datatype Proc = Proc(arch: Arch, dispositions: seq<Disposition>, pending: seq<bool>, saved: Context, inHandler: bool,
                       userMode: bool, memory: Memory, ended: Option<nat>)

  predicate Sized(p: Proc) {
    |p.dispositions| == MAX_SIGNAL + 1 && |p.pending| == MAX_SIGNAL + 1
  }

  /** `raise` on a task, by itself or by another; `SIGKILL` does not wait, and `terminate` sets no exit
      code. */
  function Raised(p: Proc, signo: nat, itself: bool): (r: (Proc, Option<Error>))
    requires Sized(p)
    ensures Sized(r.0)
  {
    if !(1 <= signo <= MAX_SIGNAL) then (p, Some(InvalidSignal))
    else if p.ended.Some? then (p, Some(NoSuchTask))
    else if signo == SIGKILL then (p.(ended := Some(if itself then 128 + SIGKILL else 0)), None)
    else (p.(pending := p.pending[signo := true]), None)
  }

  /** The answer of `set_handler`: the handler there was, or why the new one is refused. */
  datatype Answer = Replaced(handler: nat) | Rejected(error: Error)

  /** `set_handler` */
  function HandlerSet(p: Proc, signo: nat, handler: nat, restorer: nat): (r: (Proc, Answer))
    requires Sized(p)
    ensures Sized(r.0)
  {
    if !(1 <= signo <= MAX_SIGNAL) then (p, Rejected(InvalidSignal))
    else if signo == SIGKILL then (p, Rejected(Uncatchable))
    else if handler != SIG_DFL && handler != SIG_IGN && (handler !in p.memory || restorer !in p.memory) then
      (p, Rejected(InvalidSignal))
    else
      (p.(dispositions := p.dispositions[signo := Disposition(handler, restorer)]),
        Replaced(p.dispositions[signo].handler))
  }

  /** The lowest pending signal from `n` on. */
  function Lowest(pending: seq<bool>, n: nat): (r: nat)
    requires n <= |pending|
    ensures n <= r <= |pending|
    ensures r < |pending| ==> pending[r]
    ensures forall k :: n <= k < r ==> !pending[k]
    decreases |pending| - n
  {
    if n == |pending| || pending[n] then n else Lowest(pending, n + 1)
  }

  datatype Outcome = Quiet | Handles(signo: nat) | Ends(signo: nat)

  /** The loop of `deliver_pending`. */
  function DeliveredFrom(p: Proc, f: Frame): (r: (Proc, Frame, Outcome))
    requires Sized(p) && ArchOf(f) == p.arch
    ensures Sized(r.0) && ArchOf(r.1) == p.arch && r.0.arch == p.arch
    decreases |p.pending| - Lowest(p.pending, 0)
  {
    var n := Lowest(p.pending, 0);
    if n == |p.pending| then (p, f, Quiet)
    else
      var q := p.(pending := p.pending[n := false]);
      var d := p.dispositions[n];
      if d.handler == SIG_IGN then LowestGrows(p.pending, n); DeliveredFrom(q, f)
      else if d.handler == SIG_DFL then (q.(ended := Some(128 + n)), f, Ends(n))
      else
        var c := UserContext(f);
        match Built(c, p.memory, n, d.handler, d.restorer)
        case None => (q.(saved := c, ended := Some(128 + n)), f, Ends(n))
        case Some((h, m)) => (q.(saved := c, inHandler := true, memory := m), WithContext(f, h), Handles(n))
  }

  lemma LowestGrows(pending: seq<bool>, n: nat)
    requires n == Lowest(pending, 0) < |pending|
    ensures Lowest(pending[n := false], 0) > n
  {
  }

  /** `deliver_pending` */
  function Delivered(p: Proc, f: Frame): (r: (Proc, Frame, Outcome))
    requires Sized(p) && ArchOf(f) == p.arch
    ensures Sized(r.0) && ArchOf(r.1) == p.arch && r.0.arch == p.arch
  {
    if !p.userMode || p.inHandler then (p, f, Quiet) else DeliveredFrom(p, f)
  }

  /** `sigreturn` */
  function Returned(p: Proc, f: Frame): (r: (Proc, Frame, bool))
    requires Sized(p) && ArchOf(f) == p.arch && FromTrap(p.arch, p.saved)
    ensures Sized(r.0) && ArchOf(r.1) == p.arch && r.0.arch == p.arch
  {
    if !p.inHandler then (p, f, false) else (p.(inHandler := false), WithContext(f, p.saved), true)
  }

  // ---- contexts -----------------------------------------------------------------------------------

  /** Writing the context of a frame back changes nothing. */
  lemma ContextOfFrame(f: Frame)
    ensures WithContext(f, UserContext(f)) == f && FromTrap(ArchOf(f), UserContext(f))
  {
  }

  /** A context comes back from a frame exactly when RCX and R11 are what `sysret` makes of them. */
  lemma FrameOfContext(f: Frame, c: Context)
    requires f.F32? == c.C32?
    ensures UserContext(WithContext(f, c)) == c <==> FromTrap(ArchOf(f), c)
  {
  }

  // ---- the frame on the user's stack --------------------------------------------------------------

  lemma {:induction false} StoredBytes(m: Memory, at: nat, v: nat, n: nat)
    ensures forall a :: a in m && !(at <= a < at + n) ==> a in Stored(m, at, v, n) && Stored(m, at, v, n)[a] == m[a]
    ensures forall a :: a in Stored(m, at, v, n) ==> a in m || at <= a < at + n
    ensures forall a :: at <= a < at + n ==> a in Stored(m, at, v, n)
    ensures Loaded(Stored(m, at, v, n), at, n) == v % Power(n)
    decreases n
  {
    if n > 0 {
      StoredBytes(m[at := v % 256], at + 1, v / 256, n - 1);
      assert at in m[at := v % 256];
      ByteFirst(v, Power(n - 1));
    }
  }

  function Power(n: nat): (p: nat)
    ensures p > 0
  {
    if n == 0 then 1 else 256 * Power(n - 1)
  }

  /** The little-endian word of `n` bytes at an address; bytes that cannot be accessed read as zero. */
  function Loaded(m: Memory, at: nat, n: nat): nat
    decreases n
  {
    if n == 0 then 0 else (if at in m then m[at] else 0) + 256 * Loaded(m, at + 1, n - 1)
  }

  lemma ByteFirst(v: nat, p: nat)
    requires p > 0
    ensures v % (256 * p) == v % 256 + 256 * (v / 256 % p)
  {
    var q, r := v / 256 / p, v / 256 % p;
    assert v / 256 == p * q + r;
    assert v == 256 * (p * q + r) + v % 256;
    assert 256 * (p * q + r) == (256 * p) * q + 256 * r by {
      assert 256 * (p * q) == (256 * p) * q;
    }
    var rest := 256 * r + v % 256;
    assert 0 <= rest < 256 * p;
    RemainderIs(v, 256 * p, q, rest);
  }

  lemma RemainderIs(v: nat, m: nat, q: nat, r: nat)
    requires m > 0 && v == m * q + r && r < m
    ensures v % m == r
  {
    var d := q - v / m;
    assert m * d == m * q - m * (v / m);
    assert m * d == v % m - r;
    Multiple(m, d);
  }

  lemma Multiple(m: int, d: int)
    requires m > 0
    ensures -m < m * d < m ==> d == 0
  {
    if d >= 1 {
      assert m * d >= m * 1;
    } else if d <= -1 {
      assert m * d <= m * -1;
    }
  }

  /** The frame is where the calling convention wants it, below the interrupted stack pointer, on x86_64
      below the red zone too; nothing above it is written. */
  lemma FramePlacement(c: Context, m: Memory, signo: nat, handler: nat, restorer: nat)
    requires UserMemory(m) && StackPointer(c) < Wide(if c.C32? then I386 else X8664)
    requires Built(c, m, signo, handler, restorer).Some?
    ensures var (h, w) := Built(c, m, signo, handler, restorer).value;
            var sp := StackPointer(h);
            && InstructionPointer(h) == handler
            && (c.C32? ==> sp % 16 == 12 && sp + 8 < StackPointer(c))
            && (c.C64? ==> sp % 16 == 8 && sp + 8 <= StackPointer(c) - RED_ZONE && h.rdi == signo)
            && w.Keys == m.Keys
            && (forall a :: a in m && !(sp <= a < sp + 8) ==> w[a] == m[a])
  {
    var sp := FrameAt(c);
    FrameBelow(c);
    FrameOnPages(m, sp);
    if c.C32? {
      StoredBytes(m, sp, restorer, 4);
      StoredBytes(Stored(m, sp, restorer, 4), sp + 4, signo, 4);
    } else {
      StoredBytes(m, sp, restorer, 8);
    }
  }

  /** If it did not wrap around, the frame is below the stack pointer; if it did, it is not in user memory. */
  lemma FrameBelow(c: Context)
    requires StackPointer(c) < Wide(if c.C32? then I386 else X8664) && FrameAt(c) < 0x8000_0000
    ensures c.C32? ==> FrameAt(c) % 16 == 12 && FrameAt(c) + 8 < StackPointer(c)
    ensures c.C64? ==> FrameAt(c) % 16 == 8 && FrameAt(c) + 8 <= StackPointer(c) - RED_ZONE
  {
    if c.C32? {
      NoWrap(I386, c.esp, 8, 4);
    } else {
      NoWrap(X8664, c.rsp, RED_ZONE, 8);
    }
  }

  /** Two subtractions around an alignment that end low have not wrapped around. */
  lemma NoWrap(arch: Arch, sp: nat, a: nat, b: nat)
    requires sp < Wide(arch) && a <= 128 && 0 < b < 16 && Minus(arch, AlignedDown(Minus(arch, sp, a)), b) < 0x8000_0000
    ensures var r := Minus(arch, AlignedDown(Minus(arch, sp, a)), b);
            r % 16 == 16 - b && r + b + a <= sp
  {
    var x := Minus(arch, sp, a);
    assert AlignedDown(x) % 16 == 0 && x - 16 < AlignedDown(x) <= x;
  }

  lemma FrameOnPages(m: Memory, sp: nat)
    requires UserMemory(m) && sp in m && sp + 7 in m
    ensures forall a :: sp <= a < sp + 8 ==> a in m
  {
    forall a | sp <= a < sp + 8 ensures a in m {
      if a / 4096 == sp / 4096 {
        assert a / 4096 == sp / 4096;
      } else {
        assert a / 4096 == (sp + 7) / 4096;
      }
    }
  }

  /** What the handler finds: the restorer as its return address and, on i386, the signal as argument. */
  lemma FrameContents(c: Context, m: Memory, signo: nat, handler: nat, restorer: nat)
    requires Built(c, m, signo, handler, restorer).Some? && signo <= MAX_SIGNAL
    ensures var (h, w) := Built(c, m, signo, handler, restorer).value;
            && (c.C32? ==> Loaded(w, h.esp, 4) == restorer % 0x1_0000_0000 && Loaded(w, h.esp + 4, 4) == signo)
            && (c.C64? ==> Loaded(w, h.rsp, 8) == restorer % 0x1_0000_0000_0000_0000)
  {
    hide Stored, Loaded, FrameAt;
    var sp := FrameAt(c);
    Powers();
    if c.C32? {
      var first := Stored(m, sp, restorer, 4);
      StoredBytes(m, sp, restorer, 4);
      StoredBytes(first, sp + 4, signo, 4);
      LoadedSame(first, Stored(first, sp + 4, signo, 4), sp, 4);
    } else {
      StoredBytes(m, sp, restorer, 8);
    }
  }

  lemma Powers()
    ensures Power(4) == 0x1_0000_0000 && Power(8) == 0x1_0000_0000_0000_0000
  {
    assert Power(2) == 65536;
    assert Power(4) == 256 * (256 * Power(2));
    assert Power(6) == 256 * (256 * Power(4));
    assert Power(8) == 256 * (256 * Power(6));
  }

  lemma {:induction false} LoadedSame(m: Memory, w: Memory, at: nat, n: nat)
    requires forall a :: at <= a < at + n ==> (a in m <==> a in w) && (a in m ==> m[a] == w[a])
    ensures Loaded(w, at, n) == Loaded(m, at, n)
    decreases n
  {
    if n > 0 {
      LoadedSame(m, w, at + 1, n - 1);
    }
  }
}

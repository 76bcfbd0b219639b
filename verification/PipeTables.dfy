/** Runs of descriptor calls, and the code that updates the tables and counters in place. */
module PipeTables {
  import opened Basics
  import opened Pipes

  // ---- runs ---------------------------------------------------------------------------------------

  datatype Call =
    | Open(t: nat, node: nat)
    | MakePipe(t: nat)
    | Dup(t: nat, fd: nat)
    | DupTo(t: nat, fd: nat, n: nat)
    | Close(t: nat, fd: nat)
    | Fork(t: nat, child: nat)
    | End(t: nat)

  /** Calls come from tasks of the table; a forked child has no descriptors yet, because whoever had its
      slot before has closed them all. */
  predicate Enabled(io: Io, call: Call)
    requires Sized(io)
  {
    && call.t < MAX_TASKS
    && (call.Fork? ==> call.child < MAX_TASKS && call.child != call.t && forall k :: 0 <= k < MAX_FDS ==>
       !io.tables[call.child][k].used)
  }

  function After(io: Io, call: Call): (r: Io)
    requires Sized(io) && Enabled(io, call)
    ensures Sized(r)
  {
    match call
    case Open(t, node) => Opened(io, t, File, node).0
    case MakePipe(t) => PipeMade(io, t).0
    case Dup(t, fd) => Duped(io, t, fd).0
    case DupTo(t, fd, n) => DupedTo(io, t, fd, n).0
    case Close(t, fd) => Closed(io, t, fd).0
    case Fork(t, child) => ClonedFrom(io, t, child, 0)
    case End(t) => AllClosedFrom(io, t, 0)
  }

  lemma OpenedKeeps(io: Io, t: nat, node: nat)
    requires Inv(io) && t < MAX_TASKS
    ensures Inv(Opened(io, t, File, node).0)
  {
    var (g, fd) := Opened(io, t, File, node);
    if fd.Some? {
      forall p | 0 <= p < MAX_PIPES
        ensures |Ends(g, p, true)| == |Ends(io, p, true)| && |Ends(g, p, false)| == |Ends(io, p, false)| {
        EndsSet(io, t, fd.value, Fd(true, File, node, 0), p, true);
        EndsSet(io, t, fd.value, Fd(true, File, node, 0), p, false);
      }
    }
  }

  lemma CallKeeps(io: Io, call: Call)
    requires Inv(io) && Enabled(io, call)
    ensures Inv(After(io, call))
  {
    assert Sized(io);
    hide Counted, Sized;
    match call
    case Open(t, node) => OpenedKeeps(io, t, node);
    case MakePipe(t) => PipeMadeSpec(io, t);
    case Dup(t, fd) => DupedKeeps(io, t, fd);
    case DupTo(t, fd, n) => DupedToKeeps(io, t, fd, n);
    case Close(t, fd) => ClosedKeeps(io, NO_SPARE, t, fd);
    case Fork(t, child) => ClonedKeeps(io, t, child, 0);
    case End(t) => AllClosedKeeps(io, t, 0);
  }

  ghost predicate Runnable(io: Io, calls: seq<Call>)
    requires Sized(io)
    decreases |calls|
  {
    calls == [] || (Enabled(io, calls[0]) && Runnable(After(io, calls[0]), calls[1..]))
  }

  ghost function Run(io: Io, calls: seq<Call>): (r: Io)
    requires Sized(io) && Runnable(io, calls)
    ensures Sized(r)
    decreases |calls|
  {
    if calls == [] then io else Run(After(io, calls[0]), calls[1..])
  }

  /** The tables `init` leaves. */
  function Empty(): (io: Io)
    ensures Sized(io)
    ensures forall t, fd {:trigger io.tables[t][fd]} :: 0 <= t < MAX_TASKS && 0 <= fd < MAX_FDS ==>
      io.tables[t][fd] == NO_FD
    ensures forall p {:trigger io.pipes[p]} :: 0 <= p < MAX_PIPES ==> io.pipes[p] == Pipe(false, 0, 0)
  {
    Io(seq(MAX_TASKS, _ => seq(MAX_FDS, _ => NO_FD)), seq(MAX_PIPES, _ => Pipe(false, 0, 0)))
  }

  lemma {:induction false} RunKeeps(io: Io, calls: seq<Call>)
    requires Inv(io) && Runnable(io, calls)
    ensures Inv(Run(io, calls))
    decreases |calls|
  {
    if calls != [] {
      CallKeeps(io, calls[0]);
      RunKeeps(After(io, calls[0]), calls[1..]);
    }
  }

  /** Over every run a pipe's counters are the number of its write and read ends among all descriptors of
      all tasks, it is in use iff it has an end, and every end names a pipe in use. */
  lemma CountersAgree(calls: seq<Call>, p: nat)
    requires p < MAX_PIPES && Runnable(Empty(), calls)
    ensures var io := Run(Empty(), calls);
            && io.pipes[p].writers == |Ends(io, p, true)| && io.pipes[p].readers == |Ends(io, p, false)|
            && (io.pipes[p].used <==> Ends(io, p, true) + Ends(io, p, false) != {})
    ensures var io := Run(Empty(), calls);
            forall t, fd ::
              0 <= t < MAX_TASKS && 0 <= fd < MAX_FDS && io.tables[t][fd].used && io.tables[t][fd].kind != File ==>
              io.tables[t][fd].node < MAX_PIPES && io.pipes[io.tables[t][fd].node].used
  {
    EmptyInv();
    RunKeeps(Empty(), calls);
    var io := Run(Empty(), calls);
    forall t, fd | 0 <= t < MAX_TASKS && 0 <= fd < MAX_FDS && io.tables[t][fd].used && io.tables[t][fd].kind != File
      ensures io.tables[t][fd].node < MAX_PIPES && io.pipes[io.tables[t][fd].node].used
    {
      NamedInUse(io, NO_SPARE, t, fd);
    }
  }

  lemma EmptyInv()
    ensures Inv(Empty())
  {
    var io := Empty();
    forall p | 0 <= p < MAX_PIPES ensures Ends(io, p, true) == {} && Ends(io, p, false) == {} {
    }
  }

  /** No pipe slot is handed out again while a descriptor still names it, and only a call that closes ends
      can free one. */
  lemma NoRecycledPipe(io: Io, call: Call, p: nat)
    requires Inv(io) && Enabled(io, call) && p < MAX_PIPES && io.pipes[p].used && !After(io, call).pipes[p].used
    ensures Ends(After(io, call), p, true) == {} && Ends(After(io, call), p, false) == {}
    ensures call.Close? || call.DupTo? || call.End?
  {
    CallKeeps(io, call);
    match call
    case MakePipe(t) => PipeMadeSpec(io, t);
    case Fork(t, child) => ClonedKeepsUsed(io, t, child, 0, p);
    case _ =>
  }

  lemma {:induction false} ClonedKeepsUsed(io: Io, parent: nat, child: nat, fd: nat, p: nat)
    requires Sized(io) && parent < MAX_TASKS && child < MAX_TASKS && fd <= MAX_FDS && p < MAX_PIPES && io.pipes[p].used
    ensures ClonedFrom(io, parent, child, fd).pipes[p].used
    decreases MAX_FDS - fd
  {
    if fd < MAX_FDS {
      var e := io.tables[parent][fd];
      var w := SetFd(io, child, fd, e);
      ClonedKeepsUsed(if e.used then Retained(w, e) else w, parent, child, fd + 1, p);
    }
  }

  // ---- the code -----------------------------------------------------------------------------------

  class Descriptors {
    const tables: array2<Fd>
    const pipes: array<Pipe>

    ghost predicate Shape() {
      tables.Length0 == MAX_TASKS && tables.Length1 == MAX_FDS && pipes.Length == MAX_PIPES
    }

    ghost function Row(t: nat): (r: seq<Fd>)
      requires Shape() && t < MAX_TASKS
      reads tables
      ensures |r| == MAX_FDS && forall k :: 0 <= k < MAX_FDS ==> r[k] == tables[t, k]
    {
      seq(MAX_FDS, k requires 0 <= k < MAX_FDS reads tables => tables[t, k])
    }

    ghost function State(): (io: Io)
      requires Shape()
      reads tables, pipes
      ensures Sized(io) && io.pipes == pipes[..]
      ensures forall t, k {:trigger io.tables[t][k]} :: 0 <= t < MAX_TASKS && 0 <= k < MAX_FDS ==>
        io.tables[t][k] == tables[t, k]
    {
      Io(seq(MAX_TASKS, t requires 0 <= t < MAX_TASKS reads tables => Row(t)), pipes[..])
    }

    ghost predicate Valid()
      reads tables, pipes
    {
      Shape() && Inv(State())
    }

    constructor ()
      ensures Valid() && fresh(tables) && fresh(pipes) && State() == Empty()
    {
      tables := new Fd[MAX_TASKS, MAX_FDS]((_, _) => NO_FD);
      pipes := new Pipe[MAX_PIPES](_ => Pipe(false, 0, 0));
      new;
      SameIo(State(), Empty());
      EmptyInv();
    }

    method Put(t: nat, fd: nat, e: Fd)
      requires Shape() && t < MAX_TASKS && fd < MAX_FDS
      modifies tables
      ensures State() == SetFd(old(State()), t, fd, e)
    {
      tables[t, fd] := e;
      SameIo(State(), SetFd(old(State()), t, fd, e));
    }

    /** `close_end` */
    method CloseEnd(p: nat, writer: bool)
      requires Shape()
      modifies pipes
      ensures State() == old(State()).(pipes := EndClosed(old(State()).pipes, p, writer))
    {
      if p < MAX_PIPES && pipes[p].used {
        var previous := if writer then pipes[p].writers else pipes[p].readers;
        if previous > 0 {
          pipes[p] := if writer then pipes[p].(writers := previous - 1) else pipes[p].(readers := previous - 1);
        }
        if pipes[p].writers == 0 && pipes[p].readers == 0 {
          pipes[p] := pipes[p].(used := false);
        }
      }
      SameIo(State(), old(State()).(pipes := EndClosed(old(State()).pipes, p, writer)));
    }

    /** `add_ref` */
    method AddRef(p: nat, writer: bool)
      requires Shape()
      modifies pipes
      ensures State() == old(State()).(pipes := RefAdded(old(State()).pipes, p, writer))
    {
      if p < MAX_PIPES && pipes[p].used {
        pipes[p] := if writer then pipes[p].(writers := pipes[p].writers + 1)
          else pipes[p].(readers := pipes[p].readers + 1);
      }
      SameIo(State(), old(State()).(pipes := RefAdded(old(State()).pipes, p, writer)));
    }

    method Retain(e: Fd)
      requires Shape()
      modifies pipes
      ensures State() == Retained(old(State()), e)
    {
      match e.kind
      case PipeRead => AddRef(e.node, false);
      case PipeWrite => AddRef(e.node, true);
      case File =>
    }

    method Release(e: Fd)
      requires Shape()
      modifies pipes
      ensures State() == Released(old(State()), e)
    {
      match e.kind
      case PipeRead => CloseEnd(e.node, false);
      case PipeWrite => CloseEnd(e.node, true);
      case File =>
    }

    method FindFree(t: nat) returns (fd: nat)
      requires Shape() && t < MAX_TASKS
      ensures fd == FirstFree(State().tables[t], FIRST_FREE_FD)
    {
      ghost var table := State().tables[t];
      fd := FIRST_FREE_FD;
      while fd < MAX_FDS && tables[t, fd].used
        invariant FIRST_FREE_FD <= fd <= MAX_FDS && FirstFree(table, FIRST_FREE_FD) == FirstFree(table, fd)
      {
        fd := fd + 1;
      }
    }

    /** `allocate` and `allocate_pipe` */
    method Allocate(t: nat, kind: Kind, node: nat) returns (r: Option<nat>)
      requires Shape() && t < MAX_TASKS
      modifies tables
      ensures (State(), r) == Opened(old(State()), t, kind, node)
    {
      var fd := FindFree(t);
      if fd == MAX_FDS {
        return None;
      }
      Put(t, fd, Fd(true, kind, node, 0));
      return Some(fd);
    }

    method CloseFd(t: nat, fd: nat) returns (done: bool)
      requires Shape() && t < MAX_TASKS
      modifies tables, pipes
      ensures (State(), done) == Closed(old(State()), t, fd)
    {
      if fd >= MAX_FDS || !tables[t, fd].used {
        return false;
      }
      Release(tables[t, fd]);
      Put(t, fd, NO_FD);
      return true;
    }

    method DupFd(t: nat, fd: nat) returns (r: Option<nat>)
      requires Valid() && t < MAX_TASKS
      modifies tables, pipes
      ensures Valid() && (State(), r) == Duped(old(State()), t, fd)
    {
      DupedKeeps(State(), t, fd);
      if fd >= MAX_FDS || !tables[t, fd].used {
        return None;
      }
      var e := tables[t, fd];
      var n := FindFree(t);
      if n == MAX_FDS {
        return None;
      }
      Put(t, n, e);
      Retain(e);
      return Some(n);
    }

    method DupFdTo(t: nat, fd: nat, n: nat) returns (r: Option<nat>)
      requires Valid() && t < MAX_TASKS
      modifies tables, pipes
      ensures Valid() && (State(), r) == DupedTo(old(State()), t, fd, n)
    {
      DupedToKeeps(State(), t, fd, n);
      if fd >= MAX_FDS || n >= MAX_FDS || !tables[t, fd].used {
        return None;
      }
      if fd == n {
        return Some(n);
      }
      var e, previous := tables[t, fd], tables[t, n];
      if previous.used {
        Release(previous);
      }
      Put(t, n, e);
      Retain(e);
      return Some(n);
    }

    method CloneInto(parent: nat, child: nat)
      requires Valid() && Enabled(State(), Call.Fork(parent, child))
      modifies tables, pipes
      ensures Valid() && State() == ClonedFrom(old(State()), parent, child, 0)
    {
      ClonedKeeps(State(), parent, child, 0);
      var fd := 0;
      while fd < MAX_FDS
        invariant 0 <= fd <= MAX_FDS
        invariant ClonedFrom(State(), parent, child, fd) == ClonedFrom(old(State()), parent, child, 0)
      {
        var e := tables[parent, fd];
        Put(child, fd, e);
        if e.used {
          Retain(e);
        }
        fd := fd + 1;
      }
    }

    method CloseAll(t: nat)
      requires Valid() && t < MAX_TASKS
      modifies tables, pipes
      ensures Valid() && State() == AllClosedFrom(old(State()), t, 0)
    {
      AllClosedKeeps(State(), t, 0);
      var fd := 0;
      while fd < MAX_FDS
        invariant 0 <= fd <= MAX_FDS
        invariant AllClosedFrom(State(), t, fd) == AllClosedFrom(old(State()), t, 0)
      {
        if tables[t, fd].used {
          Release(tables[t, fd]);
          Put(t, fd, NO_FD);
        }
        fd := fd + 1;
      }
    }

    method CreateSlot() returns (p: Option<nat>)
      requires Shape()
      modifies pipes
      ensures var i := FirstFreePipe(old(State()).pipes, 0);
              if i == MAX_PIPES then p == None && State() == old(State())
              else p == Some(i) && State() == old(State()).(pipes := old(State()).pipes[i := Pipe(true, 1, 1)])
    {
      var i := 0;
      while i < MAX_PIPES
        invariant 0 <= i <= MAX_PIPES && FirstFreePipe(pipes[..], 0) == FirstFreePipe(pipes[..], i)
      {
        if !pipes[i].used {
          pipes[i] := Pipe(true, 1, 1);
          SameIo(State(), old(State()).(pipes := old(State()).pipes[i := Pipe(true, 1, 1)]));
          return Some(i);
        }
        i := i + 1;
      }
      return None;
    }

    /** `create_pipe` */
    method CreatePipe(t: nat) returns (r: Option<(nat, nat)>)
      requires Valid() && t < MAX_TASKS
      modifies tables, pipes
      ensures Valid() && (State(), r) == PipeMade(old(State()), t)
    {
      PipeMadeSpec(State(), t);
      var p := CreateSlot();
      if p.None? {
        return None;
      }
      var readFd := Allocate(t, PipeRead, p.value);
      if readFd.None? {
        CloseEnd(p.value, false);
        CloseEnd(p.value, true);
        return None;
      }
      var writeFd := Allocate(t, PipeWrite, p.value);
      if writeFd.None? {
        var _ := CloseFd(t, readFd.value);
        CloseEnd(p.value, true);
        return None;
      }
      return Some((readFd.value, writeFd.value));
    }
  }

  lemma SameIo(a: Io, b: Io)
    requires Sized(a) && Sized(b) && a.pipes == b.pipes
    requires forall t, k {:trigger a.tables[t][k]} :: 0 <= t < MAX_TASKS && 0 <= k < MAX_FDS ==>
      a.tables[t][k] == b.tables[t][k]
    ensures a == b
  {
    forall t | 0 <= t < MAX_TASKS ensures a.tables[t] == b.tables[t] {
    }
  }
}

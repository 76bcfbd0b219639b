/** Descriptor tables and the end counters of pipes (kernel/src/level0a/core/fd.rs, pipe.rs and
    `create_pipe` in kernel_api.rs): the counters in one module always equal a count over the tables of all
    tasks in the other. */
module Pipes {
  import opened Basics

  const MAX_TASKS: nat := 8
  const MAX_FDS: nat := 16
  const FIRST_FREE_FD: nat := 3
  const MAX_PIPES: nat := 4

  datatype Kind = File | PipeRead | PipeWrite

  datatype Fd = Fd(used: bool, kind: Kind, node: nat, offset: nat)

  const NO_FD: Fd := Fd(false, File, 0, 0)

  /** A pipe slot: in use, and how many descriptors are its write and its read end. */
  datatype Pipe = Pipe(used: bool, writers: nat, readers: nat)

  datatype Io = Io(tables: seq<seq<Fd>>, pipes: seq<Pipe>)

  predicate Sized(io: Io) {
    && |io.tables| == MAX_TASKS && |io.pipes| == MAX_PIPES
    && forall t :: 0 <= t < MAX_TASKS ==> |io.tables[t]| == MAX_FDS
  }

  // ---- one call -----------------------------------------------------------------------------------

  function SetFd(io: Io, t: nat, fd: nat, e: Fd): (r: Io)
    requires Sized(io) && t < MAX_TASKS && fd < MAX_FDS
    ensures Sized(r)
  {
    io.(tables := io.tables[t := io.tables[t][fd := e]])
  }

  /** `close_end` */
  function EndClosed(pipes: seq<Pipe>, p: nat, writer: bool): (r: seq<Pipe>)
    ensures |r| == |pipes|
  {
    if p >= |pipes| || !pipes[p].used then pipes
    else
      var x := pipes[p];
      var y := if writer then x.(writers := if x.writers > 0 then x.writers - 1 else 0)
               else x.(readers := if x.readers > 0 then x.readers - 1 else 0);
      pipes[p := y.(used := y.writers != 0 || y.readers != 0)]
  }

  /** `add_ref` */
  function RefAdded(pipes: seq<Pipe>, p: nat, writer: bool): (r: seq<Pipe>)
    ensures |r| == |pipes|
  {
    if p >= |pipes| || !pipes[p].used then pipes
    else
      var x := pipes[p];
      pipes[p := if writer then x.(writers := x.writers + 1) else x.(readers := x.readers + 1)]
  }

  function Retained(io: Io, e: Fd): (r: Io)
    requires Sized(io)
    ensures Sized(r) && r.tables == io.tables
  {
    if e.kind == File then io else io.(pipes := RefAdded(io.pipes, e.node, e.kind == PipeWrite))
  }

  function Released(io: Io, e: Fd): (r: Io)
    requires Sized(io)
    ensures Sized(r) && r.tables == io.tables
  {
    if e.kind == File then io else io.(pipes := EndClosed(io.pipes, e.node, e.kind == PipeWrite))
  }

  function FirstFree(table: seq<Fd>, fd: nat): (r: nat)
    requires fd <= |table|
    ensures fd <= r <= |table|
    ensures r < |table| ==> !table[r].used
    ensures forall k :: fd <= k < r ==> table[k].used
    decreases |table| - fd
  {
    if fd == |table| || !table[fd].used then fd else FirstFree(table, fd + 1)
  }

  /** `allocate` and `allocate_pipe` */
  function Opened(io: Io, t: nat, kind: Kind, node: nat): (r: (Io, Option<nat>))
    requires Sized(io) && t < MAX_TASKS
    ensures Sized(r.0) && r.0.pipes == io.pipes
  {
    var fd := FirstFree(io.tables[t], FIRST_FREE_FD);
    if fd == MAX_FDS then (io, None) else (SetFd(io, t, fd, Fd(true, kind, node, 0)), Some(fd))
  }

  /** `close` */
  function Closed(io: Io, t: nat, fd: nat): (r: (Io, bool))
    requires Sized(io) && t < MAX_TASKS
    ensures Sized(r.0)
  {
    if fd >= MAX_FDS || !io.tables[t][fd].used then (io, false)
    else (SetFd(Released(io, io.tables[t][fd]), t, fd, NO_FD), true)
  }

  /** `dup` */
  function Duped(io: Io, t: nat, fd: nat): (r: (Io, Option<nat>))
    requires Sized(io) && t < MAX_TASKS
    ensures Sized(r.0)
  {
    if fd >= MAX_FDS || !io.tables[t][fd].used then (io, None)
    else
      var e, n := io.tables[t][fd], FirstFree(io.tables[t], FIRST_FREE_FD);
      if n == MAX_FDS then (io, None) else (Retained(SetFd(io, t, n, e), e), Some(n))
  }

  /** `dup2`: the old end is released before the new one is counted. */
  function DupedTo(io: Io, t: nat, fd: nat, n: nat): (r: (Io, Option<nat>))
    requires Sized(io) && t < MAX_TASKS
    ensures Sized(r.0)
  {
    if fd >= MAX_FDS || n >= MAX_FDS || !io.tables[t][fd].used then (io, None)
    else if fd == n then (io, Some(n))
    else
      var e, previous := io.tables[t][fd], io.tables[t][n];
      var freed := if previous.used then Released(io, previous) else io;
      (Retained(SetFd(freed, t, n, e), e), Some(n))
  }

  /** `clone_into`, from descriptor `fd` on. */
  function ClonedFrom(io: Io, parent: nat, child: nat, fd: nat): (r: Io)
    requires Sized(io) && parent < MAX_TASKS && child < MAX_TASKS && fd <= MAX_FDS
    ensures Sized(r)
    decreases MAX_FDS - fd
  {
    if fd == MAX_FDS then io
    else
      var e := io.tables[parent][fd];
      var w := SetFd(io, child, fd, e);
      ClonedFrom(if e.used then Retained(w, e) else w, parent, child, fd + 1)
  }

  /** `close_all`, from descriptor `fd` on. */
  function AllClosedFrom(io: Io, t: nat, fd: nat): (r: Io)
    requires Sized(io) && t < MAX_TASKS && fd <= MAX_FDS
    ensures Sized(r)
    decreases MAX_FDS - fd
  {
    if fd == MAX_FDS then io else AllClosedFrom(Closed(io, t, fd).0, t, fd + 1)
  }

  function FirstFreePipe(pipes: seq<Pipe>, p: nat): (r: nat)
    requires p <= |pipes|
    ensures p <= r <= |pipes|
    ensures r < |pipes| ==> !pipes[r].used
    ensures forall k :: p <= k < r ==> pipes[k].used
    decreases |pipes| - p
  {
    if p == |pipes| || !pipes[p].used then p else FirstFreePipe(pipes, p + 1)
  }

  /** `create_pipe` with its two roll-backs. */
  function PipeMade(io: Io, t: nat): (r: (Io, Option<(nat, nat)>))
    requires Sized(io) && t < MAX_TASKS
    ensures Sized(r.0)
  {
    var p := FirstFreePipe(io.pipes, 0);
    if p == MAX_PIPES then (io, None)
    else
      var made := io.(pipes := io.pipes[p := Pipe(true, 1, 1)]);
      var (one, readFd) := Opened(made, t, PipeRead, p);
      if readFd.None? then (one.(pipes := EndClosed(EndClosed(one.pipes, p, false), p, true)), None)
      else
        var (two, writeFd) := Opened(one, t, PipeWrite, p);
        if writeFd.None? then
          var back := Closed(two, t, readFd.value).0;
          (back.(pipes := EndClosed(back.pipes, p, true)), None)
        else (two, Some((readFd.value, writeFd.value)))
  }

  // ---- what a call answers --------------------------------------------------------------------------

  predicate TableFull(table: seq<Fd>)
    requires |table| == MAX_FDS
  {
    forall k :: FIRST_FREE_FD <= k < MAX_FDS ==> table[k].used
  }

  /** Descriptor `fd` was the lowest free one from 3 on. */
  predicate LowestFree(table: seq<Fd>, fd: nat)
    requires |table| == MAX_FDS
  {
    FIRST_FREE_FD <= fd < MAX_FDS && !table[fd].used && forall k :: FIRST_FREE_FD <= k < fd ==> table[k].used
  }

  /** Every descriptor but `fd` of task `t` is as it was. */
  predicate OthersKept(io: Io, r: Io, t: nat, fd: nat)
    requires Sized(io) && Sized(r)
  {
    forall u, k :: 0 <= u < MAX_TASKS && 0 <= k < MAX_FDS && (u != t || k != fd) ==> r.tables[u][k] == io.tables[u][k]
  }

  /** `allocate` gives out the lowest free descriptor, at the start of its file, or none when there is none. */
  lemma OpenedSpec(io: Io, t: nat, kind: Kind, node: nat)
    requires Sized(io) && t < MAX_TASKS
    ensures var (r, fd) := Opened(io, t, kind, node);
            if TableFull(io.tables[t]) then fd.None? && r == io
            else
              && fd.Some? && LowestFree(io.tables[t], fd.value)
              && r.tables[t][fd.value] == Fd(true, kind, node, 0) && OthersKept(io, r, t, fd.value)
  {
  }

  /** `close` frees a descriptor in use and refuses any other. */
  lemma ClosedSpec(io: Io, t: nat, fd: nat)
    requires Sized(io) && t < MAX_TASKS
    ensures var (r, ok) := Closed(io, t, fd);
            && (ok <==> fd < MAX_FDS && io.tables[t][fd].used)
            && (if ok then !r.tables[t][fd].used && OthersKept(io, r, t, fd) else r == io)
  {
  }

  /** `dup` names the same object by the lowest free descriptor, if there is an object and a descriptor. */
  lemma DupedSpec(io: Io, t: nat, fd: nat)
    requires Sized(io) && t < MAX_TASKS
    ensures var (r, n) := Duped(io, t, fd);
            && (n.Some? <==> fd < MAX_FDS && io.tables[t][fd].used && !TableFull(io.tables[t]))
            && (if n.Some? then
                  && LowestFree(io.tables[t], n.value) && n.value != fd
                  && r.tables[t][n.value] == io.tables[t][fd] && OthersKept(io, r, t, n.value)
                else r == io)
  {
  }

  /** `dup2` names the same object by the descriptor asked for, whatever that named before. */
  lemma DupedToSpec(io: Io, t: nat, fd: nat, n: nat)
    requires Sized(io) && t < MAX_TASKS
    ensures var (r, m) := DupedTo(io, t, fd, n);
            && (m.Some? <==> fd < MAX_FDS && io.tables[t][fd].used && n < MAX_FDS)
            && (if m.Some? then
                  m.value == n && r.tables[t][n] == io.tables[t][fd] && OthersKept(io, r, t, n)
                else r == io)
  {
  }

  // ---- the invariant ------------------------------------------------------------------------------

  /** Descriptor `fd` of task `t` is the write (or read) end of pipe `p`. */
  predicate IsEnd(io: Io, t: nat, fd: nat, p: nat, writer: bool)
    requires Sized(io) && t < MAX_TASKS && fd < MAX_FDS
  {
    var e := io.tables[t][fd];
    e.used && e.node == p && e.kind == (if writer then PipeWrite else PipeRead)
  }

  function Ends(io: Io, p: nat, writer: bool): set<(nat, nat)>
    requires Sized(io)
  {
    set t, fd | 0 <= t < MAX_TASKS && 0 <= fd < MAX_FDS && IsEnd(io, t, fd, p, writer) :: (t, fd)
  }

  /** Ends of pipe `p` that are counted but not yet in a table, in the middle of `create_pipe`. */
  datatype Spare = Spare(p: nat, writers: nat, readers: nat)

  ghost predicate Counted(io: Io, x: Spare) {
    && Sized(io)
    && (forall p {:trigger io.pipes[p]} :: 0 <= p < MAX_PIPES ==>
          && io.pipes[p].writers == |Ends(io, p, true)| + (if p == x.p then x.writers else 0)
          && io.pipes[p].readers == |Ends(io, p, false)| + (if p == x.p then x.readers else 0)
          && (io.pipes[p].used <==> io.pipes[p].writers > 0 || io.pipes[p].readers > 0))
    && (forall t, fd {:trigger io.tables[t][fd]} ::
       0 <= t < MAX_TASKS && 0 <= fd < MAX_FDS && io.tables[t][fd].used && io.tables[t][fd].kind != File ==>
          io.tables[t][fd].node < MAX_PIPES)
    && (forall t, fd {:trigger io.tables[t][fd]} ::
       0 <= t < MAX_TASKS && 0 <= fd < MAX_FDS && !io.tables[t][fd].used ==> io.tables[t][fd] == NO_FD)
  }

  const NO_SPARE: Spare := Spare(MAX_PIPES, 0, 0)

  ghost predicate Inv(io: Io) {
    Counted(io, NO_SPARE)
  }

  lemma EndsSet(io: Io, t: nat, fd: nat, e: Fd, p: nat, writer: bool)
    requires Sized(io) && t < MAX_TASKS && fd < MAX_FDS
    ensures |Ends(SetFd(io, t, fd, e), p, writer)|
         == |Ends(io, p, writer)| - (if IsEnd(io, t, fd, p, writer) then 1 else 0) +
           (if IsEnd(SetFd(io, t, fd, e), t, fd, p, writer) then 1 else 0)
  {
    hide SetFd, IsEnd;
    var before, after := Ends(io, p, writer), Ends(SetFd(io, t, fd, e), p, writer);
    forall y: (nat, nat) | y != (t, fd) ensures y in after <==> y in before {
      if y.0 < MAX_TASKS && y.1 < MAX_FDS {
        OtherEnd(io, t, fd, e, y.0, y.1, p, writer);
      }
    }
    SetChange(before, after, (t, fd));
  }

  lemma OtherEnd(io: Io, t: nat, fd: nat, e: Fd, a: nat, b: nat, p: nat, writer: bool)
    requires Sized(io) && t < MAX_TASKS && fd < MAX_FDS && a < MAX_TASKS && b < MAX_FDS && (a, b) != (t, fd)
    ensures IsEnd(SetFd(io, t, fd, e), a, b, p, writer) == IsEnd(io, a, b, p, writer)
  {
  }

  /** A descriptor names a pipe that is in use. */
  lemma NamedInUse(io: Io, x: Spare, t: nat, fd: nat)
    requires Counted(io, x) && t < MAX_TASKS && fd < MAX_FDS && io.tables[t][fd].used && io.tables[t][fd].kind != File
    ensures var p, w := io.tables[t][fd].node, io.tables[t][fd].kind == PipeWrite;
            p < MAX_PIPES && io.pipes[p].used && |Ends(io, p, w)| > 0
  {
    var p, w := io.tables[t][fd].node, io.tables[t][fd].kind == PipeWrite;
    assert (t, fd) in Ends(io, p, w);
  }

  // ---- each call keeps it -------------------------------------------------------------------------

  lemma ClosedKeeps(io: Io, x: Spare, t: nat, fd: nat)
    requires Counted(io, x) && t < MAX_TASKS
    ensures Counted(Closed(io, t, fd).0, x)
  {
    if fd < MAX_FDS && io.tables[t][fd].used {
      var e := io.tables[t][fd];
      var g := Closed(io, t, fd).0;
      if e.kind != File {
        NamedInUse(io, x, t, fd);
      }
      forall p | 0 <= p < MAX_PIPES
        ensures |Ends(g, p, true)| == |Ends(io, p, true)| - (if IsEnd(io, t, fd, p, true) then 1 else 0)
        ensures |Ends(g, p, false)| == |Ends(io, p, false)| - (if IsEnd(io, t, fd, p, false) then 1 else 0)
      {
        EndsSet(io, t, fd, NO_FD, p, true);
        EndsSet(io, t, fd, NO_FD, p, false);
        SameTables(SetFd(io, t, fd, NO_FD), g, p);
      }
    }
  }

  lemma SameTables(io: Io, g: Io, p: nat)
    requires Sized(io) && Sized(g) && g.tables == io.tables
    ensures Ends(g, p, true) == Ends(io, p, true) && Ends(g, p, false) == Ends(io, p, false)
  {
  }

  /** A copy of a used descriptor in a free place. */
  lemma CopyKeeps(io: Io, x: Spare, t: nat, fd: nat, s: nat, from: nat)
    requires Counted(io, x) && t < MAX_TASKS && fd < MAX_FDS && !io.tables[t][fd].used
    requires s < MAX_TASKS && from < MAX_FDS && io.tables[s][from].used
    ensures var e := io.tables[s][from]; Counted(Retained(SetFd(io, t, fd, e), e), x)
  {
    var e := io.tables[s][from];
    var g := Retained(SetFd(io, t, fd, e), e);
    if e.kind != File {
      NamedInUse(io, x, s, from);
    }
    forall p | 0 <= p < MAX_PIPES
      ensures |Ends(g, p, true)| == |Ends(io, p, true)| + (if e.kind == PipeWrite && e.node == p then 1 else 0)
      ensures |Ends(g, p, false)| == |Ends(io, p, false)| + (if e.kind == PipeRead && e.node == p then 1 else 0)
    {
      EndsSet(io, t, fd, e, p, true);
      EndsSet(io, t, fd, e, p, false);
      SameTables(SetFd(io, t, fd, e), g, p);
    }
  }

  /** An unused entry written over an unused one. */
  lemma UnusedKeeps(io: Io, x: Spare, t: nat, fd: nat, e: Fd)
    requires Counted(io, x) && t < MAX_TASKS && fd < MAX_FDS && !io.tables[t][fd].used && e == NO_FD
    ensures Counted(SetFd(io, t, fd, e), x)
  {
    forall p | 0 <= p < MAX_PIPES
      ensures |Ends(SetFd(io, t, fd, e), p, true)| == |Ends(io, p, true)|
        && |Ends(SetFd(io, t, fd, e), p, false)| == |Ends(io, p, false)|
    {
      EndsSet(io, t, fd, e, p, true);
      EndsSet(io, t, fd, e, p, false);
    }
  }

  lemma DupedKeeps(io: Io, t: nat, fd: nat)
    requires Inv(io) && t < MAX_TASKS
    ensures Inv(Duped(io, t, fd).0)
  {
    var n := FirstFree(io.tables[t], FIRST_FREE_FD);
    if fd < MAX_FDS && io.tables[t][fd].used && n < MAX_FDS {
      CopyKeeps(io, NO_SPARE, t, n, t, fd);
    }
  }

  /** `dup2` is closing and copying, also onto an end of the same pipe: the copied end keeps the pipe
      alive in between. */
  lemma DupedToKeeps(io: Io, t: nat, fd: nat, n: nat)
    requires Inv(io) && t < MAX_TASKS
    ensures Inv(DupedTo(io, t, fd, n).0)
    ensures fd < MAX_FDS && n < MAX_FDS && fd != n && io.tables[t][fd].used ==>
      DupedTo(io, t, fd, n).0 == var c := Closed(io, t, n).0;
      Retained(SetFd(c, t, n, io.tables[t][fd]), io.tables[t][fd])
  {
    if fd < MAX_FDS && n < MAX_FDS && fd != n && io.tables[t][fd].used {
      ClosedKeeps(io, NO_SPARE, t, n);
      var c := Closed(io, t, n).0;
      CopyKeeps(c, NO_SPARE, t, n, t, fd);
      var e := io.tables[t][fd];
      assert io.tables[t][n := NO_FD][n := e] == io.tables[t][n := e];
      assert io.tables[t := io.tables[t][n := NO_FD]][t := io.tables[t][n := e]]
        == io.tables[t := io.tables[t][n := e]];
    }
  }

  lemma {:induction false} ClonedKeeps(io: Io, parent: nat, child: nat, fd: nat)
    requires Inv(io) && parent < MAX_TASKS && child < MAX_TASKS && parent != child && fd <= MAX_FDS
    requires forall k :: fd <= k < MAX_FDS ==> !io.tables[child][k].used
    ensures var r := ClonedFrom(io, parent, child, fd);
            && Inv(r) && r.tables[parent] == io.tables[parent]
            && (forall k :: fd <= k < MAX_FDS ==> r.tables[child][k] == io.tables[parent][k])
            && (forall k :: 0 <= k < fd ==> r.tables[child][k] == io.tables[child][k])
            && forall t :: 0 <= t < MAX_TASKS && t != child ==> r.tables[t] == io.tables[t]
    decreases MAX_FDS - fd
  {
    if fd < MAX_FDS {
      var e := io.tables[parent][fd];
      var w := SetFd(io, child, fd, e);
      if e.used {
        CopyKeeps(io, NO_SPARE, child, fd, parent, fd);
        ClonedKeeps(Retained(w, e), parent, child, fd + 1);
      } else {
        UnusedKeeps(io, NO_SPARE, child, fd, e);
        ClonedKeeps(w, parent, child, fd + 1);
      }
    }
  }

  lemma {:induction false} AllClosedKeeps(io: Io, t: nat, fd: nat)
    requires Inv(io) && t < MAX_TASKS && fd <= MAX_FDS
    ensures var r := AllClosedFrom(io, t, fd);
            && Inv(r)
            && (forall k :: fd <= k < MAX_FDS ==> !r.tables[t][k].used)
            && (forall k :: 0 <= k < fd ==> r.tables[t][k] == io.tables[t][k])
            && forall s :: 0 <= s < MAX_TASKS && s != t ==> r.tables[s] == io.tables[s]
    decreases MAX_FDS - fd
  {
    if fd < MAX_FDS {
      ClosedKeeps(io, NO_SPARE, t, fd);
      AllClosedKeeps(Closed(io, t, fd).0, t, fd + 1);
    }
  }

  /** A fresh pipe: nobody named the slot, and both its ends are spare. */
  lemma MadeSpare(io: Io, p: nat)
    requires Inv(io) && p < MAX_PIPES && !io.pipes[p].used
    ensures Ends(io, p, true) == {} && Ends(io, p, false) == {}
    ensures Counted(io.(pipes := io.pipes[p := Pipe(true, 1, 1)]), Spare(p, 1, 1))
  {
    var g := io.(pipes := io.pipes[p := Pipe(true, 1, 1)]);
    forall q | 0 <= q < MAX_PIPES
      ensures Ends(g, q, true) == Ends(io, q, true) && Ends(g, q, false) == Ends(io, q, false) {
      SameTables(io, g, q);
    }
    assert |Ends(io, p, true)| == 0 && |Ends(io, p, false)| == 0;
  }

  /** A spare end gets its descriptor. */
  lemma OpenedSpare(io: Io, x: Spare, t: nat, writer: bool)
    requires Counted(io, x) && t < MAX_TASKS && x.p < MAX_PIPES && (if writer then x.writers > 0 else x.readers > 0)
    requires Opened(io, t, if writer then PipeWrite else PipeRead, x.p).1.Some?
    ensures Counted(Opened(io, t, if writer then PipeWrite else PipeRead, x.p).0,
                    if writer then x.(writers := x.writers - 1) else x.(readers := x.readers - 1))
  {
    var (g, fd) := Opened(io, t, if writer then PipeWrite else PipeRead, x.p);
    forall p | 0 <= p < MAX_PIPES
      ensures |Ends(g, p, true)| == |Ends(io, p, true)| + (if writer && p == x.p then 1 else 0)
      ensures |Ends(g, p, false)| == |Ends(io, p, false)| + (if !writer && p == x.p then 1 else 0)
    {
      EndsSet(io, t, fd.value, g.tables[t][fd.value], p, true);
      EndsSet(io, t, fd.value, g.tables[t][fd.value], p, false);
    }
  }

  /** How many descriptors from 3 on are free. */
  ghost function FreeFds(table: seq<Fd>): set<nat> {
    set fd | FIRST_FREE_FD <= fd < |table| && !table[fd].used
  }

  lemma FirstFreeMeans(table: seq<Fd>)
    requires |table| == MAX_FDS
    ensures var fd := FirstFree(table, FIRST_FREE_FD);
            if fd == MAX_FDS then FreeFds(table) == {} else fd in FreeFds(table)
  {
  }

  /** `create_pipe` succeeds exactly when a pipe slot and two descriptors are free; its failures, with
      either roll-back, leave everything as it was. */
  lemma PipeMadeSpec(io: Io, t: nat)
    requires Inv(io) && t < MAX_TASKS
    ensures var (g, r) := PipeMade(io, t);
            && Inv(g) && (r.None? ==> g == io)
            && (r.Some? <==> (exists p :: 0 <= p < MAX_PIPES && !io.pipes[p].used) && |FreeFds(io.tables[t])| >= 2)
            && (r.Some? ==>
                exists p :: 0 <= p < MAX_PIPES && !io.pipes[p].used && g.pipes == io.pipes[p := Pipe(true, 1, 1)]
                  && Ends(io, p, true) == {} && Ends(io, p, false) == {}
                  && Ends(g, p, true) == {(t, r.value.1)} && Ends(g, p, false) == {(t, r.value.0)})
  {
    var p := FirstFreePipe(io.pipes, 0);
    var free := FreeFds(io.tables[t]);
    if p < MAX_PIPES {
      MadeSpare(io, p);
      var made := io.(pipes := io.pipes[p := Pipe(true, 1, 1)]);
      FirstFreeMeans(io.tables[t]);
      var (one, readFd) := Opened(made, t, PipeRead, p);
      if readFd.None? {
        assert EndClosed(EndClosed(made.pipes, p, false), p, true) == io.pipes;
      } else {
        OpenedSpare(made, Spare(p, 1, 1), t, false);
        FirstFreeMeans(one.tables[t]);
        assert FreeFds(one.tables[t]) == free - {readFd.value};
        var (two, writeFd) := Opened(one, t, PipeWrite, p);
        if writeFd.None? {
          RolledBack(io, t, p, readFd.value);
        } else {
          OpenedSpare(one, Spare(p, 1, 0), t, true);
          FreshEnds(io, one, two, t, p, readFd.value, writeFd.value);
          assert |free| >= 2 by {
            assert writeFd.value in free - {readFd.value};
            TwoElements(free, readFd.value, writeFd.value);
          }
          assert Counted(two, NO_SPARE);
        }
      }
    }
  }

  lemma TwoElements(s: set<nat>, a: nat, b: nat)
    requires a in s && b in s && a != b
    ensures |s| >= 2
  {
    assert |s - {a}| >= 1 by {
      assert b in s - {a};
    }
  }

  lemma RolledBack(io: Io, t: nat, p: nat, fd: nat)
    requires Sized(io) && t < MAX_TASKS && p < MAX_PIPES && fd < MAX_FDS && io.tables[t][fd] == NO_FD
    requires io.pipes[p] == Pipe(false, 0, 0)
    ensures var two := SetFd(io.(pipes := io.pipes[p := Pipe(true, 1, 1)]), t, fd, Fd(true, PipeRead, p, 0));
            var back := Closed(two, t, fd).0;
            back.(pipes := EndClosed(back.pipes, p, true)) == io
  {
    var e := Fd(true, PipeRead, p, 0);
    assert io.tables[t][fd := e][fd := NO_FD] == io.tables[t];
    assert io.tables[t := io.tables[t][fd := e]][t := io.tables[t]] == io.tables;
    assert io.pipes[p := Pipe(true, 1, 1)][p := Pipe(true, 1, 0)][p := Pipe(false, 0, 0)] == io.pipes;
  }

  lemma FreshEnds(io: Io, one: Io, two: Io, t: nat, p: nat, a: nat, b: nat)
    requires Sized(io) && t < MAX_TASKS && a < MAX_FDS && b < MAX_FDS && a != b
    requires Ends(io, p, true) == {} && Ends(io, p, false) == {}
    requires one.tables == io.tables[t := io.tables[t][a := Fd(true, PipeRead, p, 0)]]
    requires Sized(one) && two.tables == one.tables[t := one.tables[t][b := Fd(true, PipeWrite, p, 0)]] && Sized(two)
    requires !io.tables[t][a].used && !io.tables[t][b].used
    ensures Ends(two, p, true) == {(t, b)} && Ends(two, p, false) == {(t, a)}
  {
    forall s, fd | 0 <= s < MAX_TASKS && 0 <= fd < MAX_FDS && (s != t || (fd != a && fd != b))
      ensures !IsEnd(two, s, fd, p, true) && !IsEnd(two, s, fd, p, false)
    {
      assert !IsEnd(io, s, fd, p, true) by {
        assert (s, fd) !in Ends(io, p, true);
      }
      assert !IsEnd(io, s, fd, p, false) by {
        assert (s, fd) !in Ends(io, p, false);
      }
    }
  }
}

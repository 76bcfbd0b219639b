/** The bytes in a pipe (kernel/src/level0a/core/pipe.rs): a ring that counts 1025 positions over 1024
    slots. Positions 1024 and 0 share a slot, so the ring is a queue except for one byte. */
module PipeRing {
  import opened Basics
  import Pipes

  const CAPACITY: nat := 1024
  const POSITIONS: nat := 1025

  /** The next position to write, the next to read, and the slots. */
  datatype Ring = Ring(head: nat, tail: nat, slots: seq<Byte>)

  ghost predicate Sized(r: Ring) {
    r.head < POSITIONS && r.tail < POSITIONS && |r.slots| == CAPACITY
  }

  function Next(p: nat): nat {
    (p + 1) % POSITIONS
  }

  function Slot(p: nat): nat {
    p % CAPACITY
  }

  /** How many positions are pending, and where the `j`-th of them is. */
  function Pending(r: Ring): int {
    if r.head >= r.tail then r.head - r.tail else r.head + POSITIONS - r.tail
  }

  function Position(r: Ring, j: nat): nat {
    (r.tail + j) % POSITIONS
  }

  /** The loop of `write`: byte by byte until the ring is full. */
  ghost function Written(r: Ring, bytes: seq<Byte>): (w: (Ring, nat))
    requires Sized(r)
    ensures Sized(w.0) && w.1 <= |bytes| && w.0.tail == r.tail
    decreases |bytes|
  {
    if bytes == [] || Next(r.head) == r.tail then (r, 0)
    else
      var (w, n) := Written(Ring(Next(r.head), r.tail, r.slots[Slot(r.head) := bytes[0]]), bytes[1..]);
      (w, n + 1)
  }

  /** The loop of `read`: at most `n` bytes. */
  ghost function ReadOut(r: Ring, n: nat): (w: (Ring, seq<Byte>))
    requires Sized(r)
    ensures Sized(w.0) && |w.1| <= n
    decreases n
  {
    if n == 0 || r.tail == r.head then (r, [])
    else
      var (w, rest) := ReadOut(r.(tail := Next(r.tail)), n - 1);
      (w, [r.slots[Slot(r.tail)]] + rest)
  }

  /** What the ring holds for the `j`-th pending byte: the byte itself, unless it lies at position 1024 and
      the one after it, at position 0, has been written over it. */
  ghost function Seen(r: Ring, q: seq<Byte>, j: nat): Byte
    requires j < |q|
  {
    if Position(r, j) == CAPACITY && j + 1 < |q| then q[j + 1] else q[j]
  }

  /** The ring holds the queue `q` of the bytes written and not yet read. */
  ghost predicate Holds(r: Ring, q: seq<Byte>) {
    && Sized(r) && |q| == Pending(r)
    && forall j {:trigger Seen(r, q, j)} :: 0 <= j < |q| ==> r.slots[Slot(Position(r, j))] == Seen(r, q, j)
  }

  lemma PositionIs(r: Ring, j: nat)
    requires Sized(r) && j <= CAPACITY
    ensures Position(r, j) == if r.tail + j < POSITIONS then r.tail + j else r.tail + j - POSITIONS
  {
  }

  /** One byte more: it takes the slot of at most one pending byte, that at position 1024. */
  lemma WriteOne(r: Ring, q: seq<Byte>, b: Byte)
    requires Holds(r, q) && Next(r.head) != r.tail
    ensures Holds(Ring(Next(r.head), r.tail, r.slots[Slot(r.head) := b]), q + [b])
  {
    var w := Ring(Next(r.head), r.tail, r.slots[Slot(r.head) := b]);
    assert Next(r.head) == if r.head == CAPACITY then 0 else r.head + 1;
    assert Slot(r.head) == if r.head == CAPACITY then 0 else r.head;
    forall j | 0 <= j < |q| + 1 ensures w.slots[Slot(Position(w, j))] == Seen(w, q + [b], j) {
      assert Slot(Position(w, j)) == if Position(w, j) == CAPACITY then 0 else Position(w, j);
      PositionIs(r, j);
      PositionIs(w, j);
      if j < |q| {
        PositionIs(r, j + 1);
        assert r.slots[Slot(Position(r, j))] == Seen(r, q, j);
      }
    }
  }

  lemma ReadOne(r: Ring, q: seq<Byte>)
    requires Holds(r, q) && r.tail != r.head
    ensures q != [] && r.slots[Slot(r.tail)] == Seen(r, q, 0) && Holds(r.(tail := Next(r.tail)), q[1..])
    ensures forall j :: 0 <= j < |q| - 1 ==> Seen(r.(tail := Next(r.tail)), q[1..], j) == Seen(r, q, j + 1)
  {
    var w := r.(tail := Next(r.tail));
    PositionIs(r, 0);
    forall j | 0 <= j < |q| - 1
      ensures Seen(w, q[1..], j) == Seen(r, q, j + 1) && w.slots[Slot(Position(w, j))] == Seen(w, q[1..], j)
    {
      PositionIs(w, j);
      PositionIs(r, j + 1);
      assert r.slots[Slot(Position(r, j + 1))] == Seen(r, q, j + 1);
    }
    assert r.slots[Slot(Position(r, 0))] == Seen(r, q, 0);
  }

  /** `write` to a pipe: nothing is written to a free slot or when nobody is left to read. */
  ghost function Sent(p: Pipes.Pipe, r: Ring, bytes: seq<Byte>): (w: (Ring, nat))
    requires Sized(r)
    ensures Sized(w.0) && w.1 <= |bytes|
  {
    if !p.used || p.readers == 0 then (r, 0) else Written(r, bytes)
  }

  /** `read` from a pipe: nothing is read from a free slot. */
  ghost function Received(p: Pipes.Pipe, r: Ring, n: nat): (w: (Ring, seq<Byte>))
    requires Sized(r)
    ensures Sized(w.0) && |w.1| <= n
  {
    if !p.used then (r, []) else ReadOut(r, n)
  }

  /** A write appends what fits, if somebody can read it. */
  lemma SentSpec(p: Pipes.Pipe, r: Ring, q: seq<Byte>, bytes: seq<Byte>)
    requires Holds(r, q)
    ensures var (w, n) := Sent(p, r, bytes);
            && Holds(w, q + bytes[..n])
            && n == (if !p.used || p.readers == 0 then 0
                     else if |bytes| < CAPACITY - |q| then |bytes| else CAPACITY - |q|)
  {
    WriteAppends(r, q, bytes);
    assert q + bytes[..0] == q;
  }

  /** A read takes from a slot in use, whether or not somebody can still write, as many bytes off the front
      as there are and fit; what is left stays queued. */
  lemma ReceivedSpec(p: Pipes.Pipe, r: Ring, q: seq<Byte>, n: nat)
    requires Holds(r, q)
    ensures var (w, bytes) := Received(p, r, n);
            && |bytes| == (if !p.used then 0 else if n < |q| then n else |q|)
            && Holds(w, q[|bytes|..]) && (bytes == [] ==> w == r)
            && forall j :: 0 <= j < |bytes| ==> bytes[j] == Seen(r, q, j)
  {
    ReadTakes(r, q, n);
    assert q[0..] == q;
  }

  /** What is written into an empty pipe comes out by reads of any sizes, also after the last writer has gone,
      in order unless a byte at position 1024 is overwritten. */
  lemma SentIsReceived(p: Pipes.Pipe, late: Pipes.Pipe, r: Ring, bytes: seq<Byte>, n: nat, m: nat)
    requires Holds(r, []) && p.used && p.readers > 0 && late.used && n + m == |bytes| <= CAPACITY
    ensures var (w, sent) := Sent(p, r, bytes);
            var (x, first) := Received(late, w, n);
            var (y, second) := Received(late, x, m);
            && sent == |bytes| && Holds(y, []) && |first| == n && |second| == m
            && (first + second == bytes <==> forall j :: 0 <= j < |bytes| ==> !Spoilt(w, bytes, j))
  {
    SentSpec(p, r, [], bytes);
    var w := Sent(p, r, bytes).0;
    assert [] + bytes[..|bytes|] == bytes;
    hide Sent, Received, Holds, Position;
    ReceivedSpec(late, w, bytes, n);
    var (x, first) := Received(late, w, n);
    ReceivedSpec(late, x, bytes[n..], m);
    var second := Received(late, x, m).1;
    SeenLater(late, w, bytes, n);
    assert bytes[n..][m..] == [];
    assert forall j :: 0 <= j < m ==> second[j] == Seen(w, bytes, n + j);
    InOrderIff(w, bytes, first + second);
  }

  /** The `j`-th byte left after a read of `n` is seen as the `n + j`-th was. */
  lemma SeenLater(p: Pipes.Pipe, r: Ring, q: seq<Byte>, n: nat)
    requires Holds(r, q) && n <= |q| && p.used
    ensures var w := Received(p, r, n).0;
            forall j :: 0 <= j < |q| - n ==> Seen(w, q[n..], j) == Seen(r, q, n + j)
  {
    ReadTail(r, n);
    ReadTakes(r, q, n);
    var w := ReadOut(r, n).0;
    forall j | 0 <= j < |q| - n ensures Seen(w, q[n..], j) == Seen(r, q, n + j) {
      PositionIs(w, j);
      PositionIs(r, n);
      PositionIs(r, n + j);
    }
  }

  /** The bytes as the ring sees them are those written exactly when none is spoilt. */
  lemma InOrderIff(r: Ring, q: seq<Byte>, bytes: seq<Byte>)
    requires |bytes| <= |q| && forall j :: 0 <= j < |bytes| ==> bytes[j] == Seen(r, q, j)
    ensures bytes == q[..|bytes|] <==> forall j :: 0 <= j < |bytes| ==> !Spoilt(r, q, j)
  {
    if bytes == q[..|bytes|] {
      forall j | 0 <= j < |bytes| ensures !Spoilt(r, q, j) {
        assert bytes[j] == q[..|bytes|][j];
        assert bytes[j] == Seen(r, q, j);
      }
    } else if forall j :: 0 <= j < |bytes| ==> !Spoilt(r, q, j) {
      forall j | 0 <= j < |bytes| ensures bytes[j] == q[j] {
        assert !Spoilt(r, q, j);
        assert bytes[j] == Seen(r, q, j);
      }
      assert false;
    }
  }

  /** The loop appends what fits. */
  lemma {:induction false} WriteAppends(r: Ring, q: seq<Byte>, bytes: seq<Byte>)
    requires Holds(r, q)
    ensures var (w, n) := Written(r, bytes);
            Holds(w, q + bytes[..n]) && n == (if |bytes| < CAPACITY - |q| then |bytes| else CAPACITY - |q|)
    decreases |bytes|
  {
    if bytes == [] || Next(r.head) == r.tail {
      assert q + bytes[..0] == q;
    } else {
      WriteOne(r, q, bytes[0]);
      WriteAppends(Ring(Next(r.head), r.tail, r.slots[Slot(r.head) := bytes[0]]), q + [bytes[0]], bytes[1..]);
      var n := Written(r, bytes).1;
      assert q + [bytes[0]] + bytes[1..][..n - 1] == q + bytes[..n];
    }
  }

  /** A read takes bytes off the front, as the ring sees them. */
  lemma {:induction false} ReadTakes(r: Ring, q: seq<Byte>, n: nat)
    requires Holds(r, q)
    ensures var (w, bytes) := ReadOut(r, n);
            && |bytes| == (if n < |q| then n else |q|) && Holds(w, q[|bytes|..])
            && forall j :: 0 <= j < |bytes| ==> bytes[j] == Seen(r, q, j)
    decreases n
  {
    if n == 0 || r.tail == r.head {
      assert q[0..] == q;
    } else {
      ReadOne(r, q);
      ReadTakes(r.(tail := Next(r.tail)), q[1..], n - 1);
      var bytes := ReadOut(r, n).1;
      assert q[1..][|bytes| - 1..] == q[|bytes|..];
    }
  }

  /** The pending byte at position 1024 has been overwritten by a different one. */
  ghost predicate Spoilt(r: Ring, q: seq<Byte>, j: nat) {
    j + 1 < |q| && Position(r, j) == CAPACITY && q[j] != q[j + 1]
  }

  /** A read returns the bytes in the order they were written exactly when none of them is spoilt. */
  lemma OrderKeptIff(r: Ring, q: seq<Byte>, n: nat)
    requires Holds(r, q)
    ensures var bytes := ReadOut(r, n).1;
            && |bytes| <= |q|
            && (bytes == q[..|bytes|] <==> forall j :: 0 <= j < |bytes| ==> !Spoilt(r, q, j))
  {
    ReadTakes(r, q, n);
    InOrderIff(r, q, ReadOut(r, n).1);
  }

  /** As long as positions 1024 and 0 are not pending together, the pipe is a queue. */
  lemma QueueUnlessBothPending(r: Ring, q: seq<Byte>, n: nat)
    requires Holds(r, q) && forall j :: 0 <= j < |q| - 1 ==> Position(r, j) != CAPACITY
    ensures var bytes := ReadOut(r, n).1; |bytes| <= |q| && bytes == q[..|bytes|]
  {
    OrderKeptIff(r, q, n);
  }

  /** Two bytes written across the seam come out as the second one twice. */
  lemma SeamLosesByte(slots: seq<Byte>)
    requires |slots| == CAPACITY
    ensures var w := Written(Ring(CAPACITY, CAPACITY, slots), [1, 2]);
            w.1 == 2 && ReadOut(w.0, 2).1 == [2, 2]
  {
    var r := Ring(CAPACITY, CAPACITY, slots);
    WriteAppends(r, [], [1, 2]);
    var w := Written(r, [1, 2]).0;
    assert [] + [1, 2][..2] == [1, 2];
    ReadTakes(w, [1, 2], 2);
    var bytes := ReadOut(w, 2).1;
    assert bytes[0] == Seen(w, [1, 2], 0) && bytes[1] == Seen(w, [1, 2], 1);
  }

  lemma Regroup(a: seq<Byte>, b: Byte, rest: seq<Byte>)
    ensures a + ([b] + rest) == a + [b] + rest
  {
  }

  lemma Advance(p: nat, n: nat)
    requires p < POSITIONS && n > 0
    ensures (Next(p) + (n - 1)) % POSITIONS == (p + n) % POSITIONS && Next(p) < POSITIONS
  {
  }

  /** Where the two ends stand after a write and after a read. */
  lemma {:induction false} WrittenHead(r: Ring, bytes: seq<Byte>)
    requires Sized(r)
    ensures var (w, n) := Written(r, bytes); w.head == (r.head + n) % POSITIONS
    decreases |bytes|
  {
    hide Next;
    if bytes != [] && Next(r.head) != r.tail {
      Advance(r.head, Written(r, bytes).1);
      WrittenHead(Ring(Next(r.head), r.tail, r.slots[Slot(r.head) := bytes[0]]), bytes[1..]);
    }
  }

  lemma {:induction false} ReadTail(r: Ring, n: nat)
    requires Sized(r)
    ensures var (w, bytes) := ReadOut(r, n); w.head == r.head && w.tail == (r.tail + |bytes|) % POSITIONS
    decreases n
  {
    hide Next;
    if n > 0 && r.tail != r.head {
      Advance(r.tail, |ReadOut(r, n).1|);
      ReadTail(r.(tail := Next(r.tail)), n - 1);
    }
  }

  /** A fresh pipe gets there: once 1024 bytes have been written and read, the next two bytes come out as the
      second one twice. */
  lemma FreshPipeLosesByte(bytes: seq<Byte>)
    requires |bytes| == CAPACITY
    ensures var a := Written(Ring(0, 0, seq(CAPACITY, _ => 0)), bytes).0;
            var b := ReadOut(a, CAPACITY).0;
            ReadOut(Written(b, [1, 2]).0, 2).1 == [2, 2]
  {
    hide Written, ReadOut, Seen;
    var start := Ring(0, 0, seq(CAPACITY, _ => 0));
    WriteAppends(start, [], bytes);
    WrittenHead(start, bytes);
    assert [] + bytes[..CAPACITY] == bytes;
    var a := Written(start, bytes).0;
    ReadTakes(a, bytes, CAPACITY);
    ReadTail(a, CAPACITY);
    var b := ReadOut(a, CAPACITY).0;
    assert b == Ring(CAPACITY, CAPACITY, b.slots);
    SeamLosesByte(b.slots);
  }

  // ---- the code -----------------------------------------------------------------------------------

  class Buffer {
    const slots: array<Byte>
    var head: nat
    var tail: nat
    /** The bytes written and not yet read. */
    ghost var queue: seq<Byte>

    ghost predicate Valid()
      reads this, slots
    {
      slots.Length == CAPACITY && Holds(State(), queue)
    }

    ghost function State(): Ring
      reads this, slots
    {
      Ring(head, tail, slots[..])
    }

    constructor ()
      ensures Valid() && queue == [] && fresh(slots)
    {
      slots := new Byte[CAPACITY](_ => 0);
      head, tail, queue := 0, 0, [];
    }

    /** A new pipe in the slot. */
    method Clear()
      requires Valid()
      modifies this
      ensures Valid() && State() == Ring(0, 0, old(State()).slots) && queue == []
    {
      head, tail, queue := 0, 0, [];
    }

    /** `write`; `pipe` holds the slot's counters. */
    method Write(pipe: Pipes.Pipe, bytes: seq<Byte>) returns (written: nat)
      requires Valid()
      modifies this, slots
      ensures Valid() && (State(), written) == Sent(pipe, old(State()), bytes)
      ensures queue == old(queue) + bytes[..written]
    {
      if !pipe.used || pipe.readers == 0 {
        assert queue + bytes[..0] == queue;
        return 0;
      }
      written := Fill(bytes);
    }

    method Fill(bytes: seq<Byte>) returns (written: nat)
      requires Valid()
      modifies this, slots
      ensures Valid() && (State(), written) == Written(old(State()), bytes)
      ensures queue == old(queue) + bytes[..written]
    {
      WriteAppends(State(), queue, bytes);
      written := 0;
      while written < |bytes|
        invariant 0 <= written <= |bytes| && slots.Length == CAPACITY && Sized(State())
        invariant queue == old(queue)
        invariant var (w, n) := Written(State(), bytes[written..]); (w, written + n) == Written(old(State()), bytes)
      {
        var next := (head + 1) % POSITIONS;
        if next == tail {
          break;
        }
        assert bytes[written..][1..] == bytes[written + 1..];
        slots[head % CAPACITY] := bytes[written];
        head := next;
        written := written + 1;
      }
      queue := queue + bytes[..written];
    }

    /** `read` */
    method Read(pipe: Pipes.Pipe, out: array<Byte>) returns (read: nat)
      requires Valid() && out != slots
      modifies this, out
      ensures Valid() && read <= out.Length
      ensures (State(), out[..read]) == Received(pipe, old(State()), out.Length)
      ensures read == if !pipe.used then 0 else if out.Length < |old(queue)| then out.Length else |old(queue)|
      ensures forall j :: 0 <= j < read ==> out[j] == Seen(old(State()), old(queue), j)
      ensures forall j :: read <= j < out.Length ==> out[j] == old(out[j])
      ensures queue == old(queue)[read..]
    {
      if !pipe.used {
        return 0;
      }
      read := Drain(out);
    }

    method Drain(out: array<Byte>) returns (read: nat)
      requires Valid() && out != slots
      modifies this, out
      ensures Valid() && read <= out.Length
      ensures (State(), out[..read]) == ReadOut(old(State()), out.Length)
      ensures read == if out.Length < |old(queue)| then out.Length else |old(queue)|
      ensures forall j :: 0 <= j < read ==> out[j] == Seen(old(State()), old(queue), j)
      ensures forall j :: read <= j < out.Length ==> out[j] == old(out[j])
      ensures queue == old(queue)[read..]
    {
      assert Sized(State());
      hide Seen, Position, Pending, Holds;
      ReadTakes(State(), queue, out.Length);
      ghost var all := ReadOut(State(), out.Length);
      read := 0;
      assert out[..0] + all.1 == all.1;
      while read < out.Length && tail != head
        invariant 0 <= read <= out.Length && slots.Length == CAPACITY && Sized(State()) && slots[..] == old(slots[..])
        invariant queue == old(queue)
        invariant ReadOut(State(), out.Length - read).0 == all.0
          && out[..read] + ReadOut(State(), out.Length - read).1 == all.1
        invariant forall j :: read <= j < out.Length ==> out[j] == old(out[j])
      {
        ghost var before, rest := out[..read], ReadOut(State().(tail := Next(tail)), out.Length - read - 1).1;
        out[read] := slots[tail % CAPACITY];
        assert out[..read + 1] == before + [out[read]];
        Regroup(before, out[read], rest);
        tail := (tail + 1) % POSITIONS;
        read := read + 1;
      }
      assert out[..read] + [] == out[..read];
      assert forall j :: 0 <= j < read ==> out[j] == all.1[j];
      queue := queue[read..];
    }
  }
}

/** The physical frame pool (kernel/src/level0a/core/frames.rs).

    Frames are named by their number (physical address / FRAME_SIZE). `Pool` is the value the
    four static tables of the source hold together; the functions on it specify what one call
    does, and class `FramePool` is the code that updates the tables in place. */
module Frames {
  import opened Basics

  const FRAME_SIZE: nat := 4096
  /** Frame number of the first pool frame (16 MiB) and the size of the pool (16 MiB). */
  const POOL_FIRST: nat := 4096
  const POOL_FRAMES: nat := 4096
  /** The counters are bytes. */
  const MAX_REFS: nat := 255

  type Page = p: seq<Byte> | |p| == FRAME_SIZE witness seq(FRAME_SIZE, _ => 0)

  function Zeros(): (p: Page)
    ensures forall i :: 0 <= i < FRAME_SIZE ==> p[i] == 0
  {
    seq(FRAME_SIZE, _ => 0)
  }

  datatype Pool = Pool(bits: seq<bool>, refs: seq<nat>, used: int, pages: seq<Page>)

  predicate PoolFrame(f: nat) {
    POOL_FIRST <= f < POOL_FIRST + POOL_FRAMES
  }

  ghost predicate Shaped(p: Pool) {
    |p.bits| == POOL_FRAMES && |p.refs| == POOL_FRAMES && |p.pages| == POOL_FRAMES
  }

  /** A frame is taken iff somebody refers to it, and the used count is the number of taken frames. */
  ghost predicate PoolValid(p: Pool) {
    && Shaped(p)
    && (forall i :: 0 <= i < POOL_FRAMES ==> p.refs[i] <= MAX_REFS)
    && (forall i :: 0 <= i < POOL_FRAMES ==> (p.bits[i] <==> p.refs[i] > 0))
    && p.used == CountTrue(p.bits)
  }

  ghost function FirstFree(bits: seq<bool>, i: nat): (r: nat)
    requires i <= |bits|
    ensures i <= r <= |bits|
    ensures forall j :: i <= j < r ==> bits[j]
    ensures r < |bits| ==> !bits[r]
    decreases |bits| - i
  {
    if i == |bits| || !bits[i] then i else FirstFree(bits, i + 1)
  }

  ghost function Allocated(p: Pool): (Pool, Option<nat>)
    requires Shaped(p)
  {
    var i := FirstFree(p.bits, 0);
    if i == POOL_FRAMES then (p, None)
    else (Pool(p.bits[i := true], p.refs[i := 1], p.used + 1, p.pages[i := Zeros()]), Some(POOL_FIRST + i))
  }

  ghost function Shared(p: Pool, f: nat): (Pool, bool)
    requires Shaped(p)
  {
    if !PoolFrame(f) then (p, false)
    else
      var i := f - POOL_FIRST;
      if !p.bits[i] || p.refs[i] == 0 || p.refs[i] == MAX_REFS then (p, false)
      else (Pool(p.bits, p.refs[i := p.refs[i] + 1], p.used, p.pages), true)
  }

  ghost function Freed(p: Pool, f: nat): Pool
    requires Shaped(p)
  {
    if !PoolFrame(f) || !p.bits[f - POOL_FIRST] then p
    else
      var i := f - POOL_FIRST;
      if p.refs[i] > 1 then Pool(p.bits, p.refs[i := p.refs[i] - 1], p.used, p.pages)
      else Pool(p.bits[i := false], p.refs[i := 0], p.used - 1, p.pages)
  }

  ghost function RefsOf(p: Pool, f: nat): nat
    requires Shaped(p)
  {
    if PoolFrame(f) then p.refs[f - POOL_FIRST] else 0
  }

  /** An allocation fails exactly when every frame is taken; otherwise it hands out a frame nobody
      referred to, zeroed and with one reference, and touches no other frame. */
  lemma AllocFresh(p: Pool)
    requires PoolValid(p)
    ensures var (q, r) := Allocated(p);
            && PoolValid(q)
            && (r.None? <==> p.used == POOL_FRAMES)
            && (r.None? ==> q == p)
            && (r.Some? ==>
                && PoolFrame(r.value) && RefsOf(p, r.value) == 0 && RefsOf(q, r.value) == 1
                && q.pages[r.value - POOL_FIRST] == Zeros() && q.used == p.used + 1
                && q.refs == p.refs[r.value - POOL_FIRST := 1]
                && forall i :: 0 <= i < POOL_FRAMES && POOL_FIRST + i != r.value ==> q.pages[i] == p.pages[i])
  {
    CountTrueBound(p.bits);
    var i := FirstFree(p.bits, 0);
    if i < POOL_FRAMES {
      CountTrueUpdate(p.bits, i, true);
    }
  }

  lemma ShareExact(p: Pool, f: nat)
    requires PoolValid(p)
    ensures var (q, ok) := Shared(p, f);
            && PoolValid(q)
            && (ok <==> 0 < RefsOf(p, f) < MAX_REFS)
            && q == (if ok then p.(refs := p.refs[f - POOL_FIRST := p.refs[f - POOL_FIRST] + 1]) else p)
  {
  }

  /** Freeing gives back one reference; only the last one returns the frame to the pool. */
  lemma FreeExact(p: Pool, f: nat)
    requires PoolValid(p)
    ensures var q := Freed(p, f);
            && PoolValid(q) && q.pages == p.pages
            && (RefsOf(p, f) == 0 ==> q == p)
            && (RefsOf(p, f) > 0 ==> q.refs == p.refs[f - POOL_FIRST := p.refs[f - POOL_FIRST] - 1])
  {
    if PoolFrame(f) && p.bits[f - POOL_FIRST] && p.refs[f - POOL_FIRST] == 1 {
      CountTrueUpdate(p.bits, f - POOL_FIRST, false);
    }
  }

  /** Equal counters mean an equal bitmap and an equal used count. */
  lemma RefsDetermineBitmap(p: Pool, q: Pool)
    requires PoolValid(p) && PoolValid(q) && p.refs == q.refs
    ensures p.bits == q.bits && p.used == q.used
  {
    assert forall i :: 0 <= i < POOL_FRAMES ==> p.bits[i] == q.bits[i];
    assert p.bits == q.bits;
  }

  /** The allocator: `BITMAP`, `REFCOUNT` and `USED` updated in place, and the frames' contents. */
  class FramePool {
    const bitmap: array<bool>
    const refcount: array<nat>
    const pages: array<Page>
    var used: int

    ghost predicate Valid()
      reads this, bitmap, refcount, pages
    {
      && bitmap.Length == POOL_FRAMES && refcount.Length == POOL_FRAMES && pages.Length == POOL_FRAMES
      && PoolValid(State())
    }

    ghost function State(): Pool
      reads this, bitmap, refcount, pages
    {
      Pool(bitmap[..], refcount[..], used, pages[..])
    }

    constructor ()
      ensures Valid()
      ensures State().used == 0 && forall i :: 0 <= i < POOL_FRAMES ==> State().refs[i] == 0
      ensures fresh(bitmap) && fresh(refcount) && fresh(pages)
    {
      bitmap := new bool[POOL_FRAMES](_ => false);
      refcount := new nat[POOL_FRAMES](_ => 0);
      pages := new Page[POOL_FRAMES](_ => Zeros());
      used := 0;
      new;
      CountTrueBound(bitmap[..]);
    }

    method Alloc() returns (frame: Option<nat>)
      requires Valid()
      modifies this, bitmap, refcount, pages
      ensures Valid()
      ensures (State(), frame) == Allocated(old(State()))
    {
      AllocFresh(State());
      var i := 0;
      while i < POOL_FRAMES
        invariant 0 <= i <= POOL_FRAMES
        invariant FirstFree(bitmap[..], 0) == FirstFree(bitmap[..], i)
      {
        if bitmap[i] {
          i := i + 1;
        } else {
          bitmap[i] := true;
          refcount[i] := 1;
          used := used + 1;
          pages[i] := Zeros();
          return Some(POOL_FIRST + i);
        }
      }
      return None;
    }

    method Share(f: nat) returns (ok: bool)
      requires Valid()
      modifies refcount
      ensures Valid()
      ensures (State(), ok) == Shared(old(State()), f)
    {
      if !PoolFrame(f) {
        return false;
      }
      var i := f - POOL_FIRST;
      var current := refcount[i];
      if !bitmap[i] || current == 0 || current == MAX_REFS {
        return false;
      }
      refcount[i] := current + 1;
      return true;
    }

    method RefCount(f: nat) returns (n: nat)
      requires Valid()
      ensures n == RefsOf(State(), f)
    {
      if !PoolFrame(f) {
        return 0;
      }
      return refcount[f - POOL_FIRST];
    }

    method Free(f: nat)
      requires Valid()
      modifies this, bitmap, refcount
      ensures Valid()
      ensures State() == Freed(old(State()), f)
    {
      FreeExact(State(), f);
      if !PoolFrame(f) {
        return;
      }
      var i := f - POOL_FIRST;
      if !bitmap[i] {
        return;
      }
      var current := refcount[i];
      if current > 1 {
        refcount[i] := current - 1;
        return;
      }
      refcount[i] := 0;
      bitmap[i] := false;
      used := used - 1;
    }

    /** Contents of a frame are written through the identity map. */
    method WritePage(f: nat, p: Page)
      requires Valid() && PoolFrame(f)
      modifies pages
      ensures Valid()
      ensures State() == old(State()).(pages := old(State()).pages[f - POOL_FIRST := p])
    {
      pages[f - POOL_FIRST] := p;
    }
  }
}

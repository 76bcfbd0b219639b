/** The loader of PE images in its own arithmetic (`load` and `apply_relocations` of
    kernel/src/level0b1/binary_loader/pe32.rs): addresses and sums are 32-bit words, and copies and patches
    go to whatever address they name. It stays inside the image exactly when no test lets a sum of 2^32 or
    more through, which shows when module Relocations reads the file with unbounded sums; then the two
    agree. */
module PeLoader {
  import opened Basics
  import opened LittleEndian
  import opened Relocations

  /** Where every image is loaded, and the largest size of one. */
  const BASE: nat := 0x00C0_0000
  const REGION: nat := 0x0020_0000

  // ---- memory ---------------------------------------------------------------------------------------

  /** A byte at each address. */
  predicate Memory(m: Bytes) {
    |m| == WORD
  }

  /** `d` written from address `at` on, around the end of the address space if need be. */
  function Put(m: Bytes, at: nat, d: Bytes): (r: Bytes)
    requires Memory(m) && |d| <= WORD
    ensures Memory(r)
    ensures forall a :: 0 <= a < WORD ==> r[a] == if (a - at) % WORD < |d| then d[(a - at) % WORD] else m[a]
  {
    seq(WORD, a requires 0 <= a < WORD => if (a - at) % WORD < |d| then d[(a - at) % WORD] else m[a])
  }

  function Get(m: Bytes, at: nat, n: nat): (d: Bytes)
    requires Memory(m)
    ensures |d| == n && forall i :: 0 <= i < n ==> d[i] == m[(at + i) % WORD]
  {
    seq(n, i requires 0 <= i < n => m[(at + i) % WORD])
  }

  function MemWord(m: Bytes, at: nat): U32
    requires Memory(m)
  {
    WordAt(Get(m, at, 4), 0)
  }

  function MemEntry(m: Bytes, at: nat): nat
    requires Memory(m)
  {
    EntryAt(Get(m, at, 2), 0)
  }

  function MemPatched(m: Bytes, at: nat, delta: U32): (r: Bytes)
    requires Memory(m)
    ensures Memory(r)
  {
    Put(m, at, Le((MemWord(m, at) + delta) % WORD))
  }

  function Image(m: Bytes, size: nat): (img: Bytes)
    requires Memory(m) && size <= REGION
    ensures |img| == size
  {
    m[BASE..BASE + size]
  }

  function WithImage(m: Bytes, img: Bytes): (r: Bytes)
    requires Memory(m) && |img| <= REGION
    ensures Memory(r)
  {
    Splice(m, BASE, img)
  }

  // ---- the sections ---------------------------------------------------------------------------------

  /** The tests of the loop over the sections: the end of the address range in words; `get` refuses a range
      whose end comes before its start. */
  predicate Loads(s: Section, size: nat, file: Bytes): (ok: bool)
    ensures ok && s.rawSize > 0 ==> s.rawAt <= (s.rawAt + s.rawSize) % WORD <= |file|
  {
    && (s.address + Span(s)) % WORD <= size
    && (s.rawSize > 0 ==> s.rawAt <= (s.rawAt + s.rawSize) % WORD <= |file|)
  }

  /** A section's raw data in place. */
  function WithSection(m: Bytes, s: Section, file: Bytes): (r: Bytes)
    requires Memory(m) && |file| < WORD && (s.rawSize > 0 ==> s.rawAt <= (s.rawAt + s.rawSize) % WORD <= |file|)
    ensures Memory(r)
  {
    if s.rawSize > 0 then Put(m, BASE + s.address, file[s.rawAt..(s.rawAt + s.rawSize) % WORD]) else m
  }

  function Copied(m: Bytes, size: nat, file: Bytes, sections: seq<Section>, k: nat): (r: (Bytes, bool))
    requires Memory(m) && |file| < WORD && k <= |sections|
    ensures Memory(r.0)
    decreases |sections| - k
  {
    if k == |sections| then (m, true)
    else if !Loads(sections[k], size, file) then (m, false)
    else Copied(WithSection(m, sections[k], file), size, file, sections, k + 1)
  }

  /** Every section that is loaded lies in the image. */
  predicate SectionsInside(size: nat, file: Bytes, sections: seq<Section>, k: nat)
    requires k <= |sections|
    decreases |sections| - k
  {
    k < |sections| && Loads(sections[k], size, file) ==>
      sections[k].address + Span(sections[k]) <= size && SectionsInside(size, file, sections, k + 1)
  }

  // ---- the walk -------------------------------------------------------------------------------------

  function Entries(m: Bytes, size: nat, block: nat, page: nat, n: nat, i: nat, delta: U32): (r: (Bytes, bool))
    requires Memory(m) && i <= n
    ensures Memory(r.0)
    decreases n - i
  {
    if i == n then (m, true)
    else
      var e := MemEntry(m, block + 8 + 2 * i);
      var site := SiteOf(page, e);
      if e / 4096 == ABSOLUTE then Entries(m, size, block, page, n, i + 1, delta)
      else if e / 4096 == HIGHLOW && (site + 4) % WORD <= size then
        Entries(MemPatched(m, BASE + site, delta), size, block, page, n, i + 1, delta)
      else (m, false)
  }

  /** The loop over the blocks for `steps` rounds; `None` when it has not ended by then. */
  function Blocks(m: Bytes, size: nat, rva: nat, dir: nat, delta: U32, offset: nat,
      steps: nat): (r: Option<(Bytes, bool)>)
    requires Memory(m)
    ensures r.Some? ==> Memory(r.value.0)
    decreases steps
  {
    if steps == 0 then None
    else if (offset + 8) % WORD > dir then Some((m, true))
    else
      var block := BASE + rva + offset;
      var page, length := MemWord(m, block), MemWord(m, block + 4);
      if length < 8 || (offset + length) % WORD > dir then Some((m, false))
      else
        var (next, ok) := Entries(m, size, block, page, (length - 8) / 2, 0, delta);
        if !ok then Some((next, false)) else Blocks(next, size, rva, dir, delta, (offset + length) % WORD, steps - 1)
  }

  /** `apply_relocations` */
  function Walk(m: Bytes, size: nat, rva: nat, dir: nat, delta: U32, steps: nat): (r: Option<(Bytes, bool)>)
    requires Memory(m)
    ensures r.Some? ==> Memory(r.value.0)
  {
    if (rva + dir) % WORD > size then Some((m, false)) else Blocks(m, size, rva, dir, delta, 0, steps)
  }

  /** Every word that is patched lies in the image. */
  predicate EntriesInside(m: Bytes, size: nat, block: nat, page: nat, n: nat, i: nat, delta: U32)
    requires Memory(m) && i <= n
    decreases n - i
  {
    i < n ==>
      var e := MemEntry(m, block + 8 + 2 * i);
      var site := SiteOf(page, e);
      if e / 4096 == ABSOLUTE then EntriesInside(m, size, block, page, n, i + 1, delta)
      else e / 4096 == HIGHLOW && (site + 4) % WORD <= size ==>
        site + 4 <= size && EntriesInside(MemPatched(m, BASE + site, delta), size, block, page, n, i + 1, delta)
  }

  /** For `steps` rounds every header that is read and every block that is walked lies in the directory, and
      every word that is patched in the image. */
  predicate BlocksInside(m: Bytes, size: nat, rva: nat, dir: nat, delta: U32, offset: nat, steps: nat)
    requires Memory(m)
    decreases steps
  {
    steps > 0 && (offset + 8) % WORD <= dir ==>
      var block := BASE + rva + offset;
      var page, length := MemWord(m, block), MemWord(m, block + 4);
      && offset + 8 <= dir
      && (length >= 8 && (offset + length) % WORD <= dir ==>
            var (next, ok) := Entries(m, size, block, page, (length - 8) / 2, 0, delta);
            && offset + length <= dir && EntriesInside(m, size, block, page, (length - 8) / 2, 0, delta)
            && (ok ==> BlocksInside(next, size, rva, dir, delta, (offset + length) % WORD, steps - 1)))
  }

  /** The walk never leaves the directory it reads and the image it patches, however long it goes on. */
  ghost predicate WalkInside(m: Bytes, size: nat, rva: nat, dir: nat, delta: U32)
    requires Memory(m)
  {
    (rva + dir) % WORD <= size ==>
      rva + dir <= size && forall steps: nat :: BlocksInside(m, size, rva, dir, delta, 0, steps)
  }

  // ---- inside the image, memory is the image ----------------------------------------------------------

  lemma PutInside(m: Bytes, at: nat, d: Bytes)
    requires Memory(m) && at + |d| <= WORD
    ensures Put(m, at, d) == Splice(m, at, d)
  {
  }

  lemma ImageOf(m: Bytes, img: Bytes)
    requires Memory(m) && |img| <= REGION
    ensures Image(WithImage(m, img), |img|) == img
    ensures forall other: Bytes :: |other| == |img| ==> WithImage(WithImage(m, img), other) == WithImage(m, other)
  {
    forall other: Bytes | |other| == |img| ensures WithImage(WithImage(m, img), other) == WithImage(m, other) {
    }
  }

  lemma OwnImage(m: Bytes, size: nat)
    requires Memory(m) && size <= REGION
    ensures WithImage(m, Image(m, size)) == m
  {
  }

  lemma WordInImage(m: Bytes, size: nat, at: nat)
    requires Memory(m) && size <= REGION && at + 4 <= size
    ensures MemWord(m, BASE + at) == WordAt(Image(m, size), at)
  {
  }

  lemma EntryInImage(m: Bytes, size: nat, at: nat)
    requires Memory(m) && size <= REGION && at + 2 <= size
    ensures MemEntry(m, BASE + at) == EntryAt(Image(m, size), at)
  {
  }

  lemma PutInImage(m: Bytes, size: nat, at: nat, d: Bytes)
    requires Memory(m) && size <= REGION && at + |d| <= size
    ensures Put(m, BASE + at, d) == WithImage(m, Splice(Image(m, size), at, d))
  {
    PutInside(m, BASE + at, d);
  }

  lemma PatchInImage(m: Bytes, size: nat, at: nat, delta: U32)
    requires Memory(m) && size <= REGION && at + 4 <= size
    ensures MemPatched(m, BASE + at, delta) == WithImage(m, Patched(Image(m, size), at, delta))
  {
    hide Image, WithImage, Put, MemWord, WordAt, Splice, Le;
    WordInImage(m, size, at);
    PutInImage(m, size, at, Le((WordAt(Image(m, size), at) + delta) % WORD));
  }

  /** A test in words, and what the range it lets through is worth. */
  lemma TestInWords(sum: nat, bound: nat)
    requires bound < WORD
    ensures Test(sum, bound).Fine? <==> sum <= bound
    ensures Test(sum, bound).Refused? <==> sum % WORD > bound
    ensures Test(sum, bound).Overflows? <==> sum >= WORD && sum % WORD <= bound
  {
  }

  // ---- the sections stay inside iff the reading does not overflow --------------------------------------

  /** Every section loaded lies in the image exactly when the reading of the section table does not overflow;
      then the copy does what the reading says. */
  lemma {:induction false} SectionsStayInside(m: Bytes, size: nat, file: Bytes, sections: seq<Section>, k: nat)
    requires Memory(m) && size <= REGION && |file| < WORD && k <= |sections|
    ensures var (r, v) := SectionsFrom(Image(m, size), file, sections, k);
            && (SectionsInside(size, file, sections, k) <==> !v.Overflows?)
            && (!v.Overflows? ==> Copied(m, size, file, sections, k) == (WithImage(m, r), v.Fine?))
    decreases |sections| - k
  {
    hide Image, WithImage, Put, Splice, Loads, Fits, InFile, Test, Span;
    var img := Image(m, size);
    OwnImage(m, size);
    if k < |sections| {
      var s := sections[k];
      SectionTest(s, size, file);
      if Fits(s, size, file) {
        var next := if s.rawSize > 0 then Splice(img, s.address, file[s.rawAt..s.rawAt + s.rawSize]) else img;
        if s.rawSize > 0 {
          PutInImage(m, size, s.address, file[s.rawAt..s.rawAt + s.rawSize]);
        }
        assert WithSection(m, s, file) == WithImage(m, next);
        ImageOf(m, next);
        SectionsStayInside(WithImage(m, next), size, file, sections, k + 1);
      }
    }
  }

  /** The tests of one section in words and with unbounded sums. */
  lemma SectionTest(s: Section, size: nat, file: Bytes)
    requires size <= REGION && |file| < WORD
    ensures Fits(s, size, file) ==>
      && Loads(s, size, file) && s.address + Span(s) <= size && s.rawSize <= Span(s)
      && (s.rawSize > 0 ==> (s.rawAt + s.rawSize) % WORD == s.rawAt + s.rawSize <= |file|)
    ensures !Fits(s, size, file) ==>
      && (Loads(s, size, file) <==> InFile(s, file) && Test(s.address + Span(s), size).Overflows?)
      && (Loads(s, size, file) ==> s.address + Span(s) > size)
      && (InFile(s, file) ==> !Test(s.address + Span(s), size).Fine?)
  {
  }

  /** A section's raw data take address `a`. */
  predicate Takes(s: Section, a: nat) {
    (a - BASE - s.address) % WORD < s.rawSize
  }

  /** How many sections are loaded before one is refused. */
  function LoadedCount(size: nat, file: Bytes, sections: seq<Section>, k: nat): (n: nat)
    requires k <= |sections|
    ensures k <= n <= |sections| && (forall j :: k <= j < n ==> Loads(sections[j], size, file))
    ensures n < |sections| ==> !Loads(sections[n], size, file)
    decreases |sections| - k
  {
    if k == |sections| || !Loads(sections[k], size, file) then k else LoadedCount(size, file, sections, k + 1)
  }

  /** The byte the sections `k..n` leave at address `a`: that of the last one that takes it. */
  function ByteLeft(size: nat, file: Bytes, sections: seq<Section>, k: nat, n: nat, a: nat, before: Byte): Byte
    requires k <= n <= |sections| && forall j :: k <= j < n ==> Loads(sections[j], size, file)
    decreases n - k
  {
    if k == n then before
    else
      assert Loads(sections[k], size, file);
      ByteLeft(size, file, sections, k + 1, n, a,
               if Takes(sections[k], a) then file[sections[k].rawAt + (a - BASE - sections[k].address) % WORD]
                 else before)
  }

  /** What the copy does to every address, for every section table. */
  lemma {:induction false} CopiedSpec(m: Bytes, size: nat, file: Bytes, sections: seq<Section>, k: nat, a: nat)
    requires Memory(m) && |file| < WORD && k <= |sections| && a < WORD
    ensures var n := LoadedCount(size, file, sections, k);
            var (r, ok) := Copied(m, size, file, sections, k);
            r[a] == ByteLeft(size, file, sections, k, n, a, m[a]) && (ok <==> n == |sections|)
    decreases |sections| - k
  {
    hide WithSection, Takes;
    if k < |sections| && Loads(sections[k], size, file) {
      var s := sections[k];
      SectionByte(m, s, file, a);
      CopiedSpec(WithSection(m, s, file), size, file, sections, k + 1, a);
    }
  }

  lemma SectionByte(m: Bytes, s: Section, file: Bytes, a: nat)
    requires Memory(m) && |file| < WORD && a < WORD
      && (s.rawSize > 0 ==> s.rawAt <= (s.rawAt + s.rawSize) % WORD <= |file|)
    ensures Takes(s, a) ==> s.rawAt + (a - BASE - s.address) % WORD < |file|
    ensures WithSection(m, s, file)[a] == if Takes(s, a) then file[s.rawAt + (a - BASE - s.address) % WORD] else m[a]
  {
    if s.rawSize > 0 {
      assert (s.rawAt + s.rawSize) % WORD == s.rawAt + s.rawSize;
      assert a - (BASE + s.address) == a - BASE - s.address;
    }
  }

  predicate InImage(size: nat, a: nat) {
    BASE <= a < BASE + size
  }

  /** The copy of a section writes only in the image exactly when its raw data end there. */
  lemma CopyInsideIff(s: Section, size: nat)
    requires size <= REGION
    ensures (forall a: nat :: a < WORD && Takes(s, a) ==> InImage(size, a)) <==>
      s.rawSize == 0 || s.address + s.rawSize <= size
  {
    if s.rawSize > 0 && s.address + s.rawSize > size {
      var last := if s.address + s.rawSize <= WORD then s.address + s.rawSize - 1 else WORD - 1;
      var a := (BASE + last) % WORD;
      assert (a - BASE - s.address) % WORD == last - s.address;
      assert Takes(s, a) && !InImage(size, a);
    } else {
      forall a: nat | a < WORD && Takes(s, a) ensures InImage(size, a) {
        var d := (a - BASE - s.address) % WORD;
        assert a == (BASE + s.address + d) % WORD;
      }
    }
  }

  // ---- the walk stays inside iff the reading does not overflow -------------------------------------------

  lemma {:induction false} EntriesStayInside(m: Bytes, size: nat, block: nat, page: nat, n: nat, i: nat, delta: U32)
    requires Memory(m) && size <= REGION && i <= n && block + 8 + 2 * n <= size
    ensures var (r, v) := EntriesFrom(Image(m, size), block, page, n, i, delta);
            && (EntriesInside(m, size, BASE + block, page, n, i, delta) <==> !v.Overflows?)
            && (!v.Overflows? ==> Entries(m, size, BASE + block, page, n, i, delta) == (WithImage(m, r), v.Fine?))
    decreases n - i
  {
    hide Image, WithImage, MemPatched, Patched, MemEntry, EntryAt, Put, SiteOf;
    OwnImage(m, size);
    if i < n {
      var img, at := Image(m, size), block + 8 + 2 * i;
      EntryInImage(m, size, at);
      assert BASE + at == BASE + block + 8 + 2 * i;
      var e := EntryAt(img, at);
      var site := SiteOf(page, e);
      if e / 4096 == ABSOLUTE {
        EntriesStayInside(m, size, block, page, n, i + 1, delta);
      } else if e / 4096 == HIGHLOW {
        TestInWords(site + 4, size);
        if site + 4 <= size {
          PatchInImage(m, size, site, delta);
          ImageOf(m, Patched(img, site, delta));
          EntriesStayInside(MemPatched(m, BASE + site, delta), size, block, page, n, i + 1, delta);
        }
      }
    }
  }

  lemma {:induction false} BlocksStayInside(m: Bytes, size: nat, rva: nat, dir: nat, delta: U32, offset: nat,
      steps: nat)
    requires Memory(m) && size <= REGION && rva + dir <= size && offset <= dir
    ensures var (r, v) := BlocksFrom(Image(m, size), rva, dir, delta, offset);
            && (!v.Overflows? ==> BlocksInside(m, size, rva, dir, delta, offset, steps))
            && (v.Overflows? && steps > dir - offset ==> !BlocksInside(m, size, rva, dir, delta, offset, steps))
            && (!v.Overflows? && steps > dir - offset ==>
               Blocks(m, size, rva, dir, delta, offset, steps) == Some((WithImage(m, r), v.Fine?)))
    decreases steps
  {
    hide Image, WithImage, Entries, EntriesFrom, EntriesInside, MemWord, WordAt, Memory;
    OwnImage(m, size);
    if steps > 0 && offset + 8 <= dir {
      var img, block := Image(m, size), rva + offset;
      WordInImage(m, size, block);
      WordInImage(m, size, block + 4);
      assert BASE + block == BASE + rva + offset && BASE + (block + 4) == BASE + rva + offset + 4;
      var page, length := WordAt(img, block), WordAt(img, block + 4);
      TestInWords(offset + length, dir);
      if length >= 8 && offset + length <= dir {
        var n := (length - 8) / 2;
        EntriesStayInside(m, size, block, page, n, 0, delta);
        var (next, v) := EntriesFrom(img, block, page, n, 0, delta);
        if v.Fine? {
          ImageOf(m, next);
          BlocksStayInside(WithImage(m, next), size, rva, dir, delta, offset + length, steps - 1);
        }
      }
    }
  }

  /** The walk stays inside exactly when the reading of the image does not overflow; then it ends within as
      many rounds as the directory has bytes and does what the reading says, and no other byte of memory
      changes. */
  lemma WalkStaysInside(m: Bytes, size: nat, rva: U32, dir: U32, delta: U32)
    requires Memory(m) && size <= REGION
    ensures var (r, v) := Applied(Image(m, size), rva, dir, delta);
            && (WalkInside(m, size, rva, dir, delta) <==> !v.Overflows?)
            && (!v.Overflows? ==> forall steps: nat :: steps > dir ==>
               Walk(m, size, rva, dir, delta, steps) == Some((WithImage(m, r), v.Fine?)))
  {
    hide Image, WithImage, Blocks, BlocksInside, BlocksFrom;
    OwnImage(m, size);
    TestInWords(rva + dir, size);
    if rva + dir <= size {
      forall steps: nat
        ensures var (r, v) := BlocksFrom(Image(m, size), rva, dir, delta, 0);
                && (!v.Overflows? ==> BlocksInside(m, size, rva, dir, delta, 0, steps))
                && (v.Overflows? && steps > dir ==> !BlocksInside(m, size, rva, dir, delta, 0, steps))
                && (!v.Overflows? && steps > dir ==>
                   Blocks(m, size, rva, dir, delta, 0, steps) == Some((WithImage(m, r), v.Fine?)))
      {
        BlocksStayInside(m, size, rva, dir, delta, 0, steps);
      }
      if BlocksFrom(Image(m, size), rva, dir, delta, 0).1.Overflows? {
        assert !BlocksInside(m, size, rva, dir, delta, 0, dir + 1);
      }
    }
  }

  /** When the walk leaves the directory or the image, in terms of the directory's list: the end of the
      directory reaches 2^32 and passes in words, or the end of a block or a site does, every entry and block
      before it being in order. The list is that of the loaded image as long as no site lies in it. */
  lemma WalkLeavesIff(m: Bytes, size: nat, rva: U32, dir: U32, delta: U32)
    requires Memory(m) && size <= REGION
    requires rva + dir <= size ==> Outside(Sites(Image(m, size), rva, dir, 0).0, rva, dir)
    ensures !WalkInside(m, size, rva, dir, delta) <==>
      if rva + dir <= size then LeavesFrom(Image(m, size), rva, dir, 0)
      else (rva + dir) % WORD <= size
  {
    hide WalkInside, Sites, LeavesFrom, Outside, Image;
    WalkStaysInside(m, size, rva, dir, delta);
    TestInWords(rva + dir, size);
    if rva + dir <= size {
      WalkPatchesSites(Image(m, size), rva, dir, delta);
      SitesOverflow(Image(m, size), rva, dir, 0);
    }
  }

  /** Base relocation in memory: with sites apart from each other and from the directory, and no overflow,
      each word the walk reaches grows by `delta` and no other byte of memory changes. */
  lemma RelocatedMemory(m: Bytes, size: nat, rva: U32, dir: U32, delta: U32, steps: nat)
    requires Memory(m) && rva + dir <= size <= REGION && steps > dir
    requires var (sites, v) := Sites(Image(m, size), rva, dir, 0);
            Outside(sites, rva, dir) && Apart(sites) && !v.Overflows?
    ensures var (sites, v) := Sites(Image(m, size), rva, dir, 0);
            var w := Walk(m, size, rva, dir, delta, steps);
            && w.Some? && w.value.1 == v.Fine?
            && (forall k :: 0 <= k < |sites| ==>
               MemWord(w.value.0, BASE + sites[k]) == (MemWord(m, BASE + sites[k]) + delta) % WORD)
            && (forall a :: 0 <= a < WORD && (a < BASE || !InSites(sites, a - BASE)) ==> w.value.0[a] == m[a])
  {
    hide Sites, Applied, Walk, WalkInside, Outside, Apart, MemWord, WordAt, InSites, Image;
    var img := Image(m, size);
    var sites := Sites(img, rva, dir, 0).0;
    RelocationSpec(img, rva, dir, delta);
    WalkStaysInside(m, size, rva, dir, delta);
    var r := Applied(img, rva, dir, delta).0;
    ImageOf(m, r);
    OwnImage(m, size);
    forall k | 0 <= k < |sites|
      ensures MemWord(WithImage(m, r), BASE + sites[k]) == (MemWord(m, BASE + sites[k]) + delta) % WORD {
      WordInImage(m, size, sites[k]);
      WordInImage(WithImage(m, r), size, sites[k]);
    }
  }

  /** A second walk with the opposite delta then restores the memory. */
  lemma RelocatedBack(m: Bytes, size: nat, rva: U32, dir: U32, delta: U32, steps: nat)
    requires Memory(m) && rva + dir <= size <= REGION && steps > dir
    requires var (sites, v) := Sites(Image(m, size), rva, dir, 0);
            Outside(sites, rva, dir) && Apart(sites) && !v.Overflows?
    ensures var w := Walk(m, size, rva, dir, delta, steps);
            w.Some? && Walk(w.value.0, size, rva, dir, Opposite(delta), steps) == Some((m, w.value.1))
  {
    hide Sites, Applied, Walk, WalkInside, Outside, Apart, Image, WithImage, Opposite;
    var img := Image(m, size);
    RelocationSpec(img, rva, dir, delta);
    RelocationUndone(img, rva, dir, delta);
    WalkStaysInside(m, size, rva, dir, delta);
    var r := Applied(img, rva, dir, delta).0;
    ImageOf(m, r);
    WalkStaysInside(WithImage(m, r), size, rva, dir, Opposite(delta));
    OwnImage(m, size);
  }

  // ---- the whole load -----------------------------------------------------------------------------------

  /** `load` from the size test to the relocations. */
  function Loaded(m: Bytes, file: Bytes, sections: seq<Section>, size: U32, rva: U32, dir: U32, delta: U32,
      steps: nat): Option<(Bytes, bool)>
    requires Memory(m) && |file| < WORD
  {
    if (BASE + size) % WORD > BASE + REGION then Some((m, false))
    else
      var (c, ok) := Copied(Put(m, BASE, ZeroBytes(size)), size, file, sections, 0);
      if !ok || delta == 0 || rva == 0 || dir == 0 then Some((c, ok)) else Walk(c, size, rva, dir, delta, steps)
  }

  /** The image the file describes, read with unbounded sums. */
  function Reading(file: Bytes, sections: seq<Section>, size: U32, rva: U32, dir: U32, delta: U32): (Bytes, Verdict) {
    if size > REGION then ([], Test(BASE + size, BASE + REGION))
    else
      var (img, v) := SectionsFrom(ZeroBytes(size), file, sections, 0);
      if !v.Fine? || delta == 0 || rva == 0 || dir == 0 then (img, v) else Applied(img, rva, dir, delta)
  }

  /** What the load clears is no larger than an image may be, every section it loads in the image, and its walk stays
      inside. */
  ghost predicate LoadInside(m: Bytes, file: Bytes, sections: seq<Section>, size: U32, rva: U32, dir: U32, delta: U32)
    requires Memory(m) && |file| < WORD
  {
    (BASE + size) % WORD <= BASE + REGION ==>
      var (c, ok) := Copied(Put(m, BASE, ZeroBytes(size)), size, file, sections, 0);
      && size <= REGION && SectionsInside(size, file, sections, 0)
      && (ok && delta != 0 && rva != 0 && dir != 0 ==> WalkInside(c, size, rva, dir, delta))
  }

  /** The load stays inside exactly when the reading of the file does not overflow, whatever the memory; then
      it ends, leaves the image the reading gives, and changes no byte outside it. */
  lemma LoadStaysInside(m: Bytes, file: Bytes, sections: seq<Section>, size: U32, rva: U32, dir: U32, delta: U32)
    requires Memory(m) && |file| < WORD
    ensures var (img, v) := Reading(file, sections, size, rva, dir, delta);
            && (LoadInside(m, file, sections, size, rva, dir, delta) <==> !v.Overflows?)
            && (!v.Overflows? ==> |img| <= REGION && forall steps: nat :: steps > dir ==>
                  Loaded(m, file, sections, size, rva, dir, delta, steps) == Some((WithImage(m, img), v.Fine?)))
  {
    hide Copied, SectionsFrom, SectionsInside, Walk, WalkInside, Applied, Put;
    TestInWords(BASE + size, BASE + REGION);
    if size <= REGION {
      var zero := ZeroBytes(size);
      PutInside(m, BASE, zero);
      var z := WithImage(m, zero);
      ImageOf(m, zero);
      SectionsStayInside(z, size, file, sections, 0);
      var (img, v) := SectionsFrom(zero, file, sections, 0);
      ImageOf(m, img);
      if v.Fine? && delta != 0 && rva != 0 && dir != 0 {
        WalkStaysInside(WithImage(m, img), size, rva, dir, delta);
      }
    } else {
      assert WithImage(m, []) == m;
    }
  }

  // ---- files on which the loader leaves the image -----------------------------------------------------------

  /** A section of one page at the last page of the address space is loaded to the page below the image. */
  lemma SectionBelowImage(m: Bytes, size: nat, file: Bytes)
    requires Memory(m) && size <= REGION && |file| == 4096
    ensures var s := Section(4096, 0xFFFF_F000, 4096, 0);
            && Copied(m, size, file, [s], 0) == (Put(m, BASE - 4096, file), true)
            && !SectionsInside(size, file, [s], 0) && SectionsFrom(Image(m, size), file, [s], 0).1.Overflows?
  {
    var s := Section(4096, 0xFFFF_F000, 4096, 0);
    assert (s.address + Span(s)) % WORD == 0 && Loads(s, size, file);
    assert file[s.rawAt..(s.rawAt + s.rawSize) % WORD] == file;
    SamePlace(m, BASE + s.address, BASE - 4096, file);
    assert WithSection(m, s, file) == Put(m, BASE + s.address, file);
    assert Copied(m, size, file, [s], 0) == Copied(WithSection(m, s, file), size, file, [s], 1);
    SectionsStayInside(m, size, file, [s], 0);
    assert !SectionsInside(size, file, [s], 0);
  }

  lemma SameDistance(a: int, at: int, there: int)
    requires at % WORD == there % WORD
    ensures (a - at) % WORD == (a - there) % WORD && (at + a) % WORD == (there + a) % WORD
  {
    var k := at / WORD - there / WORD;
    assert at == there + k * WORD;
    WordsAdded(there + a, k);
    WordsAdded(a - at, k);
  }

  lemma WordsAdded(x: int, k: int)
    ensures (x + k * WORD) % WORD == x % WORD
  {
  }

  /** What was put can be got again. */
  lemma GetBack(m: Bytes, at: nat, d: Bytes, k: nat, n: nat)
    requires Memory(m) && k + n <= |d| <= WORD
    ensures Get(Put(m, at, d), at + k, n) == d[k..k + n]
  {
    var g := Get(Put(m, at, d), at + k, n);
    forall i | 0 <= i < n ensures g[i] == d[k + i] {
      Distance(at, k + i);
    }
  }

  lemma Distance(at: nat, k: nat)
    requires k < WORD
    ensures ((at + k) % WORD - at) % WORD == k
  {
  }

  lemma SameGet(m: Bytes, at: nat, there: nat, n: nat)
    requires Memory(m) && at % WORD == there % WORD
    ensures Get(m, at, n) == Get(m, there, n)
  {
    forall i | 0 <= i < n ensures Get(m, at, n)[i] == Get(m, there, n)[i] {
      SameDistance(i, at, there);
    }
  }

  lemma SamePlace(m: Bytes, at: nat, there: nat, d: Bytes)
    requires Memory(m) && |d| <= WORD && at % WORD == there % WORD
    ensures Put(m, at, d) == Put(m, there, d)
  {
    forall a | 0 <= a < WORD ensures Put(m, at, d)[a] == Put(m, there, d)[a] {
      SameDistance(a, at, there);
    }
  }

  /** A directory of one block whose entry names the last but one address: page 0xFFFFF000, length 10. */
  const HIGH_SITE: Bytes := [0x00, 0xF0, 0xFF, 0xFF, 10, 0, 0, 0, 0xFE, 0x3F]

  /** Its walk ends well and has patched the word two bytes below the image. */
  lemma SiteBelowImage(m: Bytes, size: nat, delta: U32)
    requires Memory(m) && 26 <= size <= REGION && Get(m, BASE + 16, 10) == HIGH_SITE
    ensures Walk(m, size, 16, 10, delta, 2) == Some((MemPatched(m, BASE + 0xFFFF_FFFE, delta), true))
    ensures MemWord(MemPatched(m, BASE + 0xFFFF_FFFE, delta), BASE - 2) == (MemWord(m, BASE - 2) + delta) % WORD
    ensures !WalkInside(m, size, 16, 10, delta)
  {
    hide MemWord, MemEntry, MemPatched, Get, Put, WordAt;
    HighSiteWords(m);
    HighSiteEntry(m, size, delta);
    hide Entries, EntriesInside;
    assert Blocks(m, size, 16, 10, delta, 0, 2)
      == Blocks(MemPatched(m, BASE + 0xFFFF_FFFE, delta), size, 16, 10, delta, 10, 1);
    assert !BlocksInside(m, size, 16, 10, delta, 0, 1);
    PatchedBack(m, BASE + 0xFFFF_FFFE, BASE - 2, delta);
  }

  lemma HighSiteWords(m: Bytes)
    requires Memory(m) && Get(m, BASE + 16, 10) == HIGH_SITE
    ensures MemWord(m, BASE + 16) == 0xFFFF_F000 && MemWord(m, BASE + 20) == 10 && MemEntry(m, BASE + 24) == 0x3FFE
  {
    var g := Get(m, BASE + 16, 10);
    assert Get(m, BASE + 16, 4) == g[..4] == [0x00, 0xF0, 0xFF, 0xFF];
    assert Get(m, BASE + 20, 4) == g[4..8] == [10, 0, 0, 0];
    assert Get(m, BASE + 24, 2) == g[8..] == [0xFE, 0x3F];
  }

  lemma HighSiteEntry(m: Bytes, size: nat, delta: U32)
    requires Memory(m) && 26 <= size <= REGION && MemEntry(m, BASE + 24) == 0x3FFE
    ensures Entries(m, size, BASE + 16, 0xFFFF_F000, 1, 0, delta) == (MemPatched(m, BASE + 0xFFFF_FFFE, delta), true)
    ensures !EntriesInside(m, size, BASE + 16, 0xFFFF_F000, 1, 0, delta)
  {
    hide MemEntry, MemPatched;
    assert SiteOf(0xFFFF_F000, 0x3FFE) == 0xFFFF_FFFE && 0x3FFE / 4096 == HIGHLOW;
    assert BASE + 16 + 8 + 2 * 0 == BASE + 24;
    var r := MemPatched(m, BASE + 0xFFFF_FFFE, delta);
    assert Entries(r, size, BASE + 16, 0xFFFF_F000, 1, 1, delta) == (r, true);
  }

  lemma PatchedBack(m: Bytes, at: nat, there: nat, delta: U32)
    requires Memory(m) && at % WORD == there % WORD
    ensures MemWord(MemPatched(m, at, delta), there) == (MemWord(m, there) + delta) % WORD
  {
    hide Get, Put, WordAt, Le;
    SameGet(m, at, there, 4);
    var v := (MemWord(m, at) + delta) % WORD;
    var g := Get(MemPatched(m, at, delta), at, 4);
    GetBack(m, at, Le(v), 0, 4);
    SameGet(MemPatched(m, at, delta), at, there, 4);
    assert g[0..4] == Le(v)[0..4] == Le(v);
    LeRoundTrip(v, g, 0);
  }

  /** A directory of two blocks, of length 8 and of length 2^32 - 8. */
  const ROUND_BLOCKS: Bytes := [0, 0, 0, 0, 8, 0, 0, 0, 0, 0, 0, 0, 0xF8, 0xFF, 0xFF, 0xFF]

  /** In an otherwise empty memory its walk goes round for ever. */
  lemma WalkNeverEnds(size: nat, delta: U32, steps: nat)
    requires 32 <= size <= REGION
    ensures Walk(Put(ZeroBytes(WORD), BASE + 16, ROUND_BLOCKS), size, 16, 16, delta, steps) == None
  {
    var m := Put(ZeroBytes(WORD), BASE + 16, ROUND_BLOCKS);
    RoundHeaders(m);
    GoesRound(m, size, delta, 0, steps);
  }

  /** Two empty blocks, and padding everywhere else. */
  ghost predicate Round(m: Bytes) {
    && Memory(m) && MemWord(m, BASE + 16) == 0 && MemWord(m, BASE + 20) == 8
    && MemWord(m, BASE + 24) == 0 && MemWord(m, BASE + 28) == 0xFFFF_FFF8
    && forall i :: 0 <= i < 0x7FFF_FFF8 ==> MemEntry(m, BASE + 24 + 8 + 2 * i) == 0
  }

  lemma RoundHeaders(m: Bytes)
    requires m == Put(ZeroBytes(WORD), BASE + 16, ROUND_BLOCKS)
    ensures Round(m)
  {
    hide Put, MemWord, MemEntry;
    RoundWord(m, 0, [0, 0, 0, 0], 0);
    RoundWord(m, 4, [8, 0, 0, 0], 8);
    RoundWord(m, 8, [0, 0, 0, 0], 0);
    RoundWord(m, 12, [0xF8, 0xFF, 0xFF, 0xFF], 0xFFFF_FFF8);
    forall i | 0 <= i < 0x7FFF_FFF8 ensures MemEntry(m, BASE + 24 + 8 + 2 * i) == 0 {
      PaddingThere(m, i);
    }
  }

  lemma RoundWord(m: Bytes, k: nat, d: Bytes, w: U32)
    requires m == Put(ZeroBytes(WORD), BASE + 16, ROUND_BLOCKS) && k + 4 <= 16 && |d| == 4
    requires d == ROUND_BLOCKS[k..k + 4] && w == WordAt(d, 0)
    ensures MemWord(m, BASE + 16 + k) == w
  {
    hide Put, WordAt;
    GetBack(ZeroBytes(WORD), BASE + 16, ROUND_BLOCKS, k, 4);
  }

  lemma PaddingThere(m: Bytes, i: nat)
    requires m == Put(ZeroBytes(WORD), BASE + 16, ROUND_BLOCKS) && i < 0x7FFF_FFF8
    ensures MemEntry(m, BASE + 24 + 8 + 2 * i) == 0
  {
    var at := BASE + 16;
    Distance(at, 16 + 2 * i);
    Distance(at, 17 + 2 * i);
    assert m[(at + (16 + 2 * i)) % WORD] == 0 && m[(at + (17 + 2 * i)) % WORD] == 0;
    assert Get(m, BASE + 24 + 8 + 2 * i, 2) == [0, 0];
  }

  lemma {:induction false} OnlyPadding(m: Bytes, size: nat, block: nat, page: nat, n: nat, i: nat, delta: U32)
    requires Memory(m) && i <= n && forall k :: i <= k < n ==> MemEntry(m, block + 8 + 2 * k) == 0
    ensures Entries(m, size, block, page, n, i, delta) == (m, true)
    decreases n - i
  {
    if i < n {
      OnlyPadding(m, size, block, page, n, i + 1, delta);
    }
  }

  lemma {:induction false} GoesRound(m: Bytes, size: nat, delta: U32, offset: nat, steps: nat)
    requires Round(m) && 32 <= size <= REGION && (offset == 0 || offset == 8)
    ensures Blocks(m, size, 16, 16, delta, offset, steps) == None
    decreases steps
  {
    hide MemWord, Entries, MemEntry;
    if steps > 0 {
      if offset == 0 {
        OnlyPadding(m, size, BASE + 16, 0, 0, 0, delta);
        GoesRound(m, size, delta, 8, steps - 1);
      } else {
        OnlyPadding(m, size, BASE + 24, 0, 0x7FFF_FFF8, 0, delta);
        GoesRound(m, size, delta, 0, steps - 1);
      }
    }
  }

  // ---- the code ---------------------------------------------------------------------------------------------

  lemma PutNothing(m: Bytes, at: nat)
    requires Memory(m)
    ensures Put(m, at, []) == m
  {
  }

  lemma PutOneMore(m: Bytes, at: nat, d: Bytes, n: nat)
    requires Memory(m) && n < |d| <= WORD
    ensures Put(m, at, d[..n + 1]) == Put(m, at, d[..n])[(at + n) % WORD := d[n]]
  {
    var p, q := Put(m, at, d[..n + 1]), Put(m, at, d[..n])[(at + n) % WORD := d[n]];
    forall a | 0 <= a < WORD ensures p[a] == q[a] {
      WhichDistance(a, at, n);
    }
  }

  lemma WhichDistance(a: int, at: nat, n: nat)
    requires 0 <= a < WORD && n < WORD
    ensures (a - at) % WORD == n <==> a == (at + n) % WORD
  {
    Distance(at, n);
    if (a - at) % WORD == n {
      var k := (a - at) / WORD;
      assert a == at + n + k * WORD;
      WordsAdded(at + n, k);
    }
  }

  method CopyBytes(memory: array<Byte>, at: nat, data: Bytes)
    requires memory.Length == WORD && |data| <= WORD
    modifies memory
    ensures memory[..] == Put(old(memory[..]), at, data)
  {
    hide Put;
    var n := 0;
    PutNothing(memory[..], at);
    assert data[..0] == [];
    while n < |data|
      invariant 0 <= n <= |data|
      invariant memory[..] == Put(old(memory[..]), at, data[..n])
    {
      PutOneMore(old(memory[..]), at, data, n);
      memory[(at + n) % WORD] := data[n];
      n := n + 1;
    }
    assert data[..n] == data;
  }

  method CopySection(memory: array<Byte>, s: Section, size: nat, file: Bytes) returns (ok: bool)
    requires memory.Length == WORD && |file| < WORD
    modifies memory
    ensures ok == Loads(s, size, file)
    ensures memory[..] == if ok then WithSection(old(memory[..]), s, file) else old(memory[..])
  {
    hide Put;
    var span := if s.virtualSize > s.rawSize then s.virtualSize else s.rawSize;
    if (s.address + span) % WORD > size {
      return false;
    }
    if s.rawSize > 0 {
      var end := (s.rawAt + s.rawSize) % WORD;
      if end < s.rawAt || end > |file| {
        return false;
      }
      CopyBytes(memory, BASE + s.address, file[s.rawAt..end]);
    }
    return true;
  }

  method CopySections(memory: array<Byte>, size: nat, file: Bytes, sections: seq<Section>) returns (ok: bool)
    requires memory.Length == WORD && |file| < WORD
    modifies memory
    ensures (memory[..], ok) == Copied(old(memory[..]), size, file, sections, 0)
  {
    hide Loads, WithSection;
    var i := 0;
    while i < |sections|
      invariant 0 <= i <= |sections|
      invariant Copied(memory[..], size, file, sections, i) == Copied(old(memory[..]), size, file, sections, 0)
    {
      var loaded := CopySection(memory, sections[i], size, file);
      if !loaded {
        return false;
      }
      i := i + 1;
    }
    return true;
  }

  method Patch(memory: array<Byte>, at: nat, delta: U32)
    requires memory.Length == WORD
    modifies memory
    ensures memory[..] == MemPatched(old(memory[..]), at, delta)
  {
    CopyBytes(memory, at, Le((MemWord(memory[..], at) + delta) % WORD));
  }

  method PatchBlock(memory: array<Byte>, size: nat, block: nat, page: nat, n: nat, delta: U32) returns (ok: bool)
    requires memory.Length == WORD
    modifies memory
    ensures (memory[..], ok) == Entries(old(memory[..]), size, block, page, n, 0, delta)
  {
    hide MemEntry, MemPatched;
    var i := 0;
    while i < n
      invariant 0 <= i <= n
      invariant Entries(memory[..], size, block, page, n, i, delta)
        == Entries(old(memory[..]), size, block, page, n, 0, delta)
    {
      var e := MemEntry(memory[..], block + 8 + 2 * i);
      var site := SiteOf(page, e);
      if e / 4096 == HIGHLOW {
        if (site + 4) % WORD > size {
          return false;
        }
        Patch(memory, BASE + site, delta);
      } else if e / 4096 != ABSOLUTE {
        return false;
      }
      i := i + 1;
    }
    return true;
  }

  /** The walk, which has to end. */
  method ApplyRelocations(memory: array<Byte>, size: nat, rva: U32, dir: U32, delta: U32, ghost steps: nat)
      returns (ok: bool)
    requires memory.Length == WORD && Walk(memory[..], size, rva, dir, delta, steps).Some?
    modifies memory
    ensures Walk(old(memory[..]), size, rva, dir, delta, steps) == Some((memory[..], ok))
  {
    hide MemWord, Entries;
    if (rva + dir) % WORD > size {
      return false;
    }
    var offset: nat := 0;
    ghost var left := steps;
    while (offset + 8) % WORD <= dir
      invariant Blocks(memory[..], size, rva, dir, delta, offset, left)
        == Walk(old(memory[..]), size, rva, dir, delta, steps)
      decreases left
    {
      var block := BASE + rva + offset;
      var page, length := MemWord(memory[..], block), MemWord(memory[..], block + 4);
      if length < 8 || (offset + length) % WORD > dir {
        return false;
      }
      var done := PatchBlock(memory, size, block, page, (length - 8) / 2, delta);
      if !done {
        return false;
      }
      offset, left := (offset + length) % WORD, left - 1;
    }
    return true;
  }

  method Load(memory: array<Byte>, file: Bytes, sections: seq<Section>, size: U32, rva: U32, dir: U32, delta: U32,
      ghost steps: nat) returns (ok: bool)
    requires memory.Length == WORD && |file| < WORD
      && Loaded(memory[..], file, sections, size, rva, dir, delta, steps).Some?
    modifies memory
    ensures Loaded(old(memory[..]), file, sections, size, rva, dir, delta, steps) == Some((memory[..], ok))
  {
    hide Walk, Copied, Put;
    if (BASE + size) % WORD > BASE + REGION {
      return false;
    }
    CopyBytes(memory, BASE, ZeroBytes(size));
    ok := CopySections(memory, size, file, sections);
    if ok && delta != 0 && rva != 0 && dir != 0 {
      ok := ApplyRelocations(memory, size, rva, dir, delta, steps);
    }
  }
}

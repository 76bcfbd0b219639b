/** Loading a PE image (kernel/src/level0b1/binary_loader/pe32.rs): the copy of its sections and the base
    relocations, after the section "The .reloc Section (Image Only)" of the Microsoft PE and COFF
    Specification. The image is the memory from the load address on; its addresses are below 2^32. Here every
    sum is unbounded and a test that would only let it through modulo 2^32 ends the reading with `Overflows`:
    module PeLoader has the loader's own arithmetic in 32-bit words and shows when the two agree. */
module Relocations {
  import opened Basics
  import opened LittleEndian

  const ABSOLUTE: nat := 0
  const HIGHLOW: nat := 3
  const WORD: int := 0x1_0000_0000

  // ---- sections -----------------------------------------------------------------------------------

  /** How a reading ends. `Overflows`: a test of the loader lets a sum of 2^32 or more through. */
  datatype Verdict = Fine | Refused | Overflows

  function Test(sum: nat, bound: nat): Verdict {
    if sum <= bound then Fine else if sum % WORD <= bound then Overflows else Refused
  }

  datatype Section = Section(virtualSize: U32, address: U32, rawSize: U32, rawAt: U32)

  function Span(s: Section): nat {
    if s.virtualSize > s.rawSize then s.virtualSize else s.rawSize
  }

  predicate InFile(s: Section, file: Bytes) {
    s.rawSize > 0 ==> s.rawAt + s.rawSize <= |file|
  }

  predicate Fits(s: Section, size: nat, file: Bytes) {
    s.address + Span(s) <= size && InFile(s, file)
  }

  /** The loop over the sections from the `k`-th on. */
  function SectionsFrom(img: Bytes, file: Bytes, sections: seq<Section>, k: nat): (r: (Bytes, Verdict))
    requires k <= |sections|
    ensures |r.0| == |img|
    decreases |sections| - k
  {
    if k == |sections| then (img, Fine)
    else if !Fits(sections[k], |img|, file) then
      (img, if InFile(sections[k], file) then Test(sections[k].address + Span(sections[k]), |img|) else Refused)
    else
      var s := sections[k];
      var next := if s.rawSize > 0 then Splice(img, s.address, file[s.rawAt..s.rawAt + s.rawSize]) else img;
      SectionsFrom(next, file, sections, k + 1)
  }

  predicate Covers(s: Section, a: nat) {
    s.address <= a < s.address + s.rawSize
  }

  /** The byte a section table puts at image address `a`: that of the last section that covers it. */
  function ByteFor(file: Bytes, sections: seq<Section>, k: nat, size: nat, a: nat, before: Byte): Byte
    requires k <= |sections| && forall j :: k <= j < |sections| ==> Fits(sections[j], size, file)
    decreases |sections| - k
  {
    if k == |sections| then before
    else
      assert Fits(sections[k], size, file);
      ByteFor(file, sections, k + 1, size, a,
              if Covers(sections[k], a) then file[sections[k].rawAt + (a - sections[k].address)] else before)
  }

  /** The image is zero where no section reaches and the section's raw data where one does; loading fails
      exactly when some section does not fit. */
  lemma {:induction false} SectionsSpec(img: Bytes, file: Bytes, sections: seq<Section>, k: nat)
    requires k <= |sections|
    ensures SectionsFrom(img, file, sections, k).1.Fine? <==> forall j :: k <= j < |sections| ==>
      Fits(sections[j], |img|, file)
    ensures SectionsFrom(img, file, sections, k).1.Fine? ==>
      forall a :: 0 <= a < |img| ==>
        SectionsFrom(img, file, sections, k).0[a] == ByteFor(file, sections, k, |img|, a, img[a])
    decreases |sections| - k
  {
    if k < |sections| && Fits(sections[k], |img|, file) {
      var s := sections[k];
      var next := if s.rawSize > 0 then Splice(img, s.address, file[s.rawAt..s.rawAt + s.rawSize]) else img;
      forall a | 0 <= a < |img| ensures next[a] == if Covers(s, a) then file[s.rawAt + (a - s.address)] else img[a] {
      }
      hide Fits, Covers;
      SectionsSpec(next, file, sections, k + 1);
    }
  }

  /** Of the sections from the `k`-th on, section `j` is the first that does not fit; it lies in the file, and
      its sum passes a test in words. */
  predicate OverflowsAt(size: nat, file: Bytes, sections: seq<Section>, k: nat, j: nat) {
    && k <= j < |sections| && (forall i :: k <= i < j ==> Fits(sections[i], size, file))
    && !Fits(sections[j], size, file) && InFile(sections[j], file)
       && Test(sections[j].address + Span(sections[j]), size).Overflows?
  }

  lemma OverflowsLater(size: nat, file: Bytes, sections: seq<Section>, k: nat)
    requires k < |sections| && Fits(sections[k], size, file)
    ensures forall j: nat :: OverflowsAt(size, file, sections, k, j) == OverflowsAt(size, file, sections, k + 1, j)
  {
  }

  /** When the reading of a section table overflows. */
  lemma {:induction false} SectionsOverflow(img: Bytes, file: Bytes, sections: seq<Section>, k: nat)
    requires k <= |sections|
    ensures SectionsFrom(img, file, sections, k).1.Overflows? <==>
      exists j: nat :: OverflowsAt(|img|, file, sections, k, j)
    decreases |sections| - k
  {
    if k < |sections| {
      if Fits(sections[k], |img|, file) {
        var s := sections[k];
        var next := if s.rawSize > 0 then Splice(img, s.address, file[s.rawAt..s.rawAt + s.rawSize]) else img;
        SectionsOverflow(next, file, sections, k + 1);
        OverflowsLater(|img|, file, sections, k);
        var l := k + 1;
        if j: nat :| OverflowsAt(|img|, file, sections, l, j) {
          assert OverflowsAt(|img|, file, sections, k, j);
        }
      } else if InFile(sections[k], file) && Test(sections[k].address + Span(sections[k]), |img|).Overflows? {
        assert OverflowsAt(|img|, file, sections, k, k);
      }
    }
  }

  // ---- the walk over the relocation blocks ----------------------------------------------------------

  /** The word at a site grown by `delta`. */
  function Patched(img: Bytes, at: nat, delta: U32): (r: Bytes)
    requires at + 4 <= |img|
    ensures |r| == |img|
  {
    Splice(img, at, Le((WordAt(img, at) + delta) % WORD))
  }

  function EntryAt(img: Bytes, at: nat): nat
    requires at + 2 <= |img|
  {
    img[at] as int + 256 * img[at + 1] as int
  }

  /** The address an entry names in a page. */
  function SiteOf(page: nat, entry: nat): nat {
    (page + entry % 4096) % WORD
  }

  /** In its two bytes an entry has its kind in the upper half of the second, and its place in the page in the
      rest. */
  lemma EntryBytes(img: Bytes, at: nat, page: nat)
    requires at + 2 <= |img| && page < WORD
    ensures var low, high := img[at] as int, img[at + 1] as int;
            var place := page + low + 256 * (high % 16);
            && EntryAt(img, at) / 4096 == high / 16
            && SiteOf(page, EntryAt(img, at)) == (if place < WORD then place else place - WORD)
  {
    var low, high := img[at] as int, img[at + 1] as int;
    assert EntryAt(img, at) == 4096 * (high / 16) + (low + 256 * (high % 16));
  }

  /** The entries of one block from the `i`-th on. */
  function EntriesFrom(img: Bytes, block: nat, page: nat, n: nat, i: nat, delta: U32): (r: (Bytes, Verdict))
    requires i <= n && block + 8 + 2 * n <= |img|
    ensures |r.0| == |img|
    decreases n - i
  {
    if i == n then (img, Fine)
    else
      var e := EntryAt(img, block + 8 + 2 * i);
      var site := SiteOf(page, e);
      if e / 4096 == ABSOLUTE then EntriesFrom(img, block, page, n, i + 1, delta)
      else if e / 4096 != HIGHLOW then (img, Refused)
      else if site + 4 <= |img| then EntriesFrom(Patched(img, site, delta), block, page, n, i + 1, delta)
      else (img, Test(site + 4, |img|))
  }

  /** The blocks from `offset` on: a block that is shorter than its header or runs over the directory is an
      error. */
  function BlocksFrom(img: Bytes, rva: nat, size: nat, delta: U32, offset: nat): (r: (Bytes, Verdict))
    requires rva + size <= |img| && offset <= size
    ensures |r.0| == |img|
    decreases size - offset
  {
    if offset + 8 > size then (img, Fine)
    else
      var block := rva + offset;
      var page, length := WordAt(img, block), WordAt(img, block + 4);
      if length < 8 then (img, Refused)
      else if offset + length > size then (img, Test(offset + length, size))
      else
        var (next, v) := EntriesFrom(img, block, page, (length - 8) / 2, 0, delta);
        if !v.Fine? then (next, v) else BlocksFrom(next, rva, size, delta, offset + length)
  }

  /** `apply_relocations` */
  function Applied(img: Bytes, rva: nat, size: nat, delta: U32): (r: (Bytes, Verdict))
    ensures |r.0| == |img|
  {
    if rva + size > |img| then (img, Test(rva + size, |img|)) else BlocksFrom(img, rva, size, delta, 0)
  }

  // ---- reference: the sites a directory lists -------------------------------------------------------

  function EntrySites(img: Bytes, block: nat, page: nat, n: nat, i: nat): (r: (seq<nat>, Verdict))
    requires i <= n && block + 8 + 2 * n <= |img|
    ensures forall k :: 0 <= k < |r.0| ==> r.0[k] + 4 <= |img|
    decreases n - i
  {
    if i == n then ([], Fine)
    else
      var e := EntryAt(img, block + 8 + 2 * i);
      var site := SiteOf(page, e);
      if e / 4096 == ABSOLUTE then EntrySites(img, block, page, n, i + 1)
      else if e / 4096 != HIGHLOW then ([], Refused)
      else if site + 4 <= |img| then
        var (rest, v) := EntrySites(img, block, page, n, i + 1);
        ([site] + rest, v)
      else ([], Test(site + 4, |img|))
  }

  /** The sites in the order of the directory, up to the first error if there is one. */
  function Sites(img: Bytes, rva: nat, size: nat, offset: nat): (r: (seq<nat>, Verdict))
    requires rva + size <= |img| && offset <= size
    ensures forall k :: 0 <= k < |r.0| ==> r.0[k] + 4 <= |img|
    decreases size - offset
  {
    if offset + 8 > size then ([], Fine)
    else
      var block := rva + offset;
      var page, length := WordAt(img, block), WordAt(img, block + 4);
      if length < 8 then ([], Refused)
      else if offset + length > size then ([], Test(offset + length, size))
      else
        var (here, v) := EntrySites(img, block, page, (length - 8) / 2, 0);
        if !v.Fine? then (here, v)
        else
          var (rest, w) := Sites(img, rva, size, offset + length);
          (here + rest, w)
  }

  // ---- when the list overflows ------------------------------------------------------------------------

  /** An entry that is padding, or names a word of the image. */
  predicate EntryFits(img: Bytes, block: nat, page: nat, j: nat)
    requires block + 8 + 2 * j + 2 <= |img|
  {
    var e := EntryAt(img, block + 8 + 2 * j);
    e / 4096 == ABSOLUTE || (e / 4096 == HIGHLOW && SiteOf(page, e) + 4 <= |img|)
  }

  /** An entry that names a site whose end only passes the test in words. */
  predicate EntryOverflows(img: Bytes, block: nat, page: nat, j: nat)
    requires block + 8 + 2 * j + 2 <= |img|
  {
    var e := EntryAt(img, block + 8 + 2 * j);
    e / 4096 == HIGHLOW && Test(SiteOf(page, e) + 4, |img|).Overflows?
  }

  /** Entry `j` of a block is the first from the `i`-th on that does not fit, and it overflows. */
  predicate EntryLeaves(img: Bytes, block: nat, page: nat, n: nat, i: nat, j: nat)
    requires block + 8 + 2 * n <= |img|
  {
    i <= j < n && (forall l :: i <= l < j ==> EntryFits(img, block, page, l)) && EntryOverflows(img, block, page, j)
  }

  predicate EntriesFit(img: Bytes, block: nat, page: nat, n: nat, i: nat)
    requires block + 8 + 2 * n <= |img|
  {
    forall j :: i <= j < n ==> EntryFits(img, block, page, j)
  }

  ghost predicate EntriesOverflow(img: Bytes, block: nat, page: nat, n: nat, i: nat)
    requires block + 8 + 2 * n <= |img|
  {
    exists j: nat :: EntryLeaves(img, block, page, n, i, j)
  }

  lemma {:induction false} EntrySitesEnd(img: Bytes, block: nat, page: nat, n: nat, i: nat)
    requires i <= n && block + 8 + 2 * n <= |img|
    ensures EntrySites(img, block, page, n, i).1.Fine? <==> EntriesFit(img, block, page, n, i)
    ensures EntrySites(img, block, page, n, i).1.Overflows? <==> EntriesOverflow(img, block, page, n, i)
    decreases n - i
  {
    if i < n {
      EntrySitesEnd(img, block, page, n, i + 1);
      EntriesLater(img, block, page, n, i);
      assert SiteOf(page, EntryAt(img, block + 8 + 2 * i)) + 4 <= |img|
        || !Test(SiteOf(page, EntryAt(img, block + 8 + 2 * i)) + 4, |img|).Fine?;
      hide EntriesFit, EntriesOverflow, SiteOf, EntryAt, Test;
    }
  }

  lemma EntriesLater(img: Bytes, block: nat, page: nat, n: nat, i: nat)
    requires i < n && block + 8 + 2 * n <= |img|
    ensures EntriesFit(img, block, page, n, i) <==>
      EntryFits(img, block, page, i) && EntriesFit(img, block, page, n, i + 1)
    ensures EntriesOverflow(img, block, page, n, i) <==>
      || EntryOverflows(img, block, page, i)
      || (EntryFits(img, block, page, i) && EntriesOverflow(img, block, page, n, i + 1))
  {
    hide EntryFits, EntryOverflows;
    var l := i + 1;
    if EntriesFit(img, block, page, n, i) {
      assert EntryFits(img, block, page, i);
    }
    if EntryOverflows(img, block, page, i) {
      assert EntryLeaves(img, block, page, n, i, i);
    }
    if EntryFits(img, block, page, i) && EntriesOverflow(img, block, page, n, l) {
      var j: nat :| EntryLeaves(img, block, page, n, l, j);
      assert EntryLeaves(img, block, page, n, i, j);
    }
    if EntriesOverflow(img, block, page, n, i) {
      var j: nat :| EntryLeaves(img, block, page, n, i, j);
      assert j > i ==> EntryLeaves(img, block, page, n, l, j) && EntryFits(img, block, page, i);
    }
  }

  /** The block at offset `o` lies in the directory. */
  predicate BlockLies(img: Bytes, rva: nat, dir: nat, o: nat)
    requires rva + dir <= |img|
  {
    o + 8 <= dir && 8 <= WordAt(img, rva + o + 4) && o + WordAt(img, rva + o + 4) <= dir
  }

  /** It does, and each of its entries fits. */
  predicate BlockFits(img: Bytes, rva: nat, dir: nat, o: nat)
    requires rva + dir <= |img|
  {
    BlockLies(img, rva, dir, o) &&
    var page, length := WordAt(img, rva + o), WordAt(img, rva + o + 4);
    EntriesFit(img, rva + o, page, (length - 8) / 2, 0)
  }

  /** The end of the block only passes the test in words, or that of a site it names does. */
  ghost predicate BlockOverflows(img: Bytes, rva: nat, dir: nat, o: nat)
    requires rva + dir <= |img|
  {
    o + 8 <= dir &&
    var page, length := WordAt(img, rva + o), WordAt(img, rva + o + 4);
    if BlockLies(img, rva, dir, o) then EntriesOverflow(img, rva + o, page, (length - 8) / 2, 0)
    else length >= 8 && Test(o + length, dir).Overflows?
  }

  /** From the block at `from` on, the first block that is not in order is that at offset `o`, and it
      overflows. */
  ghost predicate LeavesAt(img: Bytes, rva: nat, dir: nat, from: nat, o: nat)
    requires rva + dir <= |img|
    decreases dir - from
  {
    if from == o then BlockOverflows(img, rva, dir, o)
    else from < o && BlockFits(img, rva, dir, from) && LeavesAt(img, rva, dir, from + WordAt(img, rva + from + 4), o)
  }

  ghost predicate LeavesFrom(img: Bytes, rva: nat, dir: nat, from: nat)
    requires rva + dir <= |img|
  {
    exists o: nat :: LeavesAt(img, rva, dir, from, o)
  }

  /** When the list of a directory overflows. */
  lemma {:induction false} SitesOverflow(img: Bytes, rva: nat, dir: nat, from: nat)
    requires rva + dir <= |img| && from <= dir
    ensures Sites(img, rva, dir, from).1.Overflows? <==> LeavesFrom(img, rva, dir, from)
    decreases dir - from
  {
    hide WordAt, EntrySites, EntriesFit, EntriesOverflow, LeavesFrom, Test;
    LeavesLater(img, rva, dir, from);
    if from + 8 <= dir {
      var page, length := WordAt(img, rva + from), WordAt(img, rva + from + 4);
      if BlockLies(img, rva, dir, from) {
        EntrySitesEnd(img, rva + from, page, (length - 8) / 2, 0);
        if BlockFits(img, rva, dir, from) {
          SitesOverflow(img, rva, dir, from + length);
        }
      }
    }
  }

  lemma LeavesLater(img: Bytes, rva: nat, dir: nat, from: nat)
    requires rva + dir <= |img|
    ensures LeavesFrom(img, rva, dir, from) <==>
      || BlockOverflows(img, rva, dir, from)
      || (BlockFits(img, rva, dir, from) && LeavesFrom(img, rva, dir, from + WordAt(img, rva + from + 4)))
  {
    hide WordAt, EntriesFit, EntriesOverflow, Test;
    if BlockOverflows(img, rva, dir, from) {
      assert LeavesAt(img, rva, dir, from, from);
    } else if BlockFits(img, rva, dir, from) {
      var next := from + WordAt(img, rva + from + 4);
      if LeavesFrom(img, rva, dir, next) {
        var o: nat :| LeavesAt(img, rva, dir, next, o);
        assert o >= next;
        assert LeavesAt(img, rva, dir, from, o);
      }
      if LeavesFrom(img, rva, dir, from) {
        var o: nat :| LeavesAt(img, rva, dir, from, o);
        assert LeavesAt(img, rva, dir, next, o);
      }
    }
  }

  // ---- patching ---------------------------------------------------------------------------------------

  function PatchAll(img: Bytes, sites: seq<nat>, delta: U32): (r: Bytes)
    requires forall k :: 0 <= k < |sites| ==> sites[k] + 4 <= |img|
    ensures |r| == |img|
    decreases |sites|
  {
    if sites == [] then img else PatchAll(Patched(img, sites[0], delta), sites[1..], delta)
  }

  /** No site touches the relocation directory. */
  predicate Outside(sites: seq<nat>, rva: nat, size: nat) {
    forall k :: 0 <= k < |sites| ==> sites[k] + 4 <= rva || rva + size <= sites[k]
  }

  predicate Apart(sites: seq<nat>) {
    forall j, k :: 0 <= j < k < |sites| ==> sites[j] + 4 <= sites[k] || sites[k] + 4 <= sites[j]
  }

  ghost predicate SameDirectory(a: Bytes, b: Bytes, rva: nat, size: nat): (ok: bool)
    ensures ok ==> |a| == |b| && rva + size <= |a|
  {
    |a| == |b| && rva + size <= |a| && forall k :: rva <= k < rva + size ==> a[k] == b[k]
  }

  // ---- the walk patches exactly the sites -------------------------------------------------------------

  lemma {:induction false} PatchAllAppend(img: Bytes, a: seq<nat>, b: seq<nat>, delta: U32)
    requires (forall k :: 0 <= k < |a| ==> a[k] + 4 <= |img|) && (forall k :: 0 <= k < |b| ==> b[k] + 4 <= |img|)
    ensures forall k :: 0 <= k < |a + b| ==> (a + b)[k] + 4 <= |img|
    ensures PatchAll(img, a + b, delta) == PatchAll(PatchAll(img, a, delta), b, delta)
    decreases |a|
  {
    if a == [] {
      assert a + b == b;
    } else {
      PatchAllAppend(Patched(img, a[0], delta), a[1..], b, delta);
      assert (a + b)[1..] == a[1..] + b;
    }
  }

  lemma {:induction false} PatchAllKeepsDirectory(img: Bytes, sites: seq<nat>, delta: U32, rva: nat, size: nat)
    requires rva + size <= |img| && Outside(sites, rva, size) && forall k :: 0 <= k < |sites| ==> sites[k] + 4 <= |img|
    ensures SameDirectory(img, PatchAll(img, sites, delta), rva, size)
    decreases |sites|
  {
    if sites != [] {
      PatchAllKeepsDirectory(Patched(img, sites[0], delta), sites[1..], delta, rva, size);
    }
  }

  lemma SameEntry(img: Bytes, now: Bytes, rva: nat, size: nat, at: nat)
    requires SameDirectory(img, now, rva, size) && rva <= at && at + 2 <= rva + size
    ensures EntryAt(now, at) == EntryAt(img, at)
  {
  }

  /** Reading the directory of `img` in another image with the same directory. */
  lemma {:induction false} EntriesPatchSites(img: Bytes, now: Bytes, rva: nat, size: nat, block: nat, page: nat,
      n: nat, i: nat, delta: U32)
    requires SameDirectory(img, now, rva, size) && i <= n && rva <= block && block + 8 + 2 * n <= rva + size
    requires Outside(EntrySites(img, block, page, n, i).0, rva, size)
    ensures EntriesFrom(now, block, page, n, i, delta)
         == (PatchAll(now, EntrySites(img, block, page, n, i).0, delta), EntrySites(img, block, page, n, i).1)
    decreases n - i
  {
    hide EntryAt, WordAt;
    if i < n {
      var at := block + 8 + 2 * i;
      SameEntry(img, now, rva, size, at);
      var e := EntryAt(img, at);
      var site := SiteOf(page, e);
      if e / 4096 == ABSOLUTE {
        EntriesPatchSites(img, now, rva, size, block, page, n, i + 1, delta);
      } else if e / 4096 == HIGHLOW && site + 4 <= |img| {
        var sites := EntrySites(img, block, page, n, i).0;
        assert sites[0] == site && sites[1..] == EntrySites(img, block, page, n, i + 1).0;
        EntriesPatchSites(img, Patched(now, site, delta), rva, size, block, page, n, i + 1, delta);
      }
    }
  }

  lemma {:induction false} BlocksPatchSites(img: Bytes, now: Bytes, rva: nat, size: nat, delta: U32, offset: nat)
    requires SameDirectory(img, now, rva, size) && offset <= size && Outside(Sites(img, rva, size, offset).0, rva, size)
    ensures BlocksFrom(now, rva, size, delta, offset)
      == (PatchAll(now, Sites(img, rva, size, offset).0, delta), Sites(img, rva, size, offset).1)
    decreases size - offset
  {
    hide EntriesFrom, EntrySites, PatchAll;
    NothingPatched(now, delta);
    if offset + 8 <= size {
      var block := rva + offset;
      var page, length := WordAt(img, block), WordAt(img, block + 4);
      assert WordAt(now, block) == page && WordAt(now, block + 4) == length;
      if length >= 8 && offset + length <= size {
        var here := EntrySites(img, block, page, (length - 8) / 2, 0).0;
        BlockSitesOutside(img, rva, size, offset);
        EntriesPatchSites(img, now, rva, size, block, page, (length - 8) / 2, 0, delta);
        if EntrySites(img, block, page, (length - 8) / 2, 0).1.Fine? {
          PatchAllKeepsDirectory(now, here, delta, rva, size);
          BlocksPatchSites(img, PatchAll(now, here, delta), rva, size, delta, offset + length);
          PatchAllAppend(now, here, Sites(img, rva, size, offset + length).0, delta);
        }
      }
    }
  }

  lemma NothingPatched(img: Bytes, delta: U32)
    ensures PatchAll(img, [], delta) == img
  {
  }

  /** The sites of a block and those of the blocks after it are among those listed from it on. */
  lemma BlockSitesOutside(img: Bytes, rva: nat, size: nat, offset: nat)
    requires rva + size <= |img| && offset + 8 <= size && Outside(Sites(img, rva, size, offset).0, rva, size)
    requires var length := WordAt(img, rva + offset + 4); length >= 8 && offset + length <= size
    ensures var block := rva + offset;
            var page, length := WordAt(img, block), WordAt(img, block + 4);
            var (here, v) := EntrySites(img, block, page, (length - 8) / 2, 0);
            Outside(here, rva, size) && (v.Fine? ==> Outside(Sites(img, rva, size, offset + length).0, rva, size))
  {
    hide EntrySites, WordAt;
    var block := rva + offset;
    var page, length := WordAt(img, block), WordAt(img, block + 4);
    var (here, v) := EntrySites(img, block, page, (length - 8) / 2, 0);
    if v.Fine? {
      var rest := Sites(img, rva, size, offset + length).0;
      assert Sites(img, rva, size, offset).0 == here + rest;
      assert forall k :: 0 <= k < |here| ==> (here + rest)[k] == here[k];
      assert forall k :: 0 <= k < |rest| ==> (here + rest)[|here| + k] == rest[k];
    }
  }

  /** When no listed site touches the directory, the walk over the changing image patches exactly the sites
      the directory lists, and ends where and as the directory read from the initial image says. */
  lemma WalkPatchesSites(img: Bytes, rva: nat, size: nat, delta: U32)
    requires rva + size <= |img| && Outside(Sites(img, rva, size, 0).0, rva, size)
    ensures Applied(img, rva, size, delta)
      == (PatchAll(img, Sites(img, rva, size, 0).0, delta), Sites(img, rva, size, 0).1)
  {
    BlocksPatchSites(img, img, rva, size, delta, 0);
  }

  // ---- what patching does -----------------------------------------------------------------------------

  predicate InSites(sites: seq<nat>, a: nat) {
    exists k :: 0 <= k < |sites| && sites[k] <= a < sites[k] + 4
  }

  lemma PatchedWord(img: Bytes, at: nat, delta: U32)
    requires at + 4 <= |img|
    ensures WordAt(Patched(img, at, delta), at) == (WordAt(img, at) + delta) % WORD
  {
    var v := (WordAt(img, at) + delta) % WORD;
    var r := Patched(img, at, delta);
    assert r[at..at + 4] == Le(v);
    LeRoundTrip(v, r, at);
  }

  lemma {:induction false} OthersKept(img: Bytes, sites: seq<nat>, delta: U32, a: nat)
    requires (forall k :: 0 <= k < |sites| ==> sites[k] + 4 <= |img|) && a < |img| && !InSites(sites, a)
    ensures PatchAll(img, sites, delta)[a] == img[a]
    decreases |sites|
  {
    if sites != [] {
      assert !(sites[0] <= a < sites[0] + 4);
      assert !InSites(sites[1..], a) by {
        assert forall k :: 0 <= k < |sites| - 1 ==> sites[1..][k] == sites[k + 1];
      }
      OthersKept(Patched(img, sites[0], delta), sites[1..], delta, a);
    }
  }

  lemma WordKept(img: Bytes, at: nat, delta: U32, w: nat)
    requires at + 4 <= |img| && w + 4 <= |img| && (at + 4 <= w || w + 4 <= at)
    ensures WordAt(Patched(img, at, delta), w) == WordAt(img, w)
  {
  }

  lemma {:induction false} SitesGrow(img: Bytes, sites: seq<nat>, delta: U32, k: nat)
    requires (forall j :: 0 <= j < |sites| ==> sites[j] + 4 <= |img|) && Apart(sites) && k < |sites|
    ensures WordAt(PatchAll(img, sites, delta), sites[k]) == (WordAt(img, sites[k]) + delta) % WORD
    decreases |sites|
  {
    var next := Patched(img, sites[0], delta);
    if k == 0 {
      PatchedWord(img, sites[0], delta);
      forall a | sites[0] <= a < sites[0] + 4 ensures PatchAll(next, sites[1..], delta)[a] == next[a] {
        OthersKept(next, sites[1..], delta, a);
      }
    } else {
      WordKept(img, sites[0], delta, sites[k]);
      SitesGrow(next, sites[1..], delta, k - 1);
    }
  }

  /** Base relocation: with sites apart from each other and from the directory, a walk grows each word it
      reaches by `delta` modulo 2^32 and changes no other byte. */
  lemma RelocationSpec(img: Bytes, rva: nat, size: nat, delta: U32)
    requires rva + size <= |img|
    requires var sites := Sites(img, rva, size, 0).0; Outside(sites, rva, size) && Apart(sites)
    ensures var (sites, v) := Sites(img, rva, size, 0);
            var (r, w) := Applied(img, rva, size, delta);
            && v == w
            && (forall k :: 0 <= k < |sites| ==> WordAt(r, sites[k]) == (WordAt(img, sites[k]) + delta) % WORD)
            && (forall a :: 0 <= a < |img| && !InSites(sites, a) ==> r[a] == img[a])
  {
    hide Sites, Applied, PatchAll, Patched, WordAt, InSites;
    WalkPatchesSites(img, rva, size, delta);
    var sites := Sites(img, rva, size, 0).0;
    forall k | 0 <= k < |sites|
      ensures WordAt(PatchAll(img, sites, delta), sites[k]) == (WordAt(img, sites[k]) + delta) % WORD {
      SitesGrow(img, sites, delta, k);
    }
    forall a | 0 <= a < |img| && !InSites(sites, a) ensures PatchAll(img, sites, delta)[a] == img[a] {
      OthersKept(img, sites, delta, a);
    }
  }

  lemma WordDetermines(s: Bytes, t: Bytes, at: nat)
    requires at + 4 <= |s| && at + 4 <= |t| && WordAt(s, at) == WordAt(t, at)
    ensures s[at] == t[at] && s[at + 1] == t[at + 1] && s[at + 2] == t[at + 2] && s[at + 3] == t[at + 3]
  {
    Digits(s[at], s[at + 1], s[at + 2], s[at + 3], WordAt(s, at));
    Digits(t[at], t[at + 1], t[at + 2], t[at + 3], WordAt(t, at));
  }

  lemma Digits(a: Byte, b: Byte, c: Byte, d: Byte, w: int)
    requires w == a as int + 256 * b as int + 65536 * c as int + 16777216 * d as int
    ensures a == w % 256 && b == w / 256 % 256 && c == w / 65536 % 256 && d == w / 16777216
  {
    assert w / 256 == b as int + 256 * c as int + 65536 * d as int;
    assert w / 65536 == c as int + 256 * d as int;
  }

  function Opposite(delta: U32): U32 {
    (WORD - delta) % WORD
  }

  lemma SameWord(img: Bytes, now: Bytes, rva: nat, size: nat, at: nat)
    requires SameDirectory(img, now, rva, size) && rva <= at && at + 4 <= rva + size
    ensures WordAt(now, at) == WordAt(img, at)
  {
  }

  lemma {:induction false} SameSites(img: Bytes, now: Bytes, rva: nat, size: nat, offset: nat)
    requires SameDirectory(img, now, rva, size) && offset <= size
    ensures Sites(now, rva, size, offset) == Sites(img, rva, size, offset)
    decreases size - offset
  {
    hide SameDirectory, WordAt, EntrySites;
    if offset + 8 <= size {
      var block := rva + offset;
      var length := WordAt(img, block + 4);
      SameWord(img, now, rva, size, block);
      SameWord(img, now, rva, size, block + 4);
      if length >= 8 && offset + length <= size {
        SameEntries(img, now, rva, size, block, WordAt(img, block), (length - 8) / 2, 0);
        SameSites(img, now, rva, size, offset + length);
      }
    }
  }

  lemma {:induction false} SameEntries(img: Bytes, now: Bytes, rva: nat, size: nat, block: nat, page: nat, n: nat,
      i: nat)
    requires SameDirectory(img, now, rva, size) && i <= n && rva <= block && block + 8 + 2 * n <= rva + size
    ensures EntrySites(now, block, page, n, i) == EntrySites(img, block, page, n, i)
    decreases n - i
  {
    if i < n {
      assert EntryAt(now, block + 8 + 2 * i) == EntryAt(img, block + 8 + 2 * i);
      SameEntries(img, now, rva, size, block, page, n, i + 1);
    }
  }

  /** A second walk with the opposite delta restores the image. */
  lemma RelocationUndone(img: Bytes, rva: nat, size: nat, delta: U32)
    requires rva + size <= |img|
    requires var sites := Sites(img, rva, size, 0).0; Outside(sites, rva, size) && Apart(sites)
    ensures Applied(Applied(img, rva, size, delta).0, rva, size, Opposite(delta)) == (img, Sites(img, rva, size, 0).1)
  {
    hide Sites, Applied, PatchAll, WordAt, Opposite, Outside, Apart, SameDirectory;
    var sites := Sites(img, rva, size, 0).0;
    WalkPatchesSites(img, rva, size, delta);
    RelocationSpec(img, rva, size, delta);
    var r := Applied(img, rva, size, delta).0;
    PatchAllKeepsDirectory(img, sites, delta, rva, size);
    SameSites(img, r, rva, size, 0);
    RelocationSpec(r, rva, size, Opposite(delta));
    var back := Applied(r, rva, size, Opposite(delta)).0;
    forall a | 0 <= a < |img| ensures back[a] == img[a] {
      if InSites(sites, a) {
        var k :| 0 <= k < |sites| && sites[k] <= a < sites[k] + 4;
        AndBack(WordAt(img, sites[k]), delta);
        WordDetermines(back, img, sites[k]);
      }
    }
    assert back == img;
  }

  lemma AndBack(w: U32, delta: U32)
    ensures ((w + delta) % WORD + Opposite(delta)) % WORD == w
  {
  }
}

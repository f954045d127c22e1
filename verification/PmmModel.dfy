/** The frame bitmap of kernel/mm/pmm.c, read as a set of free frames, and what allocation, release
    and boot-time set-up do to that set. */
module PmmModel {
  import opened Words

  const PAGES_MAX: nat := 65536
  const WORDS_MAX: nat := 2048
  const FULL: u32 := 0xFFFF_FFFF

  // ---- bits of a word, by halving ----------------------------------------------------------

  function Pow2(n: nat): (p: nat)
    ensures p >= 1
  {
    if n == 0 then 1 else 2 * Pow2(n - 1)
  }

  predicate Bit(w: nat, k: nat) {
    if k == 0 then w % 2 == 1 else Bit(w / 2, k - 1)
  }

  /** w | (1 << k) */
  function SetBit(w: nat, k: nat): nat {
    if k == 0 then w - w % 2 + 1 else 2 * SetBit(w / 2, k - 1) + w % 2
  }

  /** w & ~(1 << k) */
  function ClearBit(w: nat, k: nat): nat {
    if k == 0 then w - w % 2 else 2 * ClearBit(w / 2, k - 1) + w % 2
  }

  lemma HalfThenDivide(w: nat, p: nat)
    requires p > 0
    ensures w / 2 / p == w / (2 * p)
  {
    var q, r := w / 2 / p, w / 2 % p;
    assert w / 2 == q * p + r;
    assert w == q * (2 * p) + (2 * r + w % 2);
    QuotientIs(w, 2 * p, q, 2 * r + w % 2);
  }

  lemma QuotientIs(w: nat, d: nat, q: nat, r: nat)
    requires w == q * d + r && r < d
    ensures w / d == q
  {
    var e := w / d - q;
    assert w == (w / d) * d + w % d;
    assert (w / d) * d - q * d == e * d;
  }

  /** Bit k of a word is (w >> k) & 1. */
  lemma {:induction false} BitIsShift(w: nat, k: nat)
    ensures Bit(w, k) <==> w / Pow2(k) % 2 == 1
  {
    if k > 0 {
      BitIsShift(w / 2, k - 1);
      HalfThenDivide(w, Pow2(k - 1));
    }
  }

  lemma BitHalves(w: nat, k: nat)
    ensures k > 0 ==> SetBit(w, k) / 2 == SetBit(w / 2, k - 1) && ClearBit(w, k) / 2 == ClearBit(w / 2, k - 1)
    ensures k > 0 ==> SetBit(w, k) % 2 == ClearBit(w, k) % 2 == w % 2
    ensures SetBit(w, 0) / 2 == ClearBit(w, 0) / 2 == w / 2 && SetBit(w, 0) % 2 == 1 && ClearBit(w, 0) % 2 == 0
  {
  }

  lemma {:induction false} BitOps(w: nat, k: nat, j: nat)
    ensures Bit(SetBit(w, k), j) == (j == k || Bit(w, j))
    ensures Bit(ClearBit(w, k), j) == (j != k && Bit(w, j))
  {
    if j > 0 && k > 0 {
      BitOps(w / 2, k - 1, j - 1);
    }
    BitHalves(w, k);
  }

  lemma {:induction false} BitOpsBound(w: nat, k: nat, n: nat)
    requires w < Pow2(n) && k < n
    ensures SetBit(w, k) < Pow2(n) && ClearBit(w, k) < Pow2(n)
  {
    if k > 0 { BitOpsBound(w / 2, k - 1, n - 1); }
  }

  lemma {:induction false} FullHasAllBits(n: nat, k: nat)
    requires k < n
    ensures Bit(Pow2(n) - 1, k)
  {
    if k > 0 {
      FullHasAllBits(n - 1, k - 1);
      assert (Pow2(n) - 1) / 2 == Pow2(n - 1) - 1;
    }
  }

  lemma {:induction false} LowerHasClearBit(w: nat, n: nat) returns (k: nat)
    requires w < Pow2(n) - 1
    ensures k < n && !Bit(w, k)
  {
    if w % 2 == 0 {
      k := 0;
    } else {
      k := LowerHasClearBit(w / 2, n - 1);
      k := k + 1;
    }
  }

  lemma Pow32()
    ensures Pow2(32) == TWO32
  {
    assert Pow2(8) == 256;
    assert Pow2(16) == 65536;
    assert Pow2(24) == 0x100_0000;
  }

  // ---- the bitmap as a set of frames -------------------------------------------------------

  predicate Used(bm: seq<u32>, f: nat)
    requires f < 32 * |bm|
  {
    Bit(bm[f / 32], f % 32)
  }

  ghost function FreeSet(bm: seq<u32>): set<nat> {
    set f: nat | f < 32 * |bm| && !Used(bm, f)
  }

  function Put(bm: seq<u32>, f: nat, used: bool): (r: seq<u32>)
    requires f < 32 * |bm|
    ensures |r| == |bm|
  {
    PutBound(bm[f / 32], f % 32);
    bm[f / 32 := if used then SetBit(bm[f / 32], f % 32) else ClearBit(bm[f / 32], f % 32)]
  }

  lemma PutBound(w: u32, k: nat)
    requires k < 32
    ensures SetBit(w, k) < TWO32 && ClearBit(w, k) < TWO32
  {
    Pow32();
    BitOpsBound(w, k, 32);
  }

  lemma PutUsed(bm: seq<u32>, f: nat, used: bool, g: nat)
    requires f < 32 * |bm| && g < 32 * |bm|
    ensures Used(Put(bm, f, used), g) == if g == f then used else Used(bm, g)
  {
    if g / 32 == f / 32 {
      BitOps(bm[f / 32], f % 32, g % 32);
      assert g == f <==> g % 32 == f % 32;
    }
  }

  /** Setting or clearing one frame's bit changes that frame and no other. */
  lemma PutSpec(bm: seq<u32>, f: nat, used: bool)
    requires f < 32 * |bm|
    ensures FreeSet(Put(bm, f, used)) == if used then FreeSet(bm) - {f} else FreeSet(bm) + {f}
  {
    forall g: nat | g < 32 * |bm| ensures Used(Put(bm, f, used), g) == if g == f then used else Used(bm, g) {
      PutUsed(bm, f, used, g);
    }
  }

  /** Free frames below `n`. */
  function CountFree(bm: seq<u32>, n: nat): (c: nat)
    requires n <= 32 * |bm|
    ensures c <= n
  {
    if n == 0 then 0 else CountFree(bm, n - 1) + if Used(bm, n - 1) then 0 else 1
  }

  lemma {:induction false} CountPut(bm: seq<u32>, f: nat, used: bool, n: nat)
    requires f < 32 * |bm| && n <= 32 * |bm|
    ensures CountFree(Put(bm, f, used), n) ==
            CountFree(bm, n) + if f >= n || Used(bm, f) == used then 0 else if used then -1 else 1
  {
    if n > 0 {
      CountPut(bm, f, used, n - 1);
      PutUsed(bm, f, used, n - 1);
    }
  }

  /** A word is 0xFFFFFFFF exactly when none of its 32 frames is free: skipping it is sound. */
  lemma FullWord(bm: seq<u32>, i: nat)
    requires i < |bm|
    ensures bm[i] == FULL <==> forall f: nat | 32 * i <= f < 32 * i + 32 :: f !in FreeSet(bm)
  {
    Pow32();
    if bm[i] == FULL {
      forall f: nat | 32 * i <= f < 32 * i + 32 ensures f !in FreeSet(bm) { FullHasAllBits(32, f % 32); }
    } else {
      var k := LowerHasClearBit(bm[i], 32);
      assert (32 * i + k) / 32 == i && (32 * i + k) % 32 == k;
      assert 32 * i + k in FreeSet(bm);
    }
  }

  // ---- allocation --------------------------------------------------------------------------

  /** The least free frame in [i, total), or `total`. */
  ghost function Least(free: set<nat>, i: nat, total: nat): (f: nat)
    requires i <= total
    ensures i <= f <= total && (f < total ==> f in free) && forall g | i <= g < f :: g !in free
    decreases total - i
  {
    if i == total || i in free then i else Least(free, i + 1, total)
  }

  datatype Frames = Frames(free: set<nat>, total: nat)

  /** Frame handed out by pmm_alloc_page, or `total` for NULL, and the frames left. */
  ghost function Alloc(s: Frames): (Frames, nat) {
    var f := Least(s.free, 0, s.total);
    if f == s.total then (s, f) else (s.(free := s.free - {f}), f)
  }

  ghost function Release(s: Frames, f: nat): Frames {
    if f >= s.total then s else s.(free := s.free + {f})
  }

  /** A freed frame is handed out next exactly when no lower frame is free. */
  lemma FreedIsNext(s: Frames, f: nat)
    requires f < s.total
    ensures Alloc(Release(s, f)).1 == f <==> forall g | 0 <= g < f :: g !in s.free
  {
    var r := Release(s, f);
    assert f in r.free;
  }

  // ---- runs --------------------------------------------------------------------------------

  datatype Op = AllocOp | FreeOp(f: nat)

  /** Clients hold `held`; they free only what they hold. */
  datatype Client = Client(frames: Frames, held: set<nat>)

  predicate Allowed(c: Client, op: Op) {
    op.FreeOp? ==> op.f in c.held
  }

  ghost function Step(c: Client, op: Op): Client {
    match op
    case AllocOp =>
      var (s, f) := Alloc(c.frames);
      if f == c.frames.total then c else Client(s, c.held + {f})
    case FreeOp(f) => Client(Release(c.frames, f), c.held - {f})
  }

  ghost predicate Legal(c: Client, ops: seq<Op>)
    decreases |ops|
  {
    ops == [] || (Allowed(c, ops[0]) && Legal(Step(c, ops[0]), ops[1..]))
  }

  ghost function Run(c: Client, ops: seq<Op>): Client
    decreases |ops|
  {
    if ops == [] then c else Run(Step(c, ops[0]), ops[1..])
  }

  /** Held frames lie below `total` and are not free. */
  ghost predicate Owned(c: Client) {
    (forall f | f in c.held :: f < c.frames.total) && c.held !! c.frames.free
  }

  /** Over every run, frames are neither lost nor duplicated: held and free frames partition what was
      free at the start. So no frame is held twice, and a frame reserved at boot is never issued. */
  lemma {:induction false} RunConserves(c: Client, ops: seq<Op>)
    requires Owned(c) && Legal(c, ops)
    ensures var d := Run(c, ops);
            && Owned(d) && d.frames.total == c.frames.total
            && d.held + d.frames.free == c.held + c.frames.free
            && |d.held| + |d.frames.free| == |c.held| + |c.frames.free|
    decreases |ops|
  {
    if ops != [] {
      var n := Step(c, ops[0]);
      match ops[0] {
        case AllocOp =>
          var f := Least(c.frames.free, 0, c.frames.total);
          if f < c.frames.total { assert n.held + n.frames.free == c.held + c.frames.free; }
        case FreeOp(f) =>
          assert n.held + n.frames.free == c.held + c.frames.free;
      }
      assert |n.held + n.frames.free| == |n.held| + |n.frames.free|;
      assert |c.held + c.frames.free| == |c.held| + |c.frames.free|;
      RunConserves(n, ops[1..]);
    }
  }

  /** What the next allocation after any run hands out was not held, and not reserved at boot. */
  lemma NeverReissued(c: Client, ops: seq<Op>, reserved: set<nat>)
    requires Owned(c) && Legal(c, ops) && reserved !! c.held + c.frames.free
    ensures var d := Run(c, ops);
            var f := Alloc(d.frames).1;
            f < d.frames.total ==> f !in d.held && f !in reserved
  {
    RunConserves(c, ops);
  }

  // ---- boot: section 3.3 of the Multiboot 1 specification -----------------------------------

  datatype MmapEntry = MmapEntry(size: u32, baseLow: u32, baseHigh: u32, lengthLow: u32, lengthHigh: u32, kind: u32)

  /** What the boot loader passes, as far as pmm_init looks at it; `entries` lists the entries of the
      map in the order they lie in memory. */
  datatype BootInfo = BootInfo(memKnown: bool, memUpper: u32, mapKnown: bool, mapLength: u32, entries: seq<MmapEntry>)

  /** Byte offset of entry `i`: every entry is preceded by its own size field. */
  function Offset(es: seq<MmapEntry>, i: nat): nat
    requires i <= |es|
  {
    if i == 0 then 0 else Offset(es, i - 1) + es[i - 1].size + 4
  }

  /** The entries fill the announced length; the walk's offset stays below 2^32. */
  ghost predicate WellFormed(b: BootInfo) {
    && (forall i | 0 <= i < |b.entries| :: Offset(b.entries, i) < b.mapLength)
    && b.mapLength <= Offset(b.entries, |b.entries|) < TWO32
  }

  predicate AtLeast(x: nat, a: nat) { a <= x }

  ghost function Range(a: nat, b: nat): (r: set<nat>)
    ensures forall x :: x in r <==> a <= x < b
  {
    set x: nat | x < b && AtLeast(x, a)
  }

  function Capped(p: nat): nat {
    if p < PAGES_MAX then p else PAGES_MAX
  }

  /** Pages from that of `base` (rounded down) up to that of `top` (rounded down). */
  ghost function PageRange(base: nat, top: nat): set<nat> {
    Range(base / 4096, Capped(top / 4096))
  }

  /** The pages an entry makes available: those of its region when the region ends below 4 GB,
      and none otherwise. */
  ghost function Offers(e: MmapEntry): set<nat> {
    if e.kind == 1 && e.baseHigh == 0 && e.lengthHigh == 0 && e.baseLow + e.lengthLow < TWO32
    then PageRange(e.baseLow, e.baseLow + e.lengthLow) else {}
  }

  /** Pages offered by the first `i` entries. */
  ghost function Offered(es: seq<MmapEntry>, i: nat): set<nat>
    requires i <= |es|
  {
    if i == 0 then {} else Offered(es, i - 1) + Offers(es[i - 1])
  }

  /** Entries may overlap: a page is offered as soon as one entry offers it. */
  lemma {:induction false} OfferedByOne(es: seq<MmapEntry>, i: nat, p: nat)
    requires i <= |es|
    ensures p in Offered(es, i) <==> exists j | 0 <= j < i :: p in Offers(es[j])
  {
    if i > 0 { OfferedByOne(es, i - 1, p); }
  }

  function TotalPages(b: BootInfo): nat {
    var kb := if b.memKnown then Wrap(b.memUpper + 1024) else 65536;
    var t := Wrap(kb * 1024) / 4096;
    if t > PAGES_MAX then PAGES_MAX else t
  }

  /** Pages of the kernel image [start, end), rounded outwards, with the 32-bit sum of the code. */
  ghost function KernelPages(start: u32, end: u32): set<nat> {
    Range(start / 4096, Capped(Wrap(end + 4095) / 4096))
  }

  ghost function BootOffered(b: BootInfo): set<nat> {
    if b.mapKnown then Offered(b.entries, |b.entries|) else PageRange(0x10_0000, TotalPages(b) * 4096)
  }

  /** The frames free after boot. */
  ghost function BootFree(b: BootInfo, kstart: u32, kend: u32): set<nat> {
    BootOffered(b) - {0} - KernelPages(kstart, kend)
  }

  /** The end pmm_free_region computes, in 32 bits. A region whose end is at or beyond 4 GB yields an
      empty range: its end wraps below its base. */
  lemma WrappedRegionIsEmpty(base: u32, length: u32)
    ensures PageRange(base, Wrap(base + length)) == if base + length < TWO32 then PageRange(base, base + length) else {}
  {
  }

  /** The branch for regions that reach past 4 GB asks for the part below it, whose end is exactly
      2^32 and wraps to 0: no page is freed, although the comment there promises the 32-bit part. So it
      keeps that promise exactly when the bitmap covers none of that part. */
  lemma CrossingRegionFreesNothing(base: u32)
    ensures PageRange(base, Wrap(base + Wrap(0xFFFF_FFFF - base + 1))) == {}
    ensures Range(base / 4096, PAGES_MAX) == {} <==> base >= 4096 * PAGES_MAX
  {
    assert Wrap(base + Wrap(0xFFFF_FFFF - base + 1)) == 0;
    if base < 4096 * PAGES_MAX { assert base / 4096 in Range(base / 4096, PAGES_MAX); }
  }

  /** Where an entry's region starts and ends, in 64 bits. */
  function Base(e: MmapEntry): nat { e.baseHigh * TWO32 + e.baseLow }
  function End(e: MmapEntry): nat { Base(e) + e.lengthHigh * TWO32 + e.lengthLow }

  /** The pages below 4 GB that an entry announces as available, as far as the bitmap reaches. */
  ghost function Announced(e: MmapEntry): set<nat> {
    if e.kind == 1 then PageRange(Base(e), if End(e) < TWO32 then End(e) else TWO32) else {}
  }

  /** pmm_init makes an entry's pages available, all of them, exactly when the entry is not available
      memory, ends below 4 GB, or starts beyond the bitmap. Otherwise it frees none. */
  lemma OffersAnnouncedIff(e: MmapEntry)
    ensures Offers(e) == Announced(e) <==> e.kind != 1 || End(e) < 0x1_0000_0000 || Base(e) >= 0x1000_0000
    ensures Offers(e) == Announced(e) || Offers(e) == {}
  {
    if e.kind == 1 && End(e) >= TWO32 {
      assert Announced(e) == Range(Base(e) / 4096, PAGES_MAX);
      assert Base(e) < 4096 * PAGES_MAX ==> Base(e) / 4096 in Announced(e);
    }
  }

  /** A page is offered exactly when it lies in the bitmap's 256 MB and its last byte lies in an available
      region that ends below 4 GB. */
  lemma OffersByLastByte(e: MmapEntry, p: nat)
    ensures p in Offers(e) <==>
              e.kind == 1 && p < 65536 && Base(e) <= 4096 * p + 4095 < End(e) && End(e) < 0x1_0000_0000
  {
    if e.baseHigh > 0 || e.lengthHigh > 0 { assert End(e) >= TWO32; }
  }

  /** So a region that starts inside a page offers that page whole. Only pages that lie wholly in the
      region are offered exactly when it starts on a page boundary, or offers nothing: it is not
      available memory, ends at or beyond 4 GB, ends within the page it starts in, or starts beyond the
      bitmap. */
  lemma OffersWholePagesIff(e: MmapEntry)
    ensures (forall p | p in Offers(e) :: Base(e) <= 4096 * p && 4096 * p + 4096 <= End(e)) <==>
              || Base(e) % 4096 == 0 || e.kind != 1 || End(e) >= 0x1_0000_0000
              || End(e) / 4096 == Base(e) / 4096 || Base(e) >= 0x1000_0000
  {
    OffersByLastByte(e, Base(e) / 4096);
    forall p | p in Offers(e) ensures 4096 * p + 4096 <= End(e) && Base(e) / 4096 <= p < 65536 {
      OffersByLastByte(e, p);
    }
  }

  /** 5 KB of available memory from 1 KB before the end of page 0x100: that page is offered. */
  lemma PartialPageIsOffered()
    ensures var e := MmapEntry(20, 0x10_0C00, 0, 0x1400, 0, 1);
            0x100 in Offers(e) && 4096 * 0x100 < Base(e)
  {
    OffersByLastByte(MmapEntry(20, 0x10_0C00, 0, 0x1400, 0, 1), 0x100);
  }

  /** Without a map, exactly the pages from 1 MB to total_pages are offered. */
  lemma NoMapOffers(b: BootInfo, p: nat)
    requires !b.mapKnown
    ensures p in BootOffered(b) <==> 256 <= p < TotalPages(b)
  {
  }

  /** total_pages: 16384 without the memory flag; else a quarter of the kilobytes, modulo 4 GB, and at
      most 65536. */
  lemma TotalPagesIs(b: BootInfo)
    ensures !b.memKnown ==> TotalPages(b) == 16384
    ensures b.memKnown ==>
              var kb := (b.memUpper + 1024) % 4194304;
              TotalPages(b) == if kb / 4 < 65536 then kb / 4 else 65536
  {
    var kb := if b.memKnown then Wrap(b.memUpper + 1024) else 65536;
    KilobytesWrap(kb);
  }

  lemma KilobytesWrap(kb: u32)
    ensures Wrap(kb * 1024) / 4096 == kb % 4194304 / 4
  {
    var q, r := kb / 4194304, kb % 4194304;
    assert kb * 1024 == q * TWO32 + r * 1024;
    assert Wrap(kb * 1024) == r * 1024;
  }

  /** It is a quarter of all the kilobytes, or the cap, exactly when these are below 4 GB or the part
      beyond fills the bitmap again. */
  lemma TotalPagesExactIff(b: BootInfo)
    requires b.memKnown
    ensures var all := (b.memUpper + 1024) / 4;
            TotalPages(b) == (if all < 65536 then all else 65536) <==>
              b.memUpper + 1024 < 4194304 || (b.memUpper + 1024) % 4194304 >= 262144
  {
    TotalPagesIs(b);
  }

  /** A map of n entries of 20 bytes, each behind its size field, is walked to its end. */
  lemma StandardMapIsWalked(b: BootInfo)
    requires (forall i | 0 <= i < |b.entries| :: b.entries[i].size == 20) && b.mapLength == 24 * |b.entries|
    ensures WellFormed(b)
  {
    forall i: nat | i <= |b.entries| ensures Offset(b.entries, i) == 24 * i { StandardOffset(b.entries, i); }
  }

  lemma {:induction false} StandardOffset(es: seq<MmapEntry>, i: nat)
    requires (forall j | 0 <= j < |es| :: es[j].size == 20) && i <= |es|
    ensures Offset(es, i) == 24 * i
  {
    if i > 0 { StandardOffset(es, i - 1); }
  }

  /** Without a map, pages from 1 MB to `total` are freed, also when total < 256 and the length wraps. */
  lemma FallbackRange(total: nat)
    requires total <= PAGES_MAX
    ensures Wrap(0x10_0000 + Wrap((total - 256) * 4096)) == total * 4096
  {
    if total < 256 { assert Wrap((total - 256) * 4096) == TWO32 + (total - 256) * 4096; }
  }

  // ---- the page counter -------------------------------------------------------------------

  /** What used_pages holds: total_pages minus the number of free bits anywhere in the bitmap. */
  function Counter(bm: seq<u32>, total: nat): u32
    requires PAGES_MAX <= 32 * |bm|
  {
    Wrap(total - CountFree(bm, PAGES_MAX))
  }

  lemma {:induction false} CountFrom(bm: seq<u32>, a: nat, n: nat)
    requires a <= n <= 32 * |bm|
    ensures CountFree(bm, a) <= CountFree(bm, n) <= CountFree(bm, a) + n - a
    ensures CountFree(bm, n) == CountFree(bm, a) <==> forall f: nat | a <= f < n :: Used(bm, f)
  {
    if a < n {
      CountFrom(bm, a, n - 1);
      if CountFree(bm, n) != CountFree(bm, a) && Used(bm, n - 1) {
        var f: nat :| a <= f < n - 1 && !Used(bm, f);
      }
    }
  }

  /** used_pages equals the number of used frames below total_pages exactly when no frame at or above
      total_pages is free. */
  lemma CounterCountsUsed(bm: seq<u32>, total: nat)
    requires |bm| == WORDS_MAX && total <= PAGES_MAX
    ensures Counter(bm, total) == total - CountFree(bm, total) <==>
              forall f: nat | total <= f < PAGES_MAX :: Used(bm, f)
  {
    CountFrom(bm, total, PAGES_MAX);
  }

  /** Allocating and freeing never change a frame at or above total_pages. */
  lemma {:induction false} RunKeepsHighFrames(c: Client, ops: seq<Op>, f: nat)
    requires f >= c.frames.total
    ensures Run(c, ops).frames.total == c.frames.total
    ensures f in Run(c, ops).frames.free <==> f in c.frames.free
    decreases |ops|
  {
    if ops != [] { RunKeepsHighFrames(Step(c, ops[0]), ops[1..], f); }
  }

  /** From boot on, through every run of allocations and frees: used_pages equals the number of used
      frames below total_pages exactly when boot leaves no page free at or above total_pages, that is,
      when every page offered there is page 0 or belongs to the kernel image. */
  lemma CounterExactIff(b: BootInfo, kstart: u32, kend: u32, ops: seq<Op>, bm: seq<u32>)
    requires |bm| == WORDS_MAX
    requires FreeSet(bm) == Run(Client(Frames(BootFree(b, kstart, kend), TotalPages(b)), {}), ops).frames.free
    ensures Counter(bm, TotalPages(b)) == TotalPages(b) - CountFree(bm, TotalPages(b)) <==>
              forall p | p in BootFree(b, kstart, kend) :: p < TotalPages(b)
  {
    var c, total := Client(Frames(BootFree(b, kstart, kend), TotalPages(b)), {}), TotalPages(b);
    CounterCountsUsed(bm, total);
    forall f: nat | total <= f < PAGES_MAX ensures Used(bm, f) <==> f !in c.frames.free {
      RunKeepsHighFrames(c, ops, f);
    }
    BootFreeInBitmap(b, kstart, kend);
  }

  lemma {:induction false} OfferedInBitmap(es: seq<MmapEntry>, i: nat)
    requires i <= |es|
    ensures forall p | p in Offered(es, i) :: p < PAGES_MAX
  {
    if i > 0 { OfferedInBitmap(es, i - 1); }
  }

  lemma BootFreeInBitmap(b: BootInfo, kstart: u32, kend: u32)
    ensures forall p | p in BootFree(b, kstart, kend) :: 0 < p < PAGES_MAX
    ensures BootFree(b, kstart, kend) !! {0} + KernelPages(kstart, kend)
  {
    OfferedInBitmap(b.entries, |b.entries|);
  }

  /** 1 MB announced by mem_upper but 2 MB of available memory in the map, the lower half of it the
      kernel's: page 512 is free, total_pages is 256, and used_pages is wrong from boot on. */
  lemma CounterGoesWrong(ops: seq<Op>, bm: seq<u32>)
    requires |bm| == WORDS_MAX
    requires var b := BootInfo(true, 0, true, 24, [MmapEntry(20, 0x10_0000, 0, 0x20_0000, 0, 1)]);
             FreeSet(bm) == Run(Client(Frames(BootFree(b, 0x10_0000, 0x20_0000), TotalPages(b)), {}), ops).frames.free
    ensures Counter(bm, 256) != 256 - CountFree(bm, 256)
  {
    var e := MmapEntry(20, 0x10_0000, 0, 0x20_0000, 0, 1);
    var b := BootInfo(true, 0, true, 24, [e]);
    assert WellFormed(b);
    CounterExactIff(b, 0x10_0000, 0x20_0000, ops, bm);
    OfferedByOne([e], 1, 512);
    assert 512 in Offers([e][0]);
    assert TotalPages(b) == 256 && 512 in BootFree(b, 0x10_0000, 0x20_0000);
  }

  // ---- from boot on ----------------------------------------------------------------------------

  /** The pages of the kernel image, by bytes: those of the bitmap that hold a byte of it. */
  lemma KernelPagesByBytes(kstart: u32, kend: u32, p: nat)
    requires kstart < kend <= 0xFFFF_F000
    ensures p in KernelPages(kstart, kend) <==> p < 65536 && kstart < 4096 * p + 4096 && 4096 * p < kend
  {
    assert Wrap(kend + 4095) == kend + 4095;
  }

  /** Which pages boot leaves free, by bytes: those offered, other than page 0, that hold no byte of the
      kernel image. */
  lemma BootFreeByBytes(b: BootInfo, kstart: u32, kend: u32, p: nat)
    requires kstart < kend <= 0xFFFF_F000
    ensures p in BootFree(b, kstart, kend) <==>
              p in BootOffered(b) && p != 0 && (4096 * p + 4096 <= kstart || kend <= 4096 * p)
  {
    OfferedInBitmap(b.entries, |b.entries|);
    KernelPagesByBytes(kstart, kend, p);
  }

  /** The page of a byte of the kernel image is not free after boot, and over every run it is neither
      free nor held, so never handed out. */
  lemma ImageNeverIssued(b: BootInfo, kstart: u32, kend: u32, a: nat, ops: seq<Op>)
    requires kstart <= a < kend <= 0xFFFF_F000
    requires Legal(Client(Frames(BootFree(b, kstart, kend), TotalPages(b)), {}), ops)
    ensures a / 4096 !in BootFree(b, kstart, kend)
    ensures var d := Run(Client(Frames(BootFree(b, kstart, kend), TotalPages(b)), {}), ops);
            && a / 4096 !in d.frames.free && a / 4096 !in d.held
            && (Alloc(d.frames).1 < TotalPages(b) ==> Alloc(d.frames).1 != a / 4096)
  {
    BootFreeByBytes(b, kstart, kend, a / 4096);
    BootRunNeverIssuesReserved(b, kstart, kend, ops);
  }

  /** From boot on, through every run that frees only what it holds: what is handed out is neither held
      nor page 0 nor a page of the kernel image, and held and free frames together stay what boot
      left free. */
  lemma BootRunNeverIssuesReserved(b: BootInfo, kstart: u32, kend: u32, ops: seq<Op>)
    requires Legal(Client(Frames(BootFree(b, kstart, kend), TotalPages(b)), {}), ops)
    ensures var d := Run(Client(Frames(BootFree(b, kstart, kend), TotalPages(b)), {}), ops);
            var f := Alloc(d.frames).1;
            && d.held + d.frames.free == BootFree(b, kstart, kend)
            && (f < TotalPages(b) ==> f !in d.held && f != 0 && f !in KernelPages(kstart, kend))
  {
    var c := Client(Frames(BootFree(b, kstart, kend), TotalPages(b)), {});
    BootFreeInBitmap(b, kstart, kend);
    RunConserves(c, ops);
    NeverReissued(c, ops, {0} + KernelPages(kstart, kend));
  }
}

/** kernel/mm/pmm.c itself: the bitmap and its counters changed in place. */
module Pmm {
  import opened Words
  import opened PmmModel

  class Pmm {
    const bitmap: array<u32>
    var totalPages: u32
    var usedPages: u32

    ghost var free: set<nat>

    ghost predicate Valid()
      reads this, bitmap
    {
      && bitmap.Length == WORDS_MAX && totalPages <= PAGES_MAX
      && free == FreeSet(bitmap[..]) && usedPages == Counter(bitmap[..], totalPages)
    }

    ghost function State(): Frames
      reads this
    {
      Frames(free, totalPages)
    }

    predicate BitTest(f: nat)
      requires f < 32 * bitmap.Length
      reads bitmap
      ensures BitTest(f) <==> f !in FreeSet(bitmap[..])
    {
      Bit(bitmap[f / 32], f % 32)
    }

    method BitSet(f: nat)
      requires f < 32 * bitmap.Length
      modifies bitmap
      ensures bitmap[..] == Put(old(bitmap[..]), f, true)
    {
      PutBound(bitmap[f / 32], f % 32);
      bitmap[f / 32] := SetBit(bitmap[f / 32], f % 32);
    }

    method BitClear(f: nat)
      requires f < 32 * bitmap.Length
      modifies bitmap
      ensures bitmap[..] == Put(old(bitmap[..]), f, false)
    {
      PutBound(bitmap[f / 32], f % 32);
      bitmap[f / 32] := ClearBit(bitmap[f / 32], f % 32);
    }

    /** Clear a frame's bit if it is set, and count it. */
    method FreeOne(f: nat)
      requires Valid() && f < PAGES_MAX
      modifies `usedPages, `free, bitmap
      ensures Valid() && free == old(free) + {f}
    {
      PutSpec(bitmap[..], f, false);
      CountPut(bitmap[..], f, false, PAGES_MAX);
      if BitTest(f) {
        BitClear(f);
        usedPages := Wrap(usedPages - 1);
        free := free + {f};
      }
    }

    /** Set a frame's bit if it is clear, and count it. */
    method UseOne(f: nat)
      requires Valid() && f < PAGES_MAX
      modifies `usedPages, `free, bitmap
      ensures Valid() && free == old(free) - {f}
    {
      PutSpec(bitmap[..], f, true);
      CountPut(bitmap[..], f, true, PAGES_MAX);
      if !BitTest(f) {
        BitSet(f);
        usedPages := Wrap(usedPages + 1);
        free := free - {f};
      }
    }

    /** The loop of pmm_free_region. */
    method FreePages(first: nat, end: nat)
      requires Valid()
      modifies `usedPages, `free, bitmap
      ensures Valid() && free == old(free) + Range(first, Capped(end))
    {
      var page := first;
      while page < end && page < PAGES_MAX
        invariant Valid() && first <= page && (first < Capped(end) ==> page <= Capped(end))
        invariant first >= Capped(end) ==> page == first
        invariant free == old(free) + Range(first, page)
      {
        FreeOne(page);
        page := page + 1;
      }
    }

    /** The loop of pmm_mark_region_used. */
    method UsePages(first: nat, end: nat)
      requires Valid()
      modifies `usedPages, `free, bitmap
      ensures Valid() && free == old(free) - Range(first, Capped(end))
    {
      var page := first;
      while page < end && page < PAGES_MAX
        invariant Valid() && first <= page && (first < Capped(end) ==> page <= Capped(end))
        invariant first >= Capped(end) ==> page == first
        invariant free == old(free) - Range(first, page)
      {
        UseOne(page);
        page := page + 1;
      }
    }

    /** pmm_free_region: exactly the pages of the range become free. */
    method FreeRegion(base: u32, length: u32)
      requires Valid()
      modifies `usedPages, `free, bitmap
      ensures Valid()
      ensures free == old(free) + PageRange(base, Wrap(base + length))
    {
      var page := base / 4096;
      var end := Wrap(base + length) / 4096;
      FreePages(page, end);
    }

    /** pmm_mark_region_used: exactly the pages touched by [base, base + length) become used, with the
        end computed in 32 bits. */
    method MarkRegionUsed(base: u32, length: u32)
      requires Valid()
      modifies `usedPages, `free, bitmap
      ensures Valid()
      ensures free == old(free) - KernelPages(base, Wrap(base + length))
    {
      var page := base / 4096;
      var end := Wrap(base + length + 4096 - 1) / 4096;
      assert end == Wrap(Wrap(base + length) + 4095) / 4096;
      ghost var pages := Range(page, Capped(end));
      assert pages == KernelPages(base, Wrap(base + length));
      UsePages(page, end);
    }

    /** pmm_alloc_page: the word-skipping scan finds the least free frame below total_pages, as a byte
        address, or returns NULL when there is none. */
    method AllocPage() returns (p: u32)
      requires Valid()
      modifies `usedPages, `free, bitmap
      ensures Valid()
      ensures var (s, f) := Alloc(old(State()));
              State() == s && (if f == totalPages then p == 0 else p == f * 4096)
    {
      p := 0;
      var i := 0;
      while i < WORDS_MAX
        invariant i <= WORDS_MAX && State() == old(State()) && Valid() && p == 0
        invariant forall f: nat | f < 32 * i :: f !in free
      {
        FullWord(bitmap[..], i);
        if bitmap[i] != FULL {
          var bit := 0;
          while bit < 32
            invariant bit <= 32 && State() == old(State()) && Valid() && p == 0
            invariant forall f: nat | f < 32 * i + bit :: f !in free
          {
            var page := i * 32 + bit;
            if page >= totalPages { return; }
            if !BitTest(page) {
              UseOne(page);
              return page * 4096;
            }
            bit := bit + 1;
          }
        }
        i := i + 1;
      }
    }

    /** pmm_free_page: frees the frame of an address below total_pages, once. */
    method FreePage(p: u32)
      requires Valid()
      modifies `usedPages, `free, bitmap
      ensures Valid() && State() == Release(old(State()), p / 4096)
    {
      var frame := p / 4096;
      if frame >= totalPages { return; }
      FreeOne(frame);
    }

    /** One entry of the map: its pages become free. */
    method VisitEntry(e: MmapEntry)
      requires Valid()
      modifies `usedPages, `free, bitmap
      ensures Valid() && free == old(free) + Offers(e)
    {
      if e.kind == 1 {
        if e.baseHigh == 0 && e.lengthHigh == 0 {
          WrappedRegionIsEmpty(e.baseLow, e.lengthLow);
          FreeRegion(e.baseLow, e.lengthLow);
        } else if e.baseHigh == 0 {
          var available := Wrap(0xFFFF_FFFF - e.baseLow + 1);
          CrossingRegionFreesNothing(e.baseLow);
          FreeRegion(e.baseLow, available);
        }
      }
    }

    /** The map walk of pmm_init: it visits every entry and stops; after it exactly the offered pages
        have become free. */
    method WalkMap(b: BootInfo)
      requires Valid() && WellFormed(b)
      modifies `usedPages, `free, bitmap
      ensures Valid() && free == old(free) + Offered(b.entries, |b.entries|)
    {
      var offset := 0;
      var i := 0;
      while offset < b.mapLength
        invariant Valid() && i <= |b.entries| && offset == Offset(b.entries, i)
        invariant free == old(free) + Offered(b.entries, i)
        decreases |b.entries| - i
      {
        var e := b.entries[i];
        VisitEntry(e);
        offset := offset + e.size + 4;
        i := i + 1;
      }
    }

    /** pmm_init: afterwards the free frames are exactly those offered, minus page 0 and the kernel. */
    constructor Init(b: BootInfo, kernelStart: u32, kernelEnd: u32)
      requires b.mapKnown ==> WellFormed(b)
      ensures Valid() && fresh(bitmap)
      ensures State() == Frames(BootFree(b, kernelStart, kernelEnd), TotalPages(b))
    {
      bitmap := new u32[WORDS_MAX](_ => FULL);
      totalPages := TotalPages(b);
      usedPages := TotalPages(b);
      free := {};
      new;
      AllFull(bitmap[..]);
      OfferMemory(b);
      Reserve(kernelStart, kernelEnd);
    }

    /** Step 2 of pmm_init, with or without a map. */
    method OfferMemory(b: BootInfo)
      requires Valid() && totalPages == TotalPages(b) && (b.mapKnown ==> WellFormed(b))
      modifies `usedPages, `free, bitmap
      ensures Valid() && free == old(free) + BootOffered(b)
    {
      if b.mapKnown {
        WalkMap(b);
      } else {
        var length := Wrap((totalPages - 256) * 4096);
        FallbackRange(totalPages);
        ghost var pages := PageRange(0x10_0000, Wrap(0x10_0000 + (length as int)));
        assert pages == BootOffered(b);
        FreeRegion(0x10_0000, length);
      }
    }

    /** Steps 3 and 4: page 0 and the kernel image. */
    method Reserve(kernelStart: u32, kernelEnd: u32)
      requires Valid()
      modifies `usedPages, `free, bitmap
      ensures Valid() && free == old(free) - {0} - KernelPages(kernelStart, kernelEnd)
    {
      UseOne(0);
      var length := Wrap(kernelEnd - kernelStart);
      assert Wrap(kernelStart + length) == kernelEnd;
      MarkRegionUsed(kernelStart, length);
    }
  }

  lemma AllFull(bm: seq<u32>)
    requires forall i | 0 <= i < |bm| :: bm[i] == FULL
    ensures FreeSet(bm) == {} && CountFree(bm, 32 * |bm|) == 0
  {
    forall f: nat | f < 32 * |bm| ensures Used(bm, f) {
      FullWord(bm, f / 32);
      assert f !in FreeSet(bm);
    }
    CountFrom(bm, 0, 32 * |bm|);
  }
}

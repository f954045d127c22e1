/** The main results about the kernel heap, over every request and every run. */
module HeapTheorems {
  import opened Words
  import opened HeapModel
  import opened HeapRuns

  // ---- invariant of every step and every run --------------------------------------------

  lemma MallocKeepsInv(s: HeapState, n: u32, lo: nat, hi: nat)
    requires Inv(s, lo, hi)
    ensures Inv(MallocStep(s, n, lo, hi).after, lo, hi)
  {
    var w := WordsFor(n);
    var i := FirstFit(s.blocks, w);
    if n != 0 && i < |s.blocks| {
      AllocateTiles(s.mem, lo, hi, s.blocks, i, w);
      AllocateUsed(s.blocks, i, w);
    }
  }

  lemma FreeKeepsInv(s: HeapState, p: nat, lo: nat, hi: nat)
    requires Inv(s, lo, hi)
    ensures Inv(FreeStep(s, p, lo, hi), lo, hi)
  {
    var i := IndexOf(s.blocks, p);
    if p != 0 && i < |s.blocks| && s.blocks[i].used {
      SuccessorFacts(s.mem, lo, hi, s.blocks, i);
      ReleaseTiles(s.mem, lo, hi, s.blocks, i);
      ReleaseUsed(s.blocks, i);
    }
  }

  /** Changing words of one block's payload only leaves the chain as it was. */
  lemma PayloadWritesKeepTiles(m: seq<u32>, m': seq<u32>, a: nat, end: nat, bs: seq<Block>, i: nat)
    requires Tiles(m, a, end, end, bs) && i < |bs| && |m'| == |m|
    requires forall k | 0 <= k < |m| && !(bs[i].Body() <= k < bs[i].End()) :: m'[k] == m[k]
    ensures Tiles(m', a, end, end, bs)
  {
    var b := bs[i];
    TilesSplit(m, a, end, end, bs, i);
    OneTile(m', b, end);
    assert bs == bs[..i] + [b] + bs[i + 1..];
    TilesPatch(m, m', a, b.at, b.End(), end, bs[..i], [b], bs[i + 1..]);
  }

  lemma ZallocKeepsInv(s: HeapState, n: u32, lo: nat, hi: nat)
    requires Inv(s, lo, hi) && Clearable(s.blocks, n)
    ensures Inv(ZallocStep(s, n, lo, hi).after, lo, hi)
  {
    MallocKeepsInv(s, n, lo, hi);
    var o := MallocStep(s, n, lo, hi);
    if o.ptr != 0 {
      MallocRoom(s, n, lo, hi);
      var i := FirstFit(s.blocks, WordsFor(n));
      var b, m, r := o.after.blocks[i], o.after.mem, ZeroBytes(o.after.mem, o.ptr, n);
      forall k | 0 <= k < |m| && !(b.Body() <= k < b.End()) ensures r[k] == m[k] {
        ZeroBytesFrame(m, o.ptr, n, k);
      }
      PayloadWritesKeepTiles(m, r, lo, hi, o.after.blocks, i);
    }
  }

  lemma StepKeepsInv(s: HeapState, op: Op, lo: nat, hi: nat)
    requires Inv(s, lo, hi) && Enabled(s, op)
    ensures Inv(Step(s, op, lo, hi).after, lo, hi)
  {
    match op
    case Malloc(n) => MallocKeepsInv(s, n, lo, hi);
    case Zalloc(n) => ZallocKeepsInv(s, n, lo, hi);
    case Free(p) => FreeKeepsInv(s, p, lo, hi);
    case Store(p, k, v) =>
      var i := IndexOf(s.blocks, p);
      SuccessorFacts(s.mem, lo, hi, s.blocks, i);
      PayloadWritesKeepTiles(s.mem, Step(s, op, lo, hi).after.mem, lo, hi, s.blocks, i);
  }

  /** Every operation of the run is allowed in the state it starts from. */
  ghost predicate Legal(s: HeapState, ops: seq<Op>, lo: nat, hi: nat)
    requires Inv(s, lo, hi)
    decreases |ops|
  {
    ops == [] ||
    (Enabled(s, ops[0]) &&
     (StepKeepsInv(s, ops[0], lo, hi); Legal(Step(s, ops[0], lo, hi).after, ops[1..], lo, hi)))
  }

  ghost function Run(s: HeapState, ops: seq<Op>, lo: nat, hi: nat): (t: HeapState)
    requires Inv(s, lo, hi) && Legal(s, ops, lo, hi)
    ensures Inv(t, lo, hi)
    decreases |ops|
  {
    if ops == [] then s else
      StepKeepsInv(s, ops[0], lo, hi);
      Run(Step(s, ops[0], lo, hi).after, ops[1..], lo, hi)
  }

  /** The state heap_init leaves. */
  ghost function Initial(m: seq<u32>, lo: nat, hi: nat): (s: HeapState)
    requires 0 < lo && lo + 4 <= hi <= |m| <= TWO32 / 4 && hi < TWO32 / 4
    ensures Inv(s, lo, hi)
  {
    OneBlockInv(m, lo, hi);
    HeapState(PutHeader(m, lo, 4 * (hi - lo - 4), 0, 0), [Block(lo, hi - lo - 4, false)], 0)
  }

  lemma OneBlockInv(m: seq<u32>, lo: nat, hi: nat)
    requires 0 < lo && lo + 4 <= hi <= |m| <= TWO32 / 4 && hi < TWO32 / 4
    ensures Inv(HeapState(PutHeader(m, lo, 4 * (hi - lo - 4), 0, 0), [Block(lo, hi - lo - 4, false)], 0), lo, hi)
  {
    LowAfterSet(m[lo + 2], 0);
    OneTile(PutHeader(m, lo, 4 * (hi - lo - 4), 0, 0), Block(lo, hi - lo - 4, false), hi);
  }

  /** What the invariant says: the blocks found in memory fill the region, heap_used is the size
      of those in use, and two payloads never overlap and stay in bounds. */
  lemma InvMeans(t: HeapState, lo: nat, hi: nat, i: nat, j: nat)
    requires Inv(t, lo, hi)
    ensures Extent(t.blocks) == hi - lo
    ensures t.used == UsedBytes(t.blocks) && t.used + 16 * |t.blocks| <= 4 * (hi - lo)
    ensures i < |t.blocks| ==> lo < t.blocks[i].Body() <= t.blocks[i].End() <= hi
    ensures i < j < |t.blocks| ==> t.blocks[i].End() < t.blocks[j].Body()
  {
    ExtentIsRegion(t.mem, lo, hi, hi, t.blocks);
    if i < |t.blocks| { TilesSplit(t.mem, lo, hi, hi, t.blocks, i); }
    if i < j < |t.blocks| { TilesDisjoint(t.mem, lo, hi, hi, t.blocks, i, j); }
  }

  /** What memory holds at a block: the magic number, the size in bytes, a used flag whose byte is 0
      exactly when the block is free, and the address of the next header, 16 bytes of header and the
      payload further on, or NULL after the last. The pointer handed out is 16 bytes past the header. */
  lemma HeaderInMemory(t: HeapState, lo: nat, hi: nat, i: nat)
    requires Inv(t, lo, hi) && i < |t.blocks|
    ensures var b := t.blocks[i];
            && b.at + 3 < |t.mem| && b.Ptr() == 4 * b.at + 16
            && t.mem[b.at] == 0xC0FFEE42 && t.mem[b.at + 1] == 4 * b.len
            && (t.mem[b.at + 2] % 0x100 == 0 <==> !b.used)
            && (i + 1 == |t.blocks| ==> t.mem[b.at + 3] == 0 && 4 * b.at + 16 + 4 * b.len == 4 * hi)
            && (i + 1 < |t.blocks| ==>
                  t.mem[b.at + 3] == 4 * t.blocks[i + 1].at == 4 * b.at + 16 + 4 * b.len)
  {
    SuccessorFacts(t.mem, lo, hi, t.blocks, i);
    TilesSplit(t.mem, lo, hi, hi, t.blocks, i);
  }

  /** heap_init: one free block of all the bytes but its header; no word but that header changes, and of
      its used word only the low byte. */
  lemma InitialHeap(m: seq<u32>, lo: nat, hi: nat)
    requires 0 < lo && lo + 4 <= hi <= |m| <= TWO32 / 4 && hi < TWO32 / 4
    ensures var s := Initial(m, lo, hi);
            && |s.blocks| == 1 && s.blocks[0].at == lo && !s.blocks[0].used && s.used == 0
            && 4 * s.blocks[0].len == 4 * (hi - lo) - 16 && |s.mem| == |m|
            && s.mem[lo + 2] / 0x100 == m[lo + 2] / 0x100
            && forall k | 0 <= k < |m| && !(lo <= k < lo + 4) :: s.mem[k] == m[k]
  {
    LowAfterSet(m[lo + 2], 0);
  }

  /** After heap_init and any run: the chain in memory tiles the region, and nothing else could
      be read from it; every payload is in bounds and any two are disjoint; heap_used is exact. */
  lemma EveryRunIsSafe(m: seq<u32>, lo: nat, hi: nat, ops: seq<Op>, i: nat, j: nat, other: seq<Block>)
    requires 0 < lo && lo + 4 <= hi <= |m| <= TWO32 / 4 && hi < TWO32 / 4
    requires Legal(Initial(m, lo, hi), ops, lo, hi)
    ensures var t := Run(Initial(m, lo, hi), ops, lo, hi);
            && Tiles(t.mem, lo, hi, hi, t.blocks)
            && (Tiles(t.mem, lo, hi, hi, other) ==> other == t.blocks)
            && Extent(t.blocks) == hi - lo && t.used == UsedBytes(t.blocks)
            && (i < |t.blocks| ==> lo < t.blocks[i].Body() <= t.blocks[i].End() <= hi)
            && (i < j < |t.blocks| ==> t.blocks[i].End() < t.blocks[j].Body())
  {
    var t := Run(Initial(m, lo, hi), ops, lo, hi);
    InvMeans(t, lo, hi, i, j);
    if Tiles(t.mem, lo, hi, hi, other) { TilesUnique(t.mem, lo, hi, other, t.blocks); }
  }

  // ---- isolation ------------------------------------------------------------------------

  /** The block of `b` is in the chain, in use, and its payload holds `data`. */
  ghost predicate Holds(s: HeapState, b: Block, data: seq<u32>) {
    b in s.blocks && b.used && b.End() <= |s.mem| && s.mem[b.Body()..b.End()] == data
  }

  lemma LiveUnlikeOther(s: HeapState, lo: nat, hi: nat, b: Block, i: nat)
    requires Inv(s, lo, hi) && b in s.blocks && i < |s.blocks| && s.blocks[i] != b
    ensures b.End() <= s.blocks[i].at || s.blocks[i].End() <= b.at
  {
    var j :| 0 <= j < |s.blocks| && s.blocks[j] == b;
    if j < i { TilesDisjoint(s.mem, lo, hi, hi, s.blocks, j, i); }
    else { TilesDisjoint(s.mem, lo, hi, hi, s.blocks, i, j); }
  }

  lemma InEitherHalf(bs: seq<Block>, b: Block, i: nat)
    requires b in bs && i < |bs| && b != bs[i]
    ensures b in bs[..i] || b in bs[i + 1..]
  {
    var j :| 0 <= j < |bs| && bs[j] == b;
    if j < i { assert bs[..i][j] == b; } else { assert bs[i + 1..][j - i - 1] == b; }
  }

  lemma MallocIsolates(s: HeapState, n: u32, lo: nat, hi: nat, b: Block, data: seq<u32>)
    requires Inv(s, lo, hi) && Holds(s, b, data)
    ensures Holds(MallocStep(s, n, lo, hi).after, b, data)
    ensures MallocStep(s, n, lo, hi).ptr != b.Ptr()
  {
    var w := WordsFor(n);
    var i := FirstFit(s.blocks, w);
    if n != 0 && i < |s.blocks| {
      AllocateTiles(s.mem, lo, hi, s.blocks, i, w);
      LiveUnlikeOther(s, lo, hi, b, i);
      AllocateKeepsOther(s.blocks, i, w, b);
      CarveKeepsPayload(s.mem, s.blocks[i], w, b);
    }
  }

  lemma AllocateKeepsOther(bs: seq<Block>, i: nat, w: nat, b: Block)
    requires i < |bs| && b in bs && b != bs[i]
    ensures b in Allocate(bs, i, w)
  {
    InEitherHalf(bs, b, i);
  }

  /** The stores of an allocation stay out of the payloads of other blocks. */
  lemma CarveKeepsPayload(m: seq<u32>, c: Block, w: nat, b: Block)
    requires 0 < c.at && c.End() <= |m| <= TWO32 / 4 && b.End() <= |m| && (b.End() <= c.at || c.End() <= b.at)
    ensures CarveWords(m, c, w)[b.Body()..b.End()] == m[b.Body()..b.End()]
  {
  }

  lemma ZallocIsolates(s: HeapState, n: u32, lo: nat, hi: nat, b: Block, data: seq<u32>)
    requires Inv(s, lo, hi) && Clearable(s.blocks, n) && Holds(s, b, data)
    ensures Holds(ZallocStep(s, n, lo, hi).after, b, data)
  {
    MallocIsolates(s, n, lo, hi, b, data);
    MallocKeepsInv(s, n, lo, hi);
    var o := MallocStep(s, n, lo, hi);
    if o.ptr != 0 {
      MallocRoom(s, n, lo, hi);
      var i := FirstFit(s.blocks, WordsFor(n));
      LiveUnlikeOther(o.after, lo, hi, b, i);
      forall k | b.Body() <= k < b.End() ensures ZeroBytes(o.after.mem, o.ptr, n)[k] == o.after.mem[k] {
        ZeroBytesFrame(o.after.mem, o.ptr, n, k);
      }
    }
  }

  /** Freeing (or re-freeing) block `i` leaves every other block in use where it was. */
  lemma MergeKeepsUsed(bs: seq<Block>, i: nat)
    requires i < |bs|
    ensures forall b: Block | b.used && b in Release(bs, i) :: b in bs
    ensures forall b: Block | b.used && b in bs && b != bs[i] :: b in Release(bs, i)
  {
    forall b: Block | b.used && b in bs && b != bs[i] ensures b in Release(bs, i) {
      InEitherHalf(bs, b, i);
      if FreeSuccessor(bs, i) { assert bs[i + 1..] == [bs[i + 1]] + bs[i + 2..]; }
    }
  }

  lemma FreeIsolates(s: HeapState, p: nat, lo: nat, hi: nat, b: Block, data: seq<u32>)
    requires Inv(s, lo, hi) && Holds(s, b, data) && p != b.Ptr()
    ensures Holds(FreeStep(s, p, lo, hi), b, data)
  {
    var i := IndexOf(s.blocks, p);
    if p != 0 && i < |s.blocks| && s.blocks[i].used {
      LiveUnlikeOther(s, lo, hi, b, i);
      MergeKeepsUsed(s.blocks, i);
      SuccessorFacts(s.mem, lo, hi, s.blocks, i);
      ReleaseHeader(s.mem, lo, hi, s.blocks, i);
      assert ReleaseWords(s.mem, s.blocks, i)[b.Body()..b.End()] == s.mem[b.Body()..b.End()];
    }
  }

  predicate Touches(op: Op, p: nat) {
    (op.Free? || op.Store?) && op.p == p
  }

  lemma StepIsolates(s: HeapState, op: Op, lo: nat, hi: nat, b: Block, data: seq<u32>)
    requires Inv(s, lo, hi) && Enabled(s, op) && Holds(s, b, data) && !Touches(op, b.Ptr())
    ensures Holds(Step(s, op, lo, hi).after, b, data)
  {
    match op
    case Malloc(n) => MallocIsolates(s, n, lo, hi, b, data);
    case Zalloc(n) => ZallocIsolates(s, n, lo, hi, b, data);
    case Free(p) => FreeIsolates(s, p, lo, hi, b, data);
    case Store(p, k, v) =>
      SuccessorFacts(s.mem, lo, hi, s.blocks, IndexOf(s.blocks, p));
      LiveUnlikeOther(s, lo, hi, b, IndexOf(s.blocks, p));
  }

  /** Over any run that neither frees a live block nor stores through its own pointer, the block
      stays live at the same place and every word of its payload keeps its value. */
  lemma {:induction false} RunIsolates(s: HeapState, ops: seq<Op>, lo: nat, hi: nat, b: Block, data: seq<u32>)
    requires Inv(s, lo, hi) && Legal(s, ops, lo, hi) && Holds(s, b, data)
    requires forall op | op in ops :: !Touches(op, b.Ptr())
    ensures Holds(Run(s, ops, lo, hi), b, data)
    decreases |ops|
  {
    if ops != [] {
      StepKeepsInv(s, ops[0], lo, hi);
      StepIsolates(s, ops[0], lo, hi, b, data);
      RunIsolates(Step(s, ops[0], lo, hi).after, ops[1..], lo, hi, b, data);
    }
  }

  // ---- kmalloc: lowest fit, fails exactly when nothing fits ------------------------------

  /** kmalloc returns NULL exactly for size 0 or when no free block holds the rounded request;
      otherwise it returns the lowest such block, and that block holds the n bytes asked for
      exactly when n <= 2^32 - 4, wasting at most 16 bytes beyond rounding. */
  lemma MallocIsFirstFit(s: HeapState, n: u32, lo: nat, hi: nat)
    requires Inv(s, lo, hi)
    ensures MallocStep(s, n, lo, hi).ptr == 0 <==>
              n == 0 || forall b | b in s.blocks :: b.used || 4 * b.len < Align4(n)
    ensures var o := MallocStep(s, n, lo, hi); o.ptr != 0 ==>
              exists i | 0 <= i < |s.blocks| && i < |o.after.blocks| ::
                && s.blocks[i].Ptr() == o.ptr && !s.blocks[i].used
                && (forall j | 0 <= j < i :: s.blocks[j].used || 4 * s.blocks[j].len < Align4(n))
                && o.after.blocks[i].used && o.after.blocks[i].Ptr() == o.ptr
                && (n <= 4 * o.after.blocks[i].len <==> n <= TWO32 - 4)
                && Align4(n) <= 4 * o.after.blocks[i].len <= Align4(n) + 16
  {
    AlignCovers(n);
    var i := FirstFit(s.blocks, WordsFor(n));
    if i < |s.blocks| { assert s.blocks[i] in s.blocks; }
    if MallocStep(s, n, lo, hi).ptr != 0 { MallocRoom(s, n, lo, hi); }
  }

  /** What kmalloc hands out of the block b it takes, in bytes. When b has at least 20 bytes more than the
      rounded request, the block handed out has exactly the rounded request and a free block of the rest,
      at least 4 bytes, follows behind its own 16-byte header. Otherwise all of b is handed out and the
      chain keeps its length. No other block changes, and heap_used grows by what was handed out. */
  lemma MallocSplitsIff(s: HeapState, n: u32, lo: nat, hi: nat) returns (i: nat)
    requires Inv(s, lo, hi) && MallocStep(s, n, lo, hi).ptr != 0
    ensures i < |s.blocks| && MallocStep(s, n, lo, hi).ptr == s.blocks[i].Ptr()
    ensures var o, b := MallocStep(s, n, lo, hi), s.blocks[i];
            var bs := o.after.blocks;
            && i < |bs| && bs[..i] == s.blocks[..i] && o.after.used == s.used + 4 * bs[i].len
            && bs[i].used && bs[i].at == b.at && Align4(n) % 4 == 0
            && (4 * b.len >= Align4(n) + 20 ==>
                  && |bs| == |s.blocks| + 1 && bs[i + 2..] == s.blocks[i + 1..]
                  && 4 * bs[i].len == Align4(n) && 4 * bs[i + 1].at == 4 * b.at + 16 + Align4(n)
                  && !bs[i + 1].used && 4 * bs[i + 1].len == 4 * b.len - Align4(n) - 16 >= 4)
            && (4 * b.len < Align4(n) + 20 ==>
                  |bs| == |s.blocks| && bs[i + 1..] == s.blocks[i + 1..] && bs[i].len == b.len)
  {
    AlignCovers(n);
    i := FirstFit(s.blocks, WordsFor(n));
    var bs, c := Allocate(s.blocks, i, WordsFor(n)), Carve(s.blocks[i], WordsFor(n));
    assert bs[..i] == s.blocks[..i] && bs[i] == c[0] && bs[i + |c|..] == s.blocks[i + 1..];
    assert |c| == 2 ==> bs[i + 1] == c[1];
  }

  /** Above 2^32 - 4 the rounding wraps to zero: an empty heap then answers a request for almost
      4 GB with a block of size 0 instead of NULL. */
  lemma HugeRequestGetsNothing(m: seq<u32>, n: u32, lo: nat, hi: nat)
    requires 0 < lo && lo + 9 <= hi < |m| <= TWO32 / 4 && n > TWO32 - 4
    ensures var o := MallocStep(Initial(m, lo, hi), n, lo, hi);
            o.ptr == 4 * (lo + 4) && o.after.blocks[0] == Block(lo, 0, true)
  {
    AlignCovers(n);
    var bs := Initial(m, lo, hi).blocks;
    assert Fits(bs[0], WordsFor(n));
    assert Allocate(bs, 0, 0)[0] == Carve(bs[0], 0)[0];
  }

  /** kzalloc answers like kmalloc, and every byte asked for is then zero. */
  lemma ZallocZeroes(s: HeapState, n: u32, lo: nat, hi: nat, a: nat)
    requires Inv(s, lo, hi) && Clearable(s.blocks, n)
    requires ZallocStep(s, n, lo, hi).ptr <= a < ZallocStep(s, n, lo, hi).ptr + n
    requires ZallocStep(s, n, lo, hi).ptr != 0
    ensures ZallocStep(s, n, lo, hi).ptr == MallocStep(s, n, lo, hi).ptr
    ensures a / 4 < |ZallocStep(s, n, lo, hi).after.mem|
    ensures ByteAt(ZallocStep(s, n, lo, hi).after.mem, a) == 0
  {
    MallocRoom(s, n, lo, hi);
    var o := MallocStep(s, n, lo, hi);
    ZeroBytesSpec(o.after.mem, o.ptr, n, a);
  }

  /** The loop of kzalloc stays inside the block it was given exactly when the request is Clearable. */
  lemma ZallocStaysInBlockIff(s: HeapState, n: u32, lo: nat, hi: nat)
    requires Inv(s, lo, hi)
    ensures var o := MallocStep(s, n, lo, hi);
            && Inv(o.after, lo, hi)
            && (Clearable(s.blocks, n) <==> o.ptr == 0 || (IsLive(o.after.blocks, o.ptr) &&
                                              n <= 4 * o.after.blocks[IndexOf(o.after.blocks, o.ptr)].len))
  {
    var o, i := MallocStep(s, n, lo, hi), FirstFit(s.blocks, WordsFor(n));
    MallocKeepsInv(s, n, lo, hi);
    AlignCovers(n);
    if o.ptr != 0 {
      MallocRoom(s, n, lo, hi);
      PtrNamesBlock(o.after, lo, hi, i);
    } else if n > TWO32 - 4 {
      assert forall b | b in s.blocks :: b.used;
    }
  }

  /** Otherwise it runs through the whole address space: every byte but at most the three before the
      pointer is cleared at some turn i, and so is every byte of every block's magic. */
  lemma ZallocOverrunClearsHeaders(s: HeapState, n: u32, lo: nat, hi: nat, j: nat, x: nat) returns (i: nat)
    requires Inv(s, lo, hi) && !Clearable(s.blocks, n) && j < |s.blocks| && x < 4
    ensures var p := MallocStep(s, n, lo, hi).ptr;
            p != 0 && i < n && Wrap(p + i) == 4 * s.blocks[j].at + x
  {
    var f := FirstFree(s, n, lo, hi);
    HeadersInOrder(s, lo, hi, f, j);
    i := Reaches(s.blocks[f].Ptr(), n, 4 * s.blocks[j].at + x);
  }

  /** Above 2^32 - 4 any free block will do for kmalloc. */
  lemma FirstFree(s: HeapState, n: u32, lo: nat, hi: nat) returns (f: nat)
    requires Inv(s, lo, hi) && !Clearable(s.blocks, n)
    ensures f < |s.blocks| && MallocStep(s, n, lo, hi).ptr == s.blocks[f].Ptr()
  {
    AlignCovers(n);
    var b :| b in s.blocks && !b.used;
    assert Fits(b, WordsFor(n));
    f := FirstFit(s.blocks, WordsFor(n));
  }

  lemma Reaches(p: nat, n: u32, a: nat) returns (i: nat)
    requires 3 <= p < TWO32 && a < TWO32 && n > TWO32 - 4 && (a + 3 < p || p <= a)
    ensures i < n && Wrap(p + i) == a
  {
    i := if a >= p then a - p else a - p + TWO32;
  }

  lemma HeadersInOrder(s: HeapState, lo: nat, hi: nat, i: nat, j: nat)
    requires Inv(s, lo, hi) && i < |s.blocks| && j < |s.blocks|
    ensures 4 * s.blocks[j].at + 3 < TWO32 && s.blocks[i].Ptr() < TWO32
    ensures 4 * s.blocks[j].at + 16 <= s.blocks[i].Ptr() || s.blocks[i].Ptr() <= 4 * s.blocks[j].at
  {
    TilesSplit(s.mem, lo, hi, hi, s.blocks, i);
    TilesSplit(s.mem, lo, hi, hi, s.blocks, j);
    if i < j { TilesDisjoint(s.mem, lo, hi, hi, s.blocks, i, j); }
    if j < i { TilesDisjoint(s.mem, lo, hi, hi, s.blocks, j, i); }
  }

  // ---- kmalloc then kfree ----------------------------------------------------------------

  /** Freeing what was just allocated restores the chain exactly when the block had been split or
      its successor is not free; otherwise the two are merged. */
  lemma FreeUndoesAllocate(bs: seq<Block>, i: nat, w: nat)
    requires i < |bs| && Fits(bs[i], w)
    ensures Allocate(bs, i, w)[i].used && Allocate(bs, i, w)[i].at == bs[i].at
    ensures Release(Allocate(bs, i, w), i) == bs <==> bs[i].len >= w + 5 || !FreeSuccessor(bs, i)
    ensures bs[i].len >= w + 5 || Release(Allocate(bs, i, w), i) == Release(bs, i)
  {
    var c := Allocate(bs, i, w);
    assert c[..i] == bs[..i];
    assert bs == bs[..i] + [bs[i]] + bs[i + 1..];
    if Splits(bs[i], w) {
      assert c[i + 2..] == bs[i + 1..];
      assert Release(c, i) == bs[..i] + [bs[i]] + bs[i + 1..];
    } else {
      assert c == bs[i := bs[i].(used := true)];
      assert AfterMerged(c, i) == AfterMerged(bs, i);
      if FreeSuccessor(bs, i) { assert |Release(c, i)| == |bs| - 1; }
    }
  }

  /** The pointer kmalloc returns names the block it took, and no other. */
  lemma PtrNamesBlock(s: HeapState, lo: nat, hi: nat, i: nat)
    requires Inv(s, lo, hi) && i < |s.blocks|
    ensures IndexOf(s.blocks, s.blocks[i].Ptr()) == i
  {
    var j := IndexOf(s.blocks, s.blocks[i].Ptr());
    assert s.blocks[i] in s.blocks;
    if j < i { TilesDisjoint(s.mem, lo, hi, hi, s.blocks, j, i); }
    if i < j { TilesDisjoint(s.mem, lo, hi, hi, s.blocks, i, j); }
  }

  /** kfree of NULL, or of a block that is free already, changes nothing: no block, no word, no count. */
  lemma FreeOfNullOrFreeIsNoOp(s: HeapState, lo: nat, hi: nat, i: nat)
    requires Inv(s, lo, hi)
    ensures FreeStep(s, 0, lo, hi) == s
    ensures i < |s.blocks| && !s.blocks[i].used ==> FreeStep(s, s.blocks[i].Ptr(), lo, hi) == s
  {
    if i < |s.blocks| { PtrNamesBlock(s, lo, hi, i); }
  }

  /** kfree of a block in use, in bytes: it becomes free, and a free block right after it is absorbed,
      header and payload. No other block changes, and heap_used shrinks by the size freed. */
  lemma FreeMerges(s: HeapState, lo: nat, hi: nat, i: nat)
    requires Inv(s, lo, hi) && i < |s.blocks| && s.blocks[i].used
    ensures var b, t := s.blocks[i], FreeStep(s, s.blocks[i].Ptr(), lo, hi);
            && i < |t.blocks| && t.blocks[..i] == s.blocks[..i] && t.used == s.used - 4 * b.len
            && t.blocks[i].at == b.at && !t.blocks[i].used
            && if i + 1 < |s.blocks| && !s.blocks[i + 1].used
               then 4 * t.blocks[i].len == 4 * b.len + 16 + 4 * s.blocks[i + 1].len &&
                    t.blocks[i + 1..] == s.blocks[i + 2..]
               else t.blocks[i].len == b.len && t.blocks[i + 1..] == s.blocks[i + 1..]
  {
    PtrNamesBlock(s, lo, hi, i);
    var r := Release(s.blocks, i);
    assert r[..i] == s.blocks[..i] && r[i] == Merged(s.blocks, i) && r[i + 1..] == AfterMerged(s.blocks, i);
  }

  /** kmalloc then kfree: heap_used is restored, the blocks in use are the same ones, and the
      chain is restored exactly when the block had been split or its successor is not free. */
  lemma MallocThenFree(s: HeapState, n: u32, lo: nat, hi: nat)
    requires Inv(s, lo, hi) && MallocStep(s, n, lo, hi).ptr != 0
    ensures var o := MallocStep(s, n, lo, hi);
            && Inv(o.after, lo, hi)
            && var t := FreeStep(o.after, o.ptr, lo, hi);
               var i := FirstFit(s.blocks, WordsFor(n));
               && t.used == s.used
               && (t.blocks == s.blocks <==> s.blocks[i].len >= WordsFor(n) + 5 || !FreeSuccessor(s.blocks, i))
               && (forall b: Block | b.used :: b in t.blocks <==> b in s.blocks)
  {
    MallocKeepsInv(s, n, lo, hi);
    var o, w := MallocStep(s, n, lo, hi), WordsFor(n);
    var i := FirstFit(s.blocks, w);
    MallocRoom(s, n, lo, hi);
    PtrNamesBlock(o.after, lo, hi, i);
    FreeUndoesAllocate(s.blocks, i, w);
    MergeKeepsUsed(s.blocks, i);
  }

  // ---- the heap as a set of live blocks ----------------------------------------------------

  ghost function LiveSet(bs: seq<Block>): set<Block> {
    set b | b in bs && b.used
  }

  /** kmalloc adds exactly one live block: the one at the pointer it returns. */
  lemma MallocAddsOne(s: HeapState, n: u32, lo: nat, hi: nat) returns (c: Block)
    requires Inv(s, lo, hi) && MallocStep(s, n, lo, hi).ptr != 0
    ensures var o := MallocStep(s, n, lo, hi);
            && c.Ptr() == o.ptr && c !in LiveSet(s.blocks)
            && LiveSet(o.after.blocks) == LiveSet(s.blocks) + {c}
            && o.after.used == s.used + 4 * c.len
  {
    var i, w := FirstFit(s.blocks, WordsFor(n)), WordsFor(n);
    c := Carve(s.blocks[i], w)[0];
    var t := Allocate(s.blocks, i, w);
    forall b: Block | b in s.blocks && b.used ensures b in t && b != c {
      InEitherHalf(s.blocks, b, i);
      LiveUnlikeOther(s, lo, hi, b, i);
    }
    assert t[i] == c;
  }

  /** kfree of a live pointer removes exactly the block at that pointer. */
  lemma FreeRemovesOne(s: HeapState, p: nat, lo: nat, hi: nat)
    requires Inv(s, lo, hi) && p != 0 && IsLive(s.blocks, p)
    ensures var c := s.blocks[IndexOf(s.blocks, p)];
            && c in LiveSet(s.blocks)
            && LiveSet(FreeStep(s, p, lo, hi).blocks) == LiveSet(s.blocks) - {c}
            && FreeStep(s, p, lo, hi).used == s.used - 4 * c.len
  {
    var i := IndexOf(s.blocks, p);
    MergeKeepsUsed(s.blocks, i);
    if s.blocks[i] in Release(s.blocks, i) {
      var r := Release(s.blocks, i);
      var j :| 0 <= j < |r| && r[j] == s.blocks[i];
      FreeKeepsInv(s, p, lo, hi);
      var t := FreeStep(s, p, lo, hi);
      assert r[i] == Merged(s.blocks, i);
      if j < i { TilesDisjoint(t.mem, lo, hi, hi, r, j, i); }
      if i < j { TilesDisjoint(t.mem, lo, hi, hi, r, i, j); }
    }
  }

  lemma ReleaseKeepsAFit(bs: seq<Block>, i: nat, f: nat, w: nat) returns (g: nat)
    requires i < |bs| && bs[i].used && f < |bs| && Fits(bs[f], w)
    ensures g < |Release(bs, i)| && Fits(Release(bs, i)[g], w)
  {
    if f < i { return f; }
    g := if f == i + 1 then i else if FreeSuccessor(bs, i) then f - 1 else f;
  }

  /** A request that would succeed before a kfree still succeeds after it. */
  lemma FreeKeepsRequestsSatisfiable(s: HeapState, p: nat, n: u32, lo: nat, hi: nat)
    requires Inv(s, lo, hi) && MallocStep(s, n, lo, hi).ptr != 0
    ensures Inv(FreeStep(s, p, lo, hi), lo, hi) && MallocStep(FreeStep(s, p, lo, hi), n, lo, hi).ptr != 0
  {
    FreeKeepsInv(s, p, lo, hi);
    var i := IndexOf(s.blocks, p);
    if p != 0 && i < |s.blocks| && s.blocks[i].used {
      var g := ReleaseKeepsAFit(s.blocks, i, FirstFit(s.blocks, WordsFor(n)), WordsFor(n));
    }
  }

  // ---- coalescing is forward only ----------------------------------------------------------

  ghost predicate NoTwoFreeNeighbours(bs: seq<Block>) {
    forall i | 0 <= i < |bs| - 1 :: bs[i].used || bs[i + 1].used
  }

  /** kernel/mm/heap.h says kfree coalesces adjacent free blocks. From a chain without two free
      neighbours it leaves one exactly when the block before the freed one is not free. */
  lemma FreeCoalescesIffPredecessorUsed(bs: seq<Block>, i: nat)
    requires i < |bs| && bs[i].used && NoTwoFreeNeighbours(bs)
    ensures NoTwoFreeNeighbours(Release(bs, i)) <==> i == 0 || bs[i - 1].used
  {
    var r := Release(bs, i);
    var d := if FreeSuccessor(bs, i) then 1 else 0;
    assert forall j | 0 <= j < i :: r[j] == bs[j];
    assert forall j | i < j < |r| :: r[j] == bs[j + d];
    if i > 0 && !bs[i - 1].used {
      assert !r[i - 1].used && !r[i - 1 + 1].used;
    } else {
      forall j | 0 <= j < |r| - 1 ensures r[j].used || r[j + 1].used {
        if j + 1 < i { assert bs[j].used || bs[j + 1].used; }
        if j >= i { assert bs[j + d].used || bs[j + d + 1].used; }
      }
    }
  }

  lemma FirstFitIs(bs: seq<Block>, w: nat, i: nat)
    requires i < |bs| && Fits(bs[i], w) && forall j | 0 <= j < i :: bs[j].used
    ensures FirstFit(bs, w) == i
  {
  }

  /** kmalloc on a chain of blocks in use before one free block large enough to split. */
  lemma MallocSplitsLast(s: HeapState, n: u32, lo: nat, hi: nat)
    requires Inv(s, lo, hi) && 0 < n <= TWO32 - 4 && s.blocks != []
    requires (forall j | 0 <= j < |s.blocks| - 1 :: s.blocks[j].used) && !s.blocks[|s.blocks| - 1].used
    requires 4 * s.blocks[|s.blocks| - 1].len >= Align4(n) + 20
    ensures var o, k, b := MallocStep(s, n, lo, hi), |s.blocks| - 1, s.blocks[|s.blocks| - 1];
            && Inv(o.after, lo, hi) && o.ptr == b.Ptr() && o.after.blocks == s.blocks[..k] + Carve(b, WordsFor(n))
  {
    FirstFitIs(s.blocks, WordsFor(n), |s.blocks| - 1);
    MallocKeepsInv(s, n, lo, hi);
    assert s.blocks[|s.blocks| - 1 + 1..] == [];
  }

  lemma FreeAt(s: HeapState, lo: nat, hi: nat, i: nat)
    requires Inv(s, lo, hi) && i < |s.blocks| && s.blocks[i].used
    ensures var p := s.blocks[i].Ptr();
            && p != 0 && p < TWO32 && Freeable(s, p)
            && Inv(FreeStep(s, p, lo, hi), lo, hi) && FreeStep(s, p, lo, hi).blocks == Release(s.blocks, i)
  {
    PtrNamesBlock(s, lo, hi, i);
    SuccessorFacts(s.mem, lo, hi, s.blocks, i);
    FreeKeepsInv(s, s.blocks[i].Ptr(), lo, hi);
  }

  /** Freeing two neighbours in address order, from heap_init: kmalloc(x), kmalloc(y), kfree of the
      first, kfree of the second. Two adjacent free blocks are left, for all sizes that fit. */
  lemma FreeingUpwardsLeavesAGap(m: seq<u32>, lo: nat, hi: nat, x: u32, y: u32)
    requires 0 < lo && hi < |m| <= TWO32 / 4 && 0 < x <= TWO32 - 4 && 0 < y <= TWO32 - 4
    requires lo + 17 + WordsFor(x) + WordsFor(y) <= hi
    ensures var p, q := 4 * (lo + 4), 4 * (lo + 8 + WordsFor(x));
            var s, ops := Initial(m, lo, hi), [Malloc(x), Malloc(y), Free(p), Free(q)];
            && Legal(s, ops, lo, hi)
            && var t := Run(s, ops, lo, hi);
               |t.blocks| == 2 && !t.blocks[0].used && !t.blocks[1].used && t.blocks[0].End() == t.blocks[1].at
  {
    var p, q := 4 * (lo + 4), 4 * (lo + 8 + WordsFor(x));
    var s := Initial(m, lo, hi);
    MallocSplitsLast(s, x, lo, hi);
    var s1 := MallocStep(s, x, lo, hi).after;
    var b := Block(lo + 4 + WordsFor(x), hi - lo - 8 - WordsFor(x), false);
    assert s1.blocks == [Block(lo, WordsFor(x), true), b];
    MallocSplitsLast(s1, y, lo, hi);
    var s2 := MallocStep(s1, y, lo, hi).after;
    assert s2.blocks == [Block(lo, WordsFor(x), true)] + Carve(b, WordsFor(y));
    FreeAt(s2, lo, hi, 0);
    var s3 := FreeStep(s2, p, lo, hi);
    FreeAt(s3, lo, hi, 1);
    var s4 := FreeStep(s3, q, lo, hi);
    RunOfFour(s, Malloc(x), Malloc(y), Free(p), Free(q), lo, hi);
  }

  lemma RunOfFour(s: HeapState, a: Op, b: Op, c: Op, d: Op, lo: nat, hi: nat)
    requires Inv(s, lo, hi) && Enabled(s, a)
    requires var s1 := Step(s, a, lo, hi).after;
             && Inv(s1, lo, hi) && Enabled(s1, b)
             && var s2 := Step(s1, b, lo, hi).after;
                && Inv(s2, lo, hi) && Enabled(s2, c)
                && var s3 := Step(s2, c, lo, hi).after;
                   Inv(s3, lo, hi) && Enabled(s3, d)
    ensures Legal(s, [a, b, c, d], lo, hi)
    ensures var s1 := Step(s, a, lo, hi).after;
            var s2 := Step(s1, b, lo, hi).after;
            var s3 := Step(s2, c, lo, hi).after;
            Run(s, [a, b, c, d], lo, hi) == Step(s3, d, lo, hi).after
  {
    var s1 := Step(s, a, lo, hi).after;
    var s2 := Step(s1, b, lo, hi).after;
    var s3 := Step(s2, c, lo, hi).after;
    StepKeepsInv(s3, d, lo, hi);
    RunOfMore(s3, d, [], lo, hi);
    RunOfMore(s2, c, [d], lo, hi);
    RunOfMore(s1, b, [c, d], lo, hi);
    RunOfMore(s, a, [b, c, d], lo, hi);
    assert [a] + [b, c, d] == [a, b, c, d] && [b] + [c, d] == [b, c, d] && [c] + [d] == [c, d] && [d] + [] == [d];
  }

  lemma RunOfMore(s: HeapState, op: Op, ops: seq<Op>, lo: nat, hi: nat)
    requires Inv(s, lo, hi) && Enabled(s, op)
    requires Inv(Step(s, op, lo, hi).after, lo, hi) && Legal(Step(s, op, lo, hi).after, ops, lo, hi)
    ensures Legal(s, [op] + ops, lo, hi) && Run(s, [op] + ops, lo, hi) == Run(Step(s, op, lo, hi).after, ops, lo, hi)
  {
    assert ([op] + ops)[1..] == ops;
  }
}

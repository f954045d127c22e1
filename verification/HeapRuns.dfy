/** Runs of kmalloc, kzalloc, kfree and client stores over raw memory: what every step keeps. */
module HeapRuns {
  import opened Words
  import opened HeapModel

  // ---- one header update keeps the tiling ---------------------------------------------

  lemma LowAfterSet(w: u32, v: u8)
    ensures SetLow(w, v) % 0x100 == v && SetLow(w, v) / 0x100 == w / 0x100
  {
  }

  lemma OneTile(m: seq<u32>, b: Block, end: nat)
    requires b.End() <= end <= |m| && HeaderIs(m, b, NextPtr(b, end))
    ensures Tiles(m, b.at, b.End(), end, [b])
  {
    assert Tiles(m, b.End(), b.End(), end, []);
  }

  /** Replacing the blocks of [y, z) by others that tile it too keeps the whole tiling, when no
      word outside [y, z) changes. */
  lemma TilesPatch(m: seq<u32>, m': seq<u32>, a: nat, y: nat, z: nat, end: nat,
                   xs: seq<Block>, ys: seq<Block>, zs: seq<Block>)
    requires Tiles(m, a, y, end, xs) && Tiles(m, z, end, end, zs) && |m'| == |m|
    requires forall k | 0 <= k < |m| && !(y <= k < z) :: m'[k] == m[k]
    requires Tiles(m', y, z, end, ys)
    ensures Tiles(m', a, end, end, xs + ys + zs)
  {
    TilesFrame(m, m', a, y, end, xs);
    TilesFrame(m, m', z, end, end, zs);
    TilesJoin(m', a, y, z, end, xs, ys);
    TilesJoin(m', a, z, end, end, xs + ys, zs);
  }

  /** After a split, the words at the two headers are those of the two resulting blocks. */
  lemma SplitHeaders(m: seq<u32>, b: Block, w: nat, end: nat)
    requires Splits(b, w) && 0 < b.at && b.End() <= end <= |m| <= TWO32 / 4
    requires HeaderIs(m, b, NextPtr(b, end))
    ensures HeaderIs(CarveWords(m, b, w), Carve(b, w)[0], NextPtr(Carve(b, w)[0], end))
    ensures HeaderIs(CarveWords(m, b, w), Carve(b, w)[1], NextPtr(Carve(b, w)[1], end))
  {
    var h, g := b.at, b.at + 4 + w;
    var m1 := PutHeader(m, g, 4 * (b.len - w - 4), 0, m[h + 3]);
    LowAfterSet(m[g + 2], 0);
    var m2 := m1[h + 1 := 4 * w][h + 3 := 4 * g];
    LowAfterSet(m2[h + 2], 1);
  }

  lemma CarveMiddle(m: seq<u32>, b: Block, w: nat, end: nat)
    requires Fits(b, w) && 0 < b.at && b.End() <= end <= |m| <= TWO32 / 4
    requires HeaderIs(m, b, NextPtr(b, end))
    ensures Tiles(CarveWords(m, b, w), b.at, b.End(), end, Carve(b, w))
  {
    var r, c := CarveWords(m, b, w), Carve(b, w);
    if Splits(b, w) {
      SplitHeaders(m, b, w, end);
      OneTile(r, c[0], end);
      OneTile(r, c[1], end);
      TilesJoin(r, b.at, c[1].at, b.End(), end, [c[0]], [c[1]]);
    } else {
      LowAfterSet(m[b.at + 2], 1);
      OneTile(r, c[0], end);
    }
  }

  /** Handing out the first fit keeps the whole region tiled, header by header. */
  lemma AllocateTiles(m: seq<u32>, a: nat, end: nat, bs: seq<Block>, i: nat, w: nat)
    requires Tiles(m, a, end, end, bs) && 0 < a && |m| <= TWO32 / 4
    requires i < |bs| && Fits(bs[i], w)
    ensures 0 < bs[i].at && bs[i].End() <= |m|
    ensures Tiles(CarveWords(m, bs[i], w), a, end, end, Allocate(bs, i, w))
  {
    var b := bs[i];
    TilesSplit(m, a, end, end, bs, i);
    var r := CarveWords(m, b, w);
    CarveMiddle(m, b, w, end);
    TilesPatch(m, r, a, b.at, b.End(), end, bs[..i], Carve(b, w), bs[i + 1..]);
  }

  /** Block `i` and its successor lie next to each other inside the region. */
  lemma SuccessorFacts(m: seq<u32>, a: nat, end: nat, bs: seq<Block>, i: nat)
    requires Tiles(m, a, end, end, bs) && 0 < a && |m| <= TWO32 / 4 && i < |bs|
    ensures 0 < bs[i].at && bs[i].End() <= end && HeaderIs(m, bs[i], NextPtr(bs[i], end))
    ensures i + 1 == |bs| ==> NextPtr(bs[i], end) == 0
    ensures i + 1 < |bs| ==>
              && bs[i + 1].at == bs[i].End() && bs[i + 1].End() <= end
              && NextPtr(bs[i], end) == 4 * bs[i + 1].at
              && HeaderIs(m, bs[i + 1], NextPtr(bs[i + 1], end))
    ensures FreeSuccessor(bs, i) ==> 4 * Merged(bs, i).len < TWO32
  {
    TilesSplit(m, a, end, end, bs, i);
    if i + 1 < |bs| { TilesSplit(m, a, end, end, bs, i + 1); }
  }

  /** The words kfree leaves at the freed header; it stores nowhere else. */
  lemma ReleaseHeader(m: seq<u32>, a: nat, end: nat, bs: seq<Block>, i: nat)
    requires Tiles(m, a, end, end, bs) && 0 < a && |m| <= TWO32 / 4 && i < |bs|
    requires bs[i].at + 3 < |m|
    requires FreeSuccessor(bs, i) ==> bs[i + 1].at + 3 < |m| && 4 * Merged(bs, i).len < TWO32
    ensures HeaderIs(ReleaseWords(m, bs, i), Merged(bs, i), NextPtr(Merged(bs, i), end))
    ensures forall k | 0 <= k < |m| && !(bs[i].at < k < bs[i].Body()) :: ReleaseWords(m, bs, i)[k] == m[k]
  {
    SuccessorFacts(m, a, end, bs, i);
    LowAfterSet(m[bs[i].at + 2], 0);
  }

  /** What kfree leaves after the freed block still tiles the rest of the region. */
  lemma ReleaseTail(m: seq<u32>, a: nat, end: nat, bs: seq<Block>, i: nat)
    requires Tiles(m, a, end, end, bs) && 0 < a && |m| <= TWO32 / 4 && i < |bs|
    ensures Merged(bs, i).End() <= end
    ensures Tiles(m, Merged(bs, i).End(), end, end, AfterMerged(bs, i))
  {
    SuccessorFacts(m, a, end, bs, i);
    TilesSplit(m, a, end, end, bs, if FreeSuccessor(bs, i) then i + 1 else i);
  }

  /** Freeing, with or without a merge, keeps the whole region tiled. */
  lemma ReleaseTiles(m: seq<u32>, a: nat, end: nat, bs: seq<Block>, i: nat)
    requires Tiles(m, a, end, end, bs) && 0 < a && |m| <= TWO32 / 4 && i < |bs|
    requires bs[i].at + 3 < |m|
    requires FreeSuccessor(bs, i) ==> bs[i + 1].at + 3 < |m| && 4 * Merged(bs, i).len < TWO32
    ensures Tiles(ReleaseWords(m, bs, i), a, end, end, Release(bs, i))
  {
    var r, c, rest := ReleaseWords(m, bs, i), Merged(bs, i), AfterMerged(bs, i);
    ReleaseHeader(m, a, end, bs, i);
    ReleaseTail(m, a, end, bs, i);
    TilesSplit(m, a, end, end, bs, i);
    OneTile(r, c, end);
    TilesPatch(m, r, a, c.at, c.End(), end, bs[..i], [c], rest);
  }

  // ---- accounting of one step -----------------------------------------------------------

  lemma UsedBytesAround(xs: seq<Block>, ys: seq<Block>, zs: seq<Block>)
    ensures UsedBytes(xs + ys + zs) == UsedBytes(xs) + UsedBytes(ys) + UsedBytes(zs)
  {
    UsedBytesAppend(xs + ys, zs);
    UsedBytesAppend(xs, ys);
  }

  /** heap_used grows by exactly the size of the block handed out. */
  lemma AllocateUsed(bs: seq<Block>, i: nat, w: nat)
    requires i < |bs| && Fits(bs[i], w)
    ensures UsedBytes(Allocate(bs, i, w)) == UsedBytes(bs) + 4 * Carve(bs[i], w)[0].len
  {
    assert bs == bs[..i] + [bs[i]] + bs[i + 1..];
    UsedBytesAround(bs[..i], [bs[i]], bs[i + 1..]);
    UsedBytesAround(bs[..i], Carve(bs[i], w), bs[i + 1..]);
    assert UsedBytes(Carve(bs[i], w)[1..]) == 0;
  }

  /** heap_used shrinks by exactly the size of the block freed. */
  lemma ReleaseUsed(bs: seq<Block>, i: nat)
    requires i < |bs| && bs[i].used
    ensures UsedBytes(Release(bs, i)) == UsedBytes(bs) - 4 * bs[i].len
  {
    assert bs == bs[..i] + [bs[i]] + bs[i + 1..];
    UsedBytesAround(bs[..i], [bs[i]], bs[i + 1..]);
    UsedBytesAround(bs[..i], [Merged(bs, i)], AfterMerged(bs, i));
    if FreeSuccessor(bs, i) { assert bs[i + 1..][1..] == bs[i + 2..]; }
  }

  // ---- zeroing --------------------------------------------------------------------------

  function ByteAt(m: seq<u32>, a: nat): u8
    requires a / 4 < |m|
  {
    Lane(m[a / 4], a % 4)
  }

  /** The byte-by-byte clearing loop of kzalloc. */
  function ZeroBytes(m: seq<u32>, p: nat, n: nat): (r: seq<u32>)
    requires p + n <= 4 * |m|
    ensures |r| == |m|
  {
    if n == 0 then m else
      var r := ZeroBytes(m, p, n - 1);
      var a := p + n - 1;
      r[a / 4 := ClearLane(r[a / 4], a % 4)]
  }

  /** Exactly the bytes [p, p + n) are cleared; every other byte keeps its value. */
  lemma {:induction false} ZeroBytesSpec(m: seq<u32>, p: nat, n: nat, a: nat)
    requires p + n <= 4 * |m| && a < 4 * |m|
    ensures ByteAt(ZeroBytes(m, p, n), a) == if p <= a < p + n then 0 else ByteAt(m, a)
  {
    if n > 0 {
      ZeroBytesSpec(m, p, n - 1, a);
      var c := p + n - 1;
      if a / 4 == c / 4 {
        assert a == c <==> a % 4 == c % 4;
      }
    }
  }

  lemma {:induction false} ZeroBytesFrame(m: seq<u32>, p: nat, n: nat, k: nat)
    requires p + n <= 4 * |m| && k < |m| && (4 * k + 3 < p || p + n <= 4 * k)
    ensures ZeroBytes(m, p, n)[k] == m[k]
  {
    if n > 0 { ZeroBytesFrame(m, p, n - 1, k); }
  }

  // ---- states, operations, runs ----------------------------------------------------------

  datatype HeapState = HeapState(mem: seq<u32>, blocks: seq<Block>, used: nat)

  /** Store is a client writing word `k` of the payload at pointer `p`. */
  datatype Op = Malloc(n: u32) | Zalloc(n: u32) | Free(p: u32) | Store(p: u32, k: nat, v: u32)

  datatype Outcome = Outcome(after: HeapState, ptr: nat)

  /** The heap occupies the words [lo, hi); its chain, read from memory, tiles them all and
      heap_used is the total size of the blocks in use. */
  ghost predicate Inv(s: HeapState, lo: nat, hi: nat) {
    && 0 < lo < hi < TWO32 / 4 && hi <= |s.mem| <= TWO32 / 4
    && Tiles(s.mem, lo, hi, hi, s.blocks)
    && s.used == UsedBytes(s.blocks)
  }

  predicate IsLive(bs: seq<Block>, p: nat) {
    var i := IndexOf(bs, p);
    i < |bs| && bs[i].used
  }

  /** The words before `p` look like the header of a block in use. */
  predicate LooksLive(m: seq<u32>, p: nat)
    requires p % 4 == 0 && 16 <= p <= 4 * |m|
  {
    m[p / 4 - 4] == MAGIC && m[p / 4 - 2] % 0x100 != 0
  }

  /** What kfree's caller owes: NULL, a pointer to a block of the chain (in use or already
      freed), or one before which there is no header of a block in use. */
  predicate Freeable(s: HeapState, p: nat) {
    || p == 0
    || IndexOf(s.blocks, p) < |s.blocks|
    || (p % 4 == 0 && 16 <= p <= 4 * |s.mem| && !LooksLive(s.mem, p))
  }

  /** kzalloc may be asked for n bytes: the rounding does not wrap, or there is no free block. */
  predicate Clearable(bs: seq<Block>, n: u32) {
    n <= TWO32 - 4 || forall b | b in bs :: b.used
  }

  predicate Enabled(s: HeapState, op: Op) {
    match op
    case Malloc(n) => true
    case Zalloc(n) => Clearable(s.blocks, n)
    case Free(p) => Freeable(s, p)
    case Store(p, k, v) => IsLive(s.blocks, p) && k < s.blocks[IndexOf(s.blocks, p)].len
  }

  ghost function MallocStep(s: HeapState, n: u32, lo: nat, hi: nat): (o: Outcome)
    requires Inv(s, lo, hi)
  {
    var w := WordsFor(n);
    var i := FirstFit(s.blocks, w);
    if n == 0 || i == |s.blocks| then Outcome(s, 0) else
      AllocateTiles(s.mem, lo, hi, s.blocks, i, w);
      var b := s.blocks[i];
      Outcome(HeapState(CarveWords(s.mem, b, w), Allocate(s.blocks, i, w), s.used + 4 * Carve(b, w)[0].len), b.Ptr())
  }

  ghost function ZallocStep(s: HeapState, n: u32, lo: nat, hi: nat): (o: Outcome)
    requires Inv(s, lo, hi) && Clearable(s.blocks, n)
  {
    var o := MallocStep(s, n, lo, hi);
    if o.ptr == 0 then o else
      MallocRoom(s, n, lo, hi);
      o.(after := o.after.(mem := ZeroBytes(o.after.mem, o.ptr, n)))
  }

  ghost function FreeStep(s: HeapState, p: nat, lo: nat, hi: nat): (o: HeapState)
    requires Inv(s, lo, hi)
  {
    var i := IndexOf(s.blocks, p);
    if p == 0 || i == |s.blocks| || !s.blocks[i].used then s else
      SuccessorFacts(s.mem, lo, hi, s.blocks, i);
      ReleaseUsed(s.blocks, i);
      HeapState(ReleaseWords(s.mem, s.blocks, i), Release(s.blocks, i), s.used - 4 * s.blocks[i].len)
  }

  ghost function Step(s: HeapState, op: Op, lo: nat, hi: nat): (o: Outcome)
    requires Inv(s, lo, hi) && Enabled(s, op)
  {
    match op
    case Malloc(n) => MallocStep(s, n, lo, hi)
    case Zalloc(n) => ZallocStep(s, n, lo, hi)
    case Free(p) => Outcome(FreeStep(s, p, lo, hi), 0)
    case Store(p, k, v) =>
      var i := IndexOf(s.blocks, p);
      SuccessorFacts(s.mem, lo, hi, s.blocks, i);
      Outcome(s.(mem := s.mem[s.blocks[i].Body() + k := v]), 0)
  }

  // ---- kmalloc --------------------------------------------------------------------------

  /** The rounded request covers the request exactly when n + 3 does not wrap. */
  lemma AlignCovers(n: u32)
    ensures 4 * WordsFor(n) == Align4(n)
    ensures n <= Align4(n) <==> n <= TWO32 - 4
    ensures n <= TWO32 - 4 ==> Align4(n) < n + 4
    ensures n > TWO32 - 4 ==> Align4(n) == 0
  {
  }

  /** The block handed out holds the rounded request and wastes at most 16 bytes; it is the
      block at the returned pointer, in use, and lies inside the region. */
  lemma MallocRoom(s: HeapState, n: u32, lo: nat, hi: nat)
    requires Inv(s, lo, hi) && MallocStep(s, n, lo, hi).ptr != 0
    ensures var o := MallocStep(s, n, lo, hi);
            var i := FirstFit(s.blocks, WordsFor(n));
            && i < |s.blocks| && i < |o.after.blocks|
            && var c := o.after.blocks[i];
               && c.Ptr() == o.ptr && c.used && lo <= c.at && c.End() <= hi
               && WordsFor(n) <= c.len <= WordsFor(n) + 4
               && (n <= TWO32 - 4 ==> o.ptr + n <= 4 * c.End() <= 4 * |o.after.mem|)
               && |o.after.mem| == |s.mem|
  {
    var i, w := FirstFit(s.blocks, WordsFor(n)), WordsFor(n);
    AllocateTiles(s.mem, lo, hi, s.blocks, i, w);
    TilesSplit(s.mem, lo, hi, hi, s.blocks, i);
    AlignCovers(n);
    assert Allocate(s.blocks, i, w)[i] == Carve(s.blocks[i], w)[0];
  }
}

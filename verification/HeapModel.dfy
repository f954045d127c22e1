/** The chain of block headers that kernel/mm/heap.c keeps inside the memory it manages, and
    the effect of each allocator operation on it, as functions on values. Memory is a
    sequence of words. Block positions and lengths are counted in words (every header and
    payload is word aligned); the header fields hold bytes, as in the source. */
module HeapModel {
  import opened Words

  const MAGIC: u32 := 0xC0FFEE42

  /** One block: the word index of its four-word header, its payload length, its used flag. */
  datatype Block = Block(at: nat, len: nat, used: bool) {
    function Body(): nat { at + 4 }
    function End(): nat { at + 4 + len }
    /** The pointer handed to clients. */
    function Ptr(): nat { 4 * (at + 4) }
  }

  // ---- reading the chain out of raw memory -------------------------------------------

  /** The `next` field a block must hold: the following header, or NULL for the last block. */
  function NextPtr(b: Block, end: nat): nat {
    if b.End() == end then 0 else 4 * b.End()
  }

  /** The four words at b.at are the header of `b`, pointing to `next`. */
  ghost predicate HeaderIs(m: seq<u32>, b: Block, next: nat) {
    && b.at + 3 < |m|
    && m[b.at] == MAGIC && m[b.at + 1] == 4 * b.len
    && (m[b.at + 2] % 0x100 != 0) == b.used && m[b.at + 3] == next
  }

  /** The headers found in memory from word `a` on are those of `bs`, and the blocks tile
      [a, z) without gap or overlap. */
  ghost predicate Tiles(m: seq<u32>, a: nat, z: nat, end: nat, bs: seq<Block>)
    decreases |bs|
  {
    && a <= z <= end <= |m|
    && if bs == [] then a == z else
         var b := bs[0];
         b.at == a && b.End() <= z && HeaderIs(m, b, NextPtr(b, end)) && Tiles(m, b.End(), z, end, bs[1..])
  }

  lemma {:induction false} TilesJoin(m: seq<u32>, a: nat, y: nat, z: nat, end: nat, xs: seq<Block>, ys: seq<Block>)
    requires Tiles(m, a, y, end, xs) && Tiles(m, y, z, end, ys)
    ensures Tiles(m, a, z, end, xs + ys)
    decreases |xs|
  {
    if xs == [] {
      assert xs + ys == ys;
    } else {
      TilesJoin(m, xs[0].End(), y, z, end, xs[1..], ys);
      assert (xs + ys)[1..] == xs[1..] + ys;
    }
  }

  /** A tiling can be cut before and after any of its blocks. */
  lemma {:induction false} TilesSplit(m: seq<u32>, a: nat, z: nat, end: nat, bs: seq<Block>, i: nat)
    requires Tiles(m, a, z, end, bs) && i < |bs|
    ensures a <= bs[i].at && Tiles(m, a, bs[i].at, end, bs[..i])
    ensures HeaderIs(m, bs[i], NextPtr(bs[i], end))
    ensures bs[i].End() <= z && Tiles(m, bs[i].End(), z, end, bs[i + 1..])
    decreases |bs|
  {
    if i > 0 {
      TilesSplit(m, bs[0].End(), z, end, bs[1..], i - 1);
      assert bs[1..][..i - 1] == bs[..i][1..];
      assert bs[1..][i..] == bs[i + 1..];
    }
  }

  /** A tiling of [a, z) depends on no word outside [a, z). */
  lemma {:induction false} TilesFrame(m: seq<u32>, m': seq<u32>, a: nat, z: nat, end: nat, bs: seq<Block>)
    requires Tiles(m, a, z, end, bs) && |m'| == |m|
    requires forall k | a <= k < z :: m'[k] == m[k]
    ensures Tiles(m', a, z, end, bs)
    decreases |bs|
  {
    if bs != [] { TilesFrame(m, m', bs[0].End(), z, end, bs[1..]); }
  }

  /** Memory determines the chain: two tilings read from the same words are the same. */
  lemma {:induction false} TilesUnique(m: seq<u32>, a: nat, end: nat, xs: seq<Block>, ys: seq<Block>)
    requires Tiles(m, a, end, end, xs) && Tiles(m, a, end, end, ys)
    ensures xs == ys
    decreases |xs|
  {
    if xs != [] && ys != [] {
      assert xs[0] == ys[0];
      TilesUnique(m, xs[0].End(), end, xs[1..], ys[1..]);
      assert xs == [xs[0]] + xs[1..] && ys == [ys[0]] + ys[1..];
    }
  }

  /** Distinct blocks of a tiling do not overlap, and appear in address order. */
  lemma {:induction false} TilesDisjoint(m: seq<u32>, a: nat, z: nat, end: nat, bs: seq<Block>, i: nat, j: nat)
    requires Tiles(m, a, z, end, bs) && i < j < |bs|
    ensures bs[i].End() <= bs[j].at
  {
    TilesSplit(m, a, z, end, bs, i);
    TilesSplit(m, bs[i].End(), z, end, bs[i + 1..], j - i - 1);
  }

  // ---- accounting ---------------------------------------------------------------------

  /** Bytes in blocks that are in use. */
  function UsedBytes(bs: seq<Block>): nat {
    if bs == [] then 0 else (if bs[0].used then 4 * bs[0].len else 0) + UsedBytes(bs[1..])
  }

  /** Words taken by headers and payloads together. */
  function Extent(bs: seq<Block>): nat {
    if bs == [] then 0 else 4 + bs[0].len + Extent(bs[1..])
  }

  lemma {:induction false} UsedBytesAppend(xs: seq<Block>, ys: seq<Block>)
    ensures UsedBytes(xs + ys) == UsedBytes(xs) + UsedBytes(ys)
  {
    if xs == [] {
      assert xs + ys == ys;
    } else {
      assert (xs + ys)[1..] == xs[1..] + ys;
      UsedBytesAppend(xs[1..], ys);
    }
  }

  /** Nothing is lost: headers and payloads always add up to the whole region, and the bytes
      in use stay at least one header below it. */
  lemma {:induction false} ExtentIsRegion(m: seq<u32>, a: nat, z: nat, end: nat, bs: seq<Block>)
    requires Tiles(m, a, z, end, bs)
    ensures Extent(bs) == z - a
    ensures UsedBytes(bs) + 16 * |bs| <= 4 * (z - a)
    decreases |bs|
  {
    if bs != [] { ExtentIsRegion(m, bs[0].End(), z, end, bs[1..]); }
  }

  // ---- first fit, splitting, coalescing ----------------------------------------------

  /** ALIGN4 on uint32_t, wrap-around included. */
  function Align4(n: u32): u32 {
    Wrap(n + 3) / 4 * 4
  }

  /** The words an n-byte request asks for after rounding. */
  function WordsFor(n: u32): nat {
    Align4(n) / 4
  }

  predicate Fits(b: Block, w: nat) {
    !b.used && w <= b.len
  }

  /** Index of the lowest block that fits, or |bs| when none does. */
  function FirstFit(bs: seq<Block>, w: nat): (i: nat)
    ensures i <= |bs|
    ensures i < |bs| ==> Fits(bs[i], w)
    ensures forall j | 0 <= j < i :: !Fits(bs[j], w)
  {
    if bs == [] then 0 else if Fits(bs[0], w) then 0 else 1 + FirstFit(bs[1..], w)
  }

  /** Room for the request, another header and one more word. */
  predicate Splits(b: Block, w: nat) {
    w + 5 <= b.len
  }

  /** What a free block becomes when `w` words of it are handed out. */
  function Carve(b: Block, w: nat): seq<Block> {
    if Splits(b, w) then [Block(b.at, w, true), Block(b.at + 4 + w, b.len - w - 4, false)]
    else [b.(used := true)]
  }

  function Allocate(bs: seq<Block>, i: nat, w: nat): seq<Block>
    requires i < |bs|
  {
    bs[..i] + Carve(bs[i], w) + bs[i + 1..]
  }

  predicate FreeSuccessor(bs: seq<Block>, i: nat) {
    i + 1 < |bs| && !bs[i + 1].used
  }

  /** The block that kfree leaves at position `i`, and the blocks it leaves after it. */
  function Merged(bs: seq<Block>, i: nat): Block
    requires i < |bs|
  {
    if FreeSuccessor(bs, i) then Block(bs[i].at, bs[i].len + 4 + bs[i + 1].len, false)
    else bs[i].(used := false)
  }

  function AfterMerged(bs: seq<Block>, i: nat): seq<Block>
    requires i < |bs|
  {
    if FreeSuccessor(bs, i) then bs[i + 2..] else bs[i + 1..]
  }

  function Release(bs: seq<Block>, i: nat): seq<Block>
    requires i < |bs|
  {
    bs[..i] + [Merged(bs, i)] + AfterMerged(bs, i)
  }

  /** Index of the block handed out as pointer `p`, or |bs|. */
  function IndexOf(bs: seq<Block>, p: nat): (i: nat)
    ensures i <= |bs|
    ensures i < |bs| ==> bs[i].Ptr() == p
    ensures i == |bs| ==> forall b | b in bs :: b.Ptr() != p
  {
    if bs == [] then 0 else if bs[0].Ptr() == p then 0 else 1 + IndexOf(bs[1..], p)
  }

  // ---- the same operations on raw words ------------------------------------------------

  function PutHeader(m: seq<u32>, h: nat, size: u32, used: u8, next: u32): (r: seq<u32>)
    requires h + 3 < |m|
    ensures |r| == |m|
  {
    m[h := MAGIC][h + 1 := size][h + 2 := SetLow(m[h + 2], used)][h + 3 := next]
  }

  function SetUsed(m: seq<u32>, h: nat, used: u8): (r: seq<u32>)
    requires h + 2 < |m|
    ensures |r| == |m|
  {
    m[h + 2 := SetLow(m[h + 2], used)]
  }

  /** The header stores made when `w` words of block `b` are handed out. */
  function CarveWords(m: seq<u32>, b: Block, w: nat): (r: seq<u32>)
    requires b.End() <= |m| <= TWO32 / 4 && 0 < b.at
    ensures |r| == |m|
    ensures forall k | 0 <= k < |m| && !(b.at < k < b.End()) :: r[k] == m[k]
  {
    if Splits(b, w) then
      var s := b.at + 4 + w;
      var m1 := PutHeader(m, s, 4 * (b.len - w - 4), 0, m[b.at + 3]);
      SetUsed(m1[b.at + 1 := 4 * w][b.at + 3 := 4 * s], b.at, 1)
    else SetUsed(m, b.at, 1)
  }

  /** The header stores made when block `i` is freed and its successor perhaps absorbed. */
  function ReleaseWords(m: seq<u32>, bs: seq<Block>, i: nat): (r: seq<u32>)
    requires i < |bs| && bs[i].at + 3 < |m|
    requires FreeSuccessor(bs, i) ==> bs[i + 1].at + 3 < |m| && 4 * Merged(bs, i).len < TWO32
    ensures |r| == |m|
  {
    var m1 := SetUsed(m, bs[i].at, 0);
    if FreeSuccessor(bs, i)
    then m1[bs[i].at + 1 := 4 * Merged(bs, i).len][bs[i].at + 3 := m1[bs[i + 1].at + 3]]
    else m1
  }
}

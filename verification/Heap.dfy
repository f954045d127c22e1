/** kernel/mm/heap.c itself: globals and raw memory changed in place. */
module Heap {
  import opened Words
  import opened HeapModel
  import opened HeapRuns
  import opened HeapTheorems

  const NULL: u32 := 0

  class Heap {
    const mem: array<u32>
    const start: u32
    const end: u32
    var head: u32
    var used: u32
    ghost var blocks: seq<Block>

    ghost function State(): HeapState
      reads this, mem
    {
      HeapState(mem[..], blocks, used)
    }

    ghost function Lo(): nat { start / 4 }
    ghost function Hi(): nat { end / 4 }

    ghost predicate Valid()
      reads this, mem
    {
      && start % 4 == 0 && end % 4 == 0 && head == start
      && Inv(State(), Lo(), Hi())
    }

    constructor Init(memory: array<u32>, start: u32, size: u32)
      requires memory.Length == TWO32 / 4
      requires 0 < start && start % 4 == 0 && size % 4 == 0 && 16 <= size && start + size < TWO32
      modifies memory
      ensures Valid() && mem == memory && this.start == start && end == start + size
      ensures State() == Initial(old(memory[..]), start / 4, (start + size) / 4)
    {
      mem := memory;
      this.start := start;
      end := start + size;
      used := 0;
      head := start;
      blocks := [Block(start / 4, (start + size) / 4 - start / 4 - 4, false)];
      new;
      var h := head / 4;
      mem[h] := MAGIC;
      mem[h + 1] := size - 16;
      mem[h + 2] := SetLow(mem[h + 2], 0);
      mem[h + 3] := 0;
      assert State() == Initial(old(memory[..]), start / 4, end / 4);
    }

    /** The list walk of kmalloc, along the `next` fields found in memory: the header of the
        first block that fits, or 0. */
    method Search(size: u32, ghost w: nat) returns (blk: u32)
      requires Valid() && size == 4 * w
      ensures FirstFit(blocks, w) == |blocks| ==> blk == 0
      ensures FirstFit(blocks, w) < |blocks| ==> blk == 4 * blocks[FirstFit(blocks, w)].at > 0
    {
      blk := head;
      ghost var i := 0;
      while blk != 0
        invariant i <= |blocks| && blk == (if i == |blocks| then 0 else 4 * blocks[i].at)
        invariant forall j | 0 <= j < i :: !Fits(blocks[j], w)
        decreases |blocks| - i
      {
        HeaderFacts(i);
        var h := blk / 4;
        if mem[h] != MAGIC { return NULL; }
        if mem[h + 2] % 0x100 == 0 && mem[h + 1] >= size { return; }
        blk := mem[h + 3];
        i := i + 1;
      }
      if i < |blocks| { HeaderFacts(i); }
    }

    /** The header words at block `i` of the chain. */
    lemma HeaderFacts(i: nat)
      requires Valid() && i < |blocks|
      ensures var h := blocks[i].at;
              && 0 < h && blocks[i].End() <= mem.Length
              && mem[h] == MAGIC && mem[h + 1] == 4 * blocks[i].len
              && (mem[h + 2] % 0x100 != 0) == blocks[i].used
              && mem[h + 3] == if i + 1 == |blocks| then 0 else 4 * blocks[i + 1].at
    {
      var h := blocks[i].at;
      SuccessorFacts(mem[..], Lo(), Hi(), blocks, i);
      assert forall k | h <= k < h + 4 :: mem[..][k] == mem[k];
    }

    /** The split of kmalloc: a new free header behind the requested words. */
    method SplitBlock(h: nat, size: u32, ghost b: Block, ghost w: nat)
      requires size == 4 * w && h == b.at > 0 && Splits(b, w) && b.End() <= mem.Length <= TWO32 / 4
      requires mem[h + 1] == 4 * b.len
      modifies mem
      ensures mem[..] == PutHeader(old(mem[..]), h + 4 + w, 4 * (b.len - w - 4), 0, old(mem[h + 3]))
                           [h + 1 := 4 * w][h + 3 := 4 * (h + 4 + w)]
    {
      var g := (4 * h + 16 + size) / 4;
      mem[g] := MAGIC;
      mem[g + 1] := mem[h + 1] - size - 16;
      mem[g + 2] := SetLow(mem[g + 2], 0);
      mem[g + 3] := mem[h + 3];
      mem[h + 1] := size;
      mem[h + 3] := 4 * g;
    }

    /** The stores kmalloc makes once it has found a block. */
    method TakeBlock(blk: u32, size: u32, ghost b: Block, ghost w: nat) returns (p: u32)
      requires size == 4 * w && blk == 4 * b.at && Fits(b, w)
      requires 0 < b.at && b.End() <= mem.Length <= TWO32 / 4 && 4 * b.End() < TWO32
      requires mem[b.at + 1] == 4 * b.len
      requires used + 4 * b.len < TWO32 && size + 20 < TWO32
      modifies this`used, mem
      ensures mem[..] == CarveWords(old(mem[..]), b, w)
      ensures used == old(used) + 4 * Carve(b, w)[0].len
      ensures p == b.Ptr()
    {
      var h := blk / 4;
      assert Wrap(size + 20) == size + 20;
      if mem[h + 1] >= Wrap(size + 20) {
        assert Splits(b, w);
        SplitBlock(h, size, b, w);
      }
      assert mem[h + 1] == 4 * Carve(b, w)[0].len;
      MarkUsed(h);
      used := Wrap(used + mem[h + 1]);
      p := blk + 16;
    }

    method MarkUsed(h: nat)
      requires h + 2 < mem.Length
      modifies mem
      ensures mem[..] == SetUsed(old(mem[..]), h, 1) && mem[h + 1] == old(mem[h + 1])
    {
      mem[h + 2] := SetLow(mem[h + 2], 1);
    }

    /** kmalloc does what first fit on the chain says, for every request. */
    method Kmalloc(n: u32) returns (p: u32)
      requires Valid()
      modifies this`used, this`blocks, mem
      ensures Valid()
      ensures Outcome(State(), p) == MallocStep(old(State()), n, Lo(), Hi())
    {
      if n == 0 { return 0; }
      var size := Align4(n);
      AlignCovers(n);
      MallocKeepsInv(State(), n, Lo(), Hi());
      var blk := Search(size, WordsFor(n));
      if blk == 0 { return 0; }
      ghost var i := FirstFit(blocks, WordsFor(n));
      RoomInRegion(State(), i, Lo(), Hi());
      HeaderFacts(i);
      p := TakeBlock(blk, size, blocks[i], WordsFor(n));
      blocks := Allocate(blocks, i, WordsFor(n));
    }

    /** kzalloc: kmalloc, then the byte loop. */
    method Kzalloc(n: u32) returns (p: u32)
      requires Valid() && Clearable(blocks, n)
      modifies this`used, this`blocks, mem
      ensures Valid()
      ensures Outcome(State(), p) == ZallocStep(old(State()), n, Lo(), Hi())
    {
      ZallocKeepsInv(State(), n, Lo(), Hi());
      ghost var s := State();
      p := Kmalloc(n);
      if p != 0 {
        MallocRoom(s, n, Lo(), Hi());
        ClearBytes(p, n);
      }
    }

    method ClearBytes(p: u32, n: u32)
      requires p + n <= 4 * mem.Length
      modifies mem
      ensures mem[..] == ZeroBytes(old(mem[..]), p, n)
    {
      for i := 0 to n
        invariant mem[..] == ZeroBytes(old(mem[..]), p, i)
      {
        var a := p + i;
        ghost var m := mem[..];
        mem[a / 4] := ClearLane(mem[a / 4], a % 4);
        assert mem[..] == m[a / 4 := ClearLane(m[a / 4], a % 4)];
      }
    }

    /** The two header tests of kfree pass exactly for a block in use. */
    lemma FreeTests(p: u32)
      requires Valid() && p != 0 && Freeable(State(), p)
      ensures 16 <= p <= 4 * mem.Length && p % 4 == 0
      ensures mem[p / 4 - 4] == MAGIC && mem[p / 4 - 2] % 0x100 != 0 <==> IsLive(blocks, p)
      ensures IsLive(blocks, p) ==> p / 4 - 4 == blocks[IndexOf(blocks, p)].at
    {
      var i := IndexOf(blocks, p);
      if i < |blocks| { HeaderFacts(i); } else { assert !LooksLive(mem[..], p); }
    }

    /** What FreeHeader needs to know about block `i` and its successor. */
    lemma BeforeFree(i: nat)
      requires Valid() && i < |blocks| && blocks[i].used
      ensures 4 * blocks[i].len <= used
      ensures i + 1 < |blocks| ==> blocks[i + 1].at == blocks[i].End()
      ensures FreeSuccessor(blocks, i) ==> 4 * Merged(blocks, i).len < TWO32
    {
      SuccessorFacts(mem[..], Lo(), Hi(), blocks, i);
      ReleaseUsed(blocks, i);
    }

    /** kfree, for every pointer a caller may pass. */
    method Kfree(p: u32)
      requires Valid() && Freeable(State(), p)
      modifies this`used, this`blocks, mem
      ensures Valid()
      ensures State() == FreeStep(old(State()), p, Lo(), Hi())
    {
      if p == 0 { return; }
      FreeTests(p);
      var h := (p - 16) / 4;
      if mem[h] != MAGIC { return; }
      if mem[h + 2] % 0x100 == 0 { return; }
      FreeLive(p, h, IndexOf(blocks, p));
    }

    method FreeLive(p: u32, h: nat, ghost i: nat)
      requires Valid() && p != 0 && i == IndexOf(blocks, p) && i < |blocks| && blocks[i].used && h == blocks[i].at
      modifies this`used, this`blocks, mem
      ensures Valid()
      ensures State() == FreeStep(old(State()), p, Lo(), Hi())
    {
      FreeKeepsInv(State(), p, Lo(), Hi());
      BeforeFree(i);
      HeaderFacts(i);
      if i + 1 < |blocks| { HeaderFacts(i + 1); }
      FreeHeader(h, blocks, i);
      blocks := Release(blocks, i);
    }

    /** The stores of kfree on a block in use: flag, then size and next when it absorbs its
        successor. */
    method FreeHeader(h: nat, ghost bs: seq<Block>, ghost i: nat)
      requires i < |bs| && h == bs[i].at && h + 3 < mem.Length
      requires mem[h + 1] == 4 * bs[i].len <= used
      requires mem[h + 3] == if i + 1 == |bs| then 0 else 4 * bs[i + 1].at
      requires i + 1 < |bs| ==>
                 var g := bs[i + 1].at;
                 && h + 4 <= g && g + 3 < mem.Length && mem[g + 1] == 4 * bs[i + 1].len
                 && (mem[g + 2] % 0x100 != 0) == bs[i + 1].used
      requires FreeSuccessor(bs, i) ==> 4 * Merged(bs, i).len < TWO32
      modifies this`used, mem
      ensures mem[..] == ReleaseWords(old(mem[..]), bs, i)
      ensures used == old(used) - 4 * bs[i].len
    {
      used := Wrap(used - mem[h + 1]);
      ClearUsed(h);
      var next := mem[h + 3];
      if next != 0 && mem[next / 4 + 2] % 0x100 == 0 {
        assert next / 4 == bs[i + 1].at && FreeSuccessor(bs, i);
        Absorb(h, next / 4);
      }
    }

    method ClearUsed(h: nat)
      requires h + 2 < mem.Length
      modifies mem
      ensures mem[..] == SetUsed(old(mem[..]), h, 0)
    {
      mem[h + 2] := SetLow(mem[h + 2], 0);
    }

    /** The merge of kfree: the header at h takes in the block whose header is at g. */
    method Absorb(h: nat, g: nat)
      requires h + 4 <= g && g + 3 < mem.Length && mem[h + 1] + 16 + mem[g + 1] < TWO32
      modifies mem
      ensures mem[..] == old(mem[..])[h + 1 := old(mem[h + 1]) + 16 + old(mem[g + 1])][h + 3 := old(mem[g + 3])]
    {
      mem[h + 1] := Wrap(mem[h + 1] + 16 + mem[g + 1]);
      mem[h + 3] := mem[g + 3];
    }

    /** A client storing into its own block. */
    method StoreWord(p: u32, k: nat, v: u32)
      requires Valid() && Enabled(State(), Store(p, k, v))
      modifies mem
      ensures Valid()
      ensures State() == Step(old(State()), Store(p, k, v), Lo(), Hi()).after
    {
      StepKeepsInv(State(), Store(p, k, v), Lo(), Hi());
      SuccessorFacts(mem[..], Lo(), Hi(), blocks, IndexOf(blocks, p));
      mem[p / 4 + k] := v;
    }
  }

  /** Adding a whole free block to heap_used cannot overflow 32 bits. */
  lemma RoomInRegion(s: HeapState, i: nat, lo: nat, hi: nat)
    requires Inv(s, lo, hi) && i < |s.blocks| && !s.blocks[i].used
    ensures 0 < s.blocks[i].at && s.blocks[i].End() <= |s.mem| && 4 * s.blocks[i].End() < TWO32
    ensures s.used + 4 * s.blocks[i].len < TWO32 && 4 * s.blocks[i].len + 20 < TWO32
  {
    AllocateTiles(s.mem, lo, hi, s.blocks, i, s.blocks[i].len);
    AllocateUsed(s.blocks, i, s.blocks[i].len);
    var t := Allocate(s.blocks, i, s.blocks[i].len);
    ExtentIsRegion(CarveWords(s.mem, s.blocks[i], s.blocks[i].len), lo, hi, hi, t);
    TilesSplit(s.mem, lo, hi, hi, s.blocks, i);
  }
}

/** kernel/proc/process.c: PCBs and kernel stacks taken from the heap, and the stack frames that
    make the first switch to a new process land where it should. */
module Process {
  import opened Words
  import opened HeapModel
  import opened HeapRuns
  import opened HeapTheorems
  import opened ContextSwitch
  import Threads
  import opened Heap

  const PCB_BYTES: u32 := 416          // sizeof(process_t): 8 words and 32 descriptors of 3 words
  const STACK_BYTES: u32 := 8192       // KERNEL_STACK_SIZE
  const STACK_WORDS: nat := 2048
  const READY: u32 := 0

  // ---- stretches of memory that the heap will not touch -----------------------------------

  ghost predicate InPayload(b: Block, a: nat, n: nat) {
    b.Body() == a && a + n <= b.End()
  }

  /** The words [a, a + n) lie outside the heap or are the first n words of a live payload. */
  ghost predicate Kept(h: HeapState, lo: nat, hi: nat, a: nat, n: nat) {
    || a + n <= lo || hi <= a
    || exists b: Block {:trigger InPayload(b, a, n)} :: b in h.blocks && b.used && InPayload(b, a, n)
  }

  lemma HoldsItself(h: HeapState, lo: nat, hi: nat, b: Block)
    requires Inv(h, lo, hi) && b in h.blocks && b.used
    ensures b.End() <= |h.mem| && Holds(h, b, h.mem[b.Body()..b.End()])
  {
    var i :| 0 <= i < |h.blocks| && h.blocks[i] == b;
    TilesSplit(h.mem, lo, hi, hi, h.blocks, i);
  }

  /** A block that still holds its payload keeps the stretch at its start. */
  lemma HoldsKeeps(h: HeapState, g: HeapState, lo: nat, hi: nat, b: Block, a: nat, w: nat)
    requires InPayload(b, a, w) && b.End() <= |h.mem| == |g.mem| && Holds(g, b, h.mem[b.Body()..b.End()])
    ensures Kept(g, lo, hi, a, w) && forall k | a <= k < a + w :: g.mem[k] == h.mem[k]
  {
    forall k | a <= k < a + w ensures g.mem[k] == h.mem[k] {
      assert g.mem[b.Body()..b.End()][k - b.Body()] == h.mem[b.Body()..b.End()][k - b.Body()];
    }
  }

  /** kzalloc stores only inside the region. */
  lemma ZallocStaysInside(h: HeapState, n: u32, lo: nat, hi: nat, k: nat)
    requires Inv(h, lo, hi) && n <= TWO32 - 4 && k < |h.mem| && (k < lo || hi <= k)
    ensures |ZallocStep(h, n, lo, hi).after.mem| == |h.mem|
    ensures ZallocStep(h, n, lo, hi).after.mem[k] == h.mem[k]
  {
    var o := MallocStep(h, n, lo, hi);
    if o.ptr != 0 {
      MallocRoom(h, n, lo, hi);
      var i := FirstFit(h.blocks, WordsFor(n));
      AllocateTiles(h.mem, lo, hi, h.blocks, i, WordsFor(n));
      TilesSplit(h.mem, lo, hi, hi, h.blocks, i);
      ZeroBytesFrame(o.after.mem, o.ptr, n, k);
    }
  }

  /** kzalloc changes no word of a kept stretch, and what it hands out lies apart from it. */
  lemma ZallocKeeps(h: HeapState, n: u32, lo: nat, hi: nat, a: nat, w: nat)
    requires Inv(h, lo, hi) && n <= TWO32 - 4 && Kept(h, lo, hi, a, w) && a + w <= |h.mem|
    ensures var o := ZallocStep(h, n, lo, hi);
            && |o.after.mem| == |h.mem| && Kept(o.after, lo, hi, a, w)
            && (forall k | a <= k < a + w :: o.after.mem[k] == h.mem[k])
            && (o.ptr != 0 ==> Threads.Apart(a, w, o.ptr / 4, WordsFor(n)))
  {
    var o := ZallocStep(h, n, lo, hi);
    if o.ptr != 0 { MallocRoom(h, n, lo, hi); }
    if a + w <= lo || hi <= a {
      forall k | a <= k < a + w ensures o.after.mem[k] == h.mem[k] {
        ZallocStaysInside(h, n, lo, hi, k);
      }
    } else {
      var b: Block :| b in h.blocks && b.used && InPayload(b, a, w);
      HoldsItself(h, lo, hi, b);
      ZallocIsolates(h, n, lo, hi, b, h.mem[b.Body()..b.End()]);
      HoldsKeeps(h, o.after, lo, hi, b, a, w);
      if o.ptr != 0 { FreshIsApart(h, n, lo, hi, b); }
    }
  }

  /** kfree stores only inside the region. */
  lemma FreeStaysInside(h: HeapState, p: nat, lo: nat, hi: nat)
    requires Inv(h, lo, hi)
    ensures var o := FreeStep(h, p, lo, hi);
            |o.mem| == |h.mem| && forall k | 0 <= k < |h.mem| && (k < lo || hi <= k) :: o.mem[k] == h.mem[k]
  {
    var i := IndexOf(h.blocks, p);
    if p != 0 && i < |h.blocks| && h.blocks[i].used {
      SuccessorFacts(h.mem, lo, hi, h.blocks, i);
      ReleaseHeader(h.mem, lo, hi, h.blocks, i);
      TilesSplit(h.mem, lo, hi, hi, h.blocks, i);
    }
  }

  /** kfree of another pointer changes no word of a kept stretch. */
  lemma FreeKeeps(h: HeapState, p: nat, lo: nat, hi: nat, a: nat, w: nat)
    requires Inv(h, lo, hi) && Kept(h, lo, hi, a, w) && a + w <= |h.mem| && (p != 4 * a || a + w <= lo || hi <= a)
    ensures var o := FreeStep(h, p, lo, hi);
            && |o.mem| == |h.mem| && Kept(o, lo, hi, a, w)
            && (forall k | a <= k < a + w :: o.mem[k] == h.mem[k])
  {
    var o := FreeStep(h, p, lo, hi);
    FreeStaysInside(h, p, lo, hi);
    if !(a + w <= lo || hi <= a) {
      var b: Block :| b in h.blocks && b.used && InPayload(b, a, w);
      HoldsItself(h, lo, hi, b);
      FreeIsolates(h, p, lo, hi, b, h.mem[b.Body()..b.End()]);
      HoldsKeeps(h, o, lo, hi, b, a, w);
    }
  }

  lemma FreshIsApart(h: HeapState, n: u32, lo: nat, hi: nat, b: Block)
    requires Inv(h, lo, hi) && n <= TWO32 - 4 && b in h.blocks && b.used
    requires MallocStep(h, n, lo, hi).ptr != 0
    ensures var p := MallocStep(h, n, lo, hi).ptr / 4; p + WordsFor(n) <= b.at || b.End() <= p
  {
    MallocRoom(h, n, lo, hi);
    LiveUnlikeOther(h, lo, hi, b, FirstFit(h.blocks, WordsFor(n)));
  }

  /** What kzalloc hands out is itself a kept stretch from then on. */
  lemma ZallocGives(h: HeapState, n: u32, lo: nat, hi: nat)
    requires Inv(h, lo, hi) && n <= TWO32 - 4 && ZallocStep(h, n, lo, hi).ptr != 0
    ensures var o := ZallocStep(h, n, lo, hi);
            && o.ptr % 4 == 0 && o.ptr / 4 + WordsFor(n) <= |h.mem| && 4 * (o.ptr / 4 + WordsFor(n)) < TWO32
            && lo < o.ptr / 4 && o.ptr / 4 + WordsFor(n) <= hi
            && |o.after.mem| == |h.mem|
            && Kept(o.after, lo, hi, o.ptr / 4, WordsFor(n))
            && IsLive(o.after.blocks, o.ptr)
  {
    var o := ZallocStep(h, n, lo, hi);
    MallocRoom(h, n, lo, hi);
    MallocKeepsInv(h, n, lo, hi);
    var i := FirstFit(h.blocks, WordsFor(n));
    assert InPayload(o.after.blocks[i], o.ptr / 4, WordsFor(n));
    PtrNamesBlock(MallocStep(h, n, lo, hi).after, lo, hi, i);
  }

  // ---- initial frames ---------------------------------------------------------------------

  /** Words pushed by process_create, first pushed first. */
  function KthreadFrame(entry: u32, labels: Labels): seq<u32> {
    [entry, labels.kthreadEntry, 0, 0, 0, 0]
  }

  /** Words pushed by process_create_user. */
  function UserFrame(entry: u32, userEsp: u32, labels: Labels): seq<u32> {
    [0x23, userEsp, 0x202, 0x1B, entry, labels.iretTrampoline, 0, 0, 0, 0]
  }

  /** Memory after pushing `ws` onto a stack whose top is word `top`. */
  function Pushed(m: seq<u32>, top: nat, ws: seq<u32>): (r: seq<u32>)
    requires |ws| <= top <= |m|
    ensures |r| == |m|
  {
    seq(|m|, k requires 0 <= k < |m| => if top - |ws| <= k < top then ws[top - 1 - k] else m[k])
  }

  predicate Placed(m: seq<u32>, t: nat, base: nat) {
    && t + Threads.PCB_WORDS <= |m| && base + STACK_WORDS <= |m| && base + STACK_WORDS < TWO32 / 4
    && Threads.Apart(t, Threads.PCB_WORDS, base, STACK_WORDS)
  }

  /** Memory after the fields of the PCB at `t` are set, all but esp. */
  function Fields(m: seq<u32>, t: nat, base: nat, pid: u32, dir: u32): (r: seq<u32>)
    requires Placed(m, t, base)
    ensures |r| == |m|
  {
    m[t + 3 := 4 * base][t := pid][t + 4 := dir][t + 5 := READY][t + 2 := 4 * (base + STACK_WORDS)]
  }

  /** Memory after the PCB at `t` and the stack at `base` are set up. */
  function Fill(m: seq<u32>, t: nat, base: nat, pid: u32, dir: u32, ws: seq<u32>): (r: seq<u32>)
    requires Placed(m, t, base) && |ws| <= STACK_WORDS
    ensures |r| == |m|
  {
    var top := base + STACK_WORDS;
    Pushed(Fields(m, t, base, pid, dir), top, ws)[t + 1 := 4 * (top - |ws|)]
  }

  /** Outside the new PCB and stack nothing is written. */
  lemma FillFrame(m: seq<u32>, t: nat, base: nat, pid: u32, dir: u32, ws: seq<u32>, k: nat)
    requires Placed(m, t, base) && |ws| <= STACK_WORDS && k < |m|
    requires !(t <= k < t + Threads.PCB_WORDS) && !(base <= k < base + STACK_WORDS)
    ensures Fill(m, t, base, pid, dir, ws)[k] == m[k]
  {
  }

  lemma FillStack(m: seq<u32>, t: nat, base: nat, pid: u32, dir: u32, ws: seq<u32>, i: nat)
    requires Placed(m, t, base) && i < |ws| <= STACK_WORDS
    ensures Fill(m, t, base, pid, dir, ws)[base + STACK_WORDS - 1 - i] == ws[i]
  {
  }

  lemma FillPcb(m: seq<u32>, t: nat, base: nat, pid: u32, dir: u32, ws: seq<u32>)
    requires Placed(m, t, base) && |ws| <= STACK_WORDS
    ensures var r := Fill(m, t, base, pid, dir, ws);
            var top := base + STACK_WORDS;
            && r[t] == pid && r[t + 1] == 4 * (top - |ws|) && r[t + 2] == 4 * top
            && r[t + 3] == 4 * base && r[t + 4] == dir && r[t + 5] == READY
  {
  }

  /** A frame of at least five words leaves the process suspended with the top five as its context. */
  lemma FillSuspends(m: seq<u32>, t: nat, base: nat, pid: u32, dir: u32, ws: seq<u32>)
    requires Placed(m, t, base) && 5 <= |ws| <= STACK_WORDS
    ensures var r := Fill(m, t, base, pid, dir, ws);
            var n := |ws|;
            && Threads.Suspended(r, t, Threads.Stack(base, STACK_WORDS)) && Loadable(r, t)
            && Saved(r, t) == Context(ws[n - 1], ws[n - 2], ws[n - 3], ws[n - 4],
                                      4 * (base + STACK_WORDS - n + 5), ws[n - 5], dir)
  {
    FillPcb(m, t, base, pid, dir, ws);
    FillStack(m, t, base, pid, dir, ws, |ws| - 1);
    FillStack(m, t, base, pid, dir, ws, |ws| - 2);
    FillStack(m, t, base, pid, dir, ws, |ws| - 3);
    FillStack(m, t, base, pid, dir, ws, |ws| - 4);
    FillStack(m, t, base, pid, dir, ws, |ws| - 5);
  }

  // ---- creation ---------------------------------------------------------------------------

  /** The pointers to the new PCB and its stack (0 on failure). */
  datatype Created = Created(after: HeapState, pcb: nat, stack: nat, nextPid: u32)

  /** The two allocations: PCB and stack, both or neither. */
  datatype Pair = Pair(after: HeapState, pcb: nat, stack: nat)

  ghost function TakePair(h: HeapState, lo: nat, hi: nat): (a: Pair)
    requires Inv(h, lo, hi)
  {
    ZallocKeepsInv(h, PCB_BYTES, lo, hi);
    var o := ZallocStep(h, PCB_BYTES, lo, hi);
    if o.ptr == 0 then Pair(o.after, 0, 0) else
      var q := ZallocStep(o.after, STACK_BYTES, lo, hi);
      if q.ptr == 0 then Pair(FreeStep(o.after, o.ptr, lo, hi), 0, 0) else Pair(q.after, o.ptr, q.ptr)
  }

  ghost function Create(h: HeapState, lo: nat, hi: nat, pid: u32, dir: u32, ws: seq<u32>): (c: Created)
    requires Inv(h, lo, hi) && |ws| <= STACK_WORDS
  {
    var a := TakePair(h, lo, hi);
    if a.pcb == 0 then Created(a.after, 0, 0, pid) else
      PairPlaced(h, lo, hi);
      Created(a.after.(mem := Fill(a.after.mem, a.pcb / 4, a.stack / 4, pid, dir, ws)), a.pcb, a.stack, Wrap(pid + 1))
  }

  lemma PairPlaced(h: HeapState, lo: nat, hi: nat)
    requires Inv(h, lo, hi) && TakePair(h, lo, hi).pcb != 0
    ensures var a := TakePair(h, lo, hi);
            && Placed(a.after.mem, a.pcb / 4, a.stack / 4) && a.pcb % 4 == 0 && a.stack % 4 == 0 && 0 < a.stack
            && |a.after.mem| == |h.mem|
            && Kept(a.after, lo, hi, a.pcb / 4, Threads.PCB_WORDS) && Kept(a.after, lo, hi, a.stack / 4, STACK_WORDS)
            && lo < a.pcb / 4 && a.pcb / 4 + Threads.PCB_WORDS <= hi
            && lo < a.stack / 4 && a.stack / 4 + STACK_WORDS <= hi
  {
    ZallocKeepsInv(h, PCB_BYTES, lo, hi);
    TwoBlocks(h, lo, hi);
    assert WordsFor(PCB_BYTES) == Threads.PCB_WORDS && WordsFor(STACK_BYTES) == STACK_WORDS;
    ZallocGives(h, PCB_BYTES, lo, hi);
    ZallocGives(ZallocStep(h, PCB_BYTES, lo, hi).after, STACK_BYTES, lo, hi);
  }

  lemma TakePairKeepsInv(h: HeapState, lo: nat, hi: nat)
    requires Inv(h, lo, hi)
    ensures Inv(TakePair(h, lo, hi).after, lo, hi)
  {
    ZallocKeepsInv(h, PCB_BYTES, lo, hi);
    var o := ZallocStep(h, PCB_BYTES, lo, hi);
    if o.ptr != 0 {
      ZallocKeepsInv(o.after, STACK_BYTES, lo, hi);
      FreeKeepsInv(o.after, o.ptr, lo, hi);
    }
  }

  /** The PCB and the stack are two separate live stretches of the heap. */
  lemma TwoBlocks(h: HeapState, lo: nat, hi: nat)
    requires Inv(h, lo, hi) && ZallocStep(h, PCB_BYTES, lo, hi).ptr != 0
    requires Inv(ZallocStep(h, PCB_BYTES, lo, hi).after, lo, hi)
    requires ZallocStep(ZallocStep(h, PCB_BYTES, lo, hi).after, STACK_BYTES, lo, hi).ptr != 0
    ensures var o := ZallocStep(h, PCB_BYTES, lo, hi);
            var q := ZallocStep(o.after, STACK_BYTES, lo, hi);
            && Placed(q.after.mem, o.ptr / 4, q.ptr / 4) && |q.after.mem| == |h.mem|
            && Kept(q.after, lo, hi, o.ptr / 4, Threads.PCB_WORDS)
            && Kept(q.after, lo, hi, q.ptr / 4, STACK_WORDS)
            && o.ptr % 4 == 0 && q.ptr % 4 == 0
  {
    var o := ZallocStep(h, PCB_BYTES, lo, hi);
    assert WordsFor(PCB_BYTES) == Threads.PCB_WORDS && WordsFor(STACK_BYTES) == STACK_WORDS;
    ZallocGives(h, PCB_BYTES, lo, hi);
    ZallocGives(o.after, STACK_BYTES, lo, hi);
    ZallocKeeps(o.after, STACK_BYTES, lo, hi, o.ptr / 4, Threads.PCB_WORDS);
  }

  /** Stores into one kept stretch of the heap leave the heap as it is. */
  lemma WriteKeepsInv(h: HeapState, m': seq<u32>, lo: nat, hi: nat, a: nat, n: nat)
    requires Inv(h, lo, hi) && lo < a && a + n <= hi && 0 < n && Kept(h, lo, hi, a, n) && |m'| == |h.mem|
    requires forall k | 0 <= k < |m'| && !(a <= k < a + n) :: m'[k] == h.mem[k]
    ensures Inv(h.(mem := m'), lo, hi)
  {
    var b: Block :| b in h.blocks && b.used && InPayload(b, a, n);
    var i :| 0 <= i < |h.blocks| && h.blocks[i] == b;
    PayloadWritesKeepTiles(h.mem, m', lo, hi, h.blocks, i);
  }

  lemma FillKeepsInv(h: HeapState, lo: nat, hi: nat, t: nat, base: nat, pid: u32, dir: u32, ws: seq<u32>)
    requires Inv(h, lo, hi) && Placed(h.mem, t, base) && |ws| <= STACK_WORDS
    requires lo < t && t + Threads.PCB_WORDS <= hi && lo < base && base + STACK_WORDS <= hi
    requires Kept(h, lo, hi, t, Threads.PCB_WORDS) && Kept(h, lo, hi, base, STACK_WORDS)
    ensures Inv(h.(mem := Fill(h.mem, t, base, pid, dir, ws)), lo, hi)
  {
    var m, r := h.mem, Fill(h.mem, t, base, pid, dir, ws);
    var mid: seq<u32> := seq(|m|, k requires 0 <= k < |m| => if t <= k < t + Threads.PCB_WORDS then r[k] else m[k]);
    WriteKeepsInv(h, mid, lo, hi, t, Threads.PCB_WORDS);
    forall k | 0 <= k < |m| && !(base <= k < base + STACK_WORDS) ensures r[k] == mid[k] {
      if !(t <= k < t + Threads.PCB_WORDS) { FillFrame(m, t, base, pid, dir, ws, k); }
    }
    WriteKeepsInv(h.(mem := mid), r, lo, hi, base, STACK_WORDS);
  }

  /** process_create keeps the heap intact, whether it succeeds or not. */
  lemma CreateKeepsInv(h: HeapState, lo: nat, hi: nat, pid: u32, dir: u32, ws: seq<u32>)
    requires Inv(h, lo, hi) && |ws| <= STACK_WORDS
    ensures Inv(Create(h, lo, hi, pid, dir, ws).after, lo, hi)
  {
    TakePairKeepsInv(h, lo, hi);
    var a := TakePair(h, lo, hi);
    if a.pcb != 0 {
      PairPlaced(h, lo, hi);
      FillKeepsInv(a.after, lo, hi, a.pcb / 4, a.stack / 4, pid, dir, ws);
    }
  }

  // ---- a new process in memory ----------------------------------------------------------------

  ghost predicate ZeroIn(m: seq<u32>, a: nat, n: nat) {
    a + n <= |m| && forall k | a <= k < a + n :: m[k] == 0
  }

  lemma ZeroWord(m: seq<u32>, p: nat, n: nat, k: nat)
    requires p + n <= 4 * |m| && p <= 4 * k && 4 * k + 4 <= p + n
    ensures ZeroBytes(m, p, n)[k] == 0
  {
    ZeroBytesSpec(m, p, n, 4 * k);
    ZeroBytesSpec(m, p, n, 4 * k + 1);
    ZeroBytesSpec(m, p, n, 4 * k + 2);
    ZeroBytesSpec(m, p, n, 4 * k + 3);
    JoinOfLanes(ZeroBytes(m, p, n)[k]);
  }

  lemma ZeroWords(m: seq<u32>, p: nat, n: nat, r: seq<u32>)
    requires p + n <= 4 * |m| && p % 4 == 0 && n % 4 == 0 && r == ZeroBytes(m, p, n)
    ensures ZeroIn(r, p / 4, n / 4)
  {
    forall k: nat | p / 4 <= k < p / 4 + n / 4 ensures r[k] == 0 { ZeroWord(m, p, n, k); }
  }

  /** kzalloc of whole words leaves them zero. */
  lemma ZallocWords(h: HeapState, n: u32, lo: nat, hi: nat, z: Outcome)
    requires Inv(h, lo, hi) && n <= TWO32 - 4 && n % 4 == 0 && z == ZallocStep(h, n, lo, hi) && z.ptr != 0 && z.ptr % 4 == 0
    ensures ZeroIn(z.after.mem, z.ptr / 4, n / 4)
  {
    MallocRoom(h, n, lo, hi);
    ZeroWords(MallocStep(h, n, lo, hi).after.mem, z.ptr, n, z.after.mem);
  }

  /** Taking the stack of 8192 bytes leaves it zero, and the zeros of the PCB. */
  lemma StackAfterPcb(h: HeapState, lo: nat, hi: nat, t: nat, q: Outcome)
    requires Inv(h, lo, hi) && Kept(h, lo, hi, t, 104) && ZeroIn(h.mem, t, 104)
    requires q == ZallocStep(h, 8192, lo, hi) && q.ptr != 0
    ensures ZeroIn(q.after.mem, t, 104) && ZeroIn(q.after.mem, q.ptr / 4, 2048)
  {
    ZallocGives(h, 8192, lo, hi);
    ZallocWords(h, 8192, lo, hi, q);
    ZallocKeeps(h, 8192, lo, hi, t, 104);
  }

  lemma PcbTaken(h: HeapState, lo: nat, hi: nat, o: Outcome)
    requires Inv(h, lo, hi) && o == ZallocStep(h, 416, lo, hi) && o.ptr != 0
    ensures Inv(o.after, lo, hi) && Kept(o.after, lo, hi, o.ptr / 4, 104) && ZeroIn(o.after.mem, o.ptr / 4, 104)
  {
    ZallocKeepsInv(h, 416, lo, hi);
    assert WordsFor(416) == 104;
    ZallocGives(h, 416, lo, hi);
    ZallocWords(h, 416, lo, hi, o);
  }

  /** The PCB of 416 bytes and the stack of 8192 are all zeros before they are filled in. */
  lemma PairIsZero(h: HeapState, lo: nat, hi: nat)
    requires Inv(h, lo, hi) && TakePair(h, lo, hi).pcb != 0
    ensures var a := TakePair(h, lo, hi);
            ZeroIn(a.after.mem, a.pcb / 4, 104) && ZeroIn(a.after.mem, a.stack / 4, 2048)
  {
    var o := ZallocStep(h, 416, lo, hi);
    PcbTaken(h, lo, hi, o);
    StackAfterPcb(o.after, lo, hi, o.ptr / 4, ZallocStep(o.after, 8192, lo, hi));
  }

  /** The PCB at word t: pid, saved esp, stack top, stack and page directory; its state is 0, READY, and
      everything after it is 0 too: the exit code, the link and 32 closed descriptors. */
  ghost predicate PcbWords(m: seq<u32>, t: nat, pid: u32, esp: nat, top: nat, stack: nat, dir: u32) {
    && t + 104 <= |m|
    && m[t] == pid && m[t + 1] == esp && m[t + 2] == top && m[t + 3] == stack && m[t + 4] == dir
    && ZeroIn(m, t + 5, 99)
  }

  /** The 2048 words of stack from word `base` on: the pushed words at the top, first pushed highest, and
      zeros below. */
  ghost predicate StackWords(m: seq<u32>, base: nat, ws: seq<u32>)
    requires |ws| <= 2048
  {
    && base + 2048 <= |m| && ZeroIn(m, base, 2048 - |ws|)
    && forall i | 0 <= i < |ws| :: m[base + 2047 - i] == ws[i]
  }

  /** A new process in memory: its PCB and its stack, word for word; the two do not overlap, and the next
      process gets the next pid. */
  lemma CreatedInMemory(h: HeapState, lo: nat, hi: nat, pid: u32, dir: u32, ws: seq<u32>)
    requires Inv(h, lo, hi) && |ws| <= 2048 && Create(h, lo, hi, pid, dir, ws).pcb != 0
    ensures var c := Create(h, lo, hi, pid, dir, ws);
            var t, base := c.pcb / 4, c.stack / 4;
            && c.pcb % 4 == 0 && c.stack % 4 == 0 && c.nextPid == (pid + 1) % 0x1_0000_0000
            && PcbWords(c.after.mem, t, pid, c.stack + 8192 - 4 * |ws|, c.stack + 8192, c.stack, dir)
            && StackWords(c.after.mem, base, ws) && (t + 104 <= base || base + 2048 <= t)
  {
    PairIsZero(h, lo, hi);
    var a := TakePair(h, lo, hi);
    CreateUnfolds(h, lo, hi, pid, dir, ws, a, Create(h, lo, hi, pid, dir, ws));
    FilledWords(a.after.mem, a.pcb / 4, a.stack / 4, pid, dir, ws);
  }

  lemma FilledWords(m: seq<u32>, t: nat, base: nat, pid: u32, dir: u32, ws: seq<u32>)
    requires Placed(m, t, base) && |ws| <= 2048 && ZeroIn(m, t, 104) && ZeroIn(m, base, 2048)
    ensures var r := Fill(m, t, base, pid, dir, ws);
            && PcbWords(r, t, pid, 4 * base + 8192 - 4 * |ws|, 4 * base + 8192, 4 * base, dir)
            && StackWords(r, base, ws)
  {
    FillPcb(m, t, base, pid, dir, ws);
    forall i | 0 <= i < |ws| ensures Fill(m, t, base, pid, dir, ws)[base + 2047 - i] == ws[i] {
      FillStack(m, t, base, pid, dir, ws, i);
    }
  }

  /** process_create, word by word from the top of the stack down: the entry function, kthread_entry, and
      four zeros for ebp, edi, esi and ebx. */
  lemma KernelFrameWords(m: seq<u32>, base: nat, entry: u32, labels: Labels)
    requires StackWords(m, base, KthreadFrame(entry, labels))
    ensures m[base + 2047] == entry && m[base + 2046] == labels.kthreadEntry
    ensures m[base + 2045] == m[base + 2044] == m[base + 2043] == m[base + 2042] == 0
  {
    var ws := KthreadFrame(entry, labels);
    assert ws[0] == entry && ws[1] == labels.kthreadEntry && ws[2] == ws[3] == ws[4] == ws[5] == 0;
  }

  /** process_create_user, likewise: ss, esp, eflags, cs and eip for iret, the trampoline, four zeros. */
  lemma UserFrameWords(m: seq<u32>, base: nat, entry: u32, userEsp: u32, labels: Labels)
    requires StackWords(m, base, UserFrame(entry, userEsp, labels))
    ensures m[base + 2047] == 0x23 && m[base + 2046] == userEsp && m[base + 2045] == 0x202
    ensures m[base + 2044] == 0x1B && m[base + 2043] == entry && m[base + 2042] == labels.iretTrampoline
    ensures m[base + 2041] == m[base + 2040] == m[base + 2039] == m[base + 2038] == 0
  {
    var ws := UserFrame(entry, userEsp, labels);
    assert ws[0] == 0x23 && ws[1] == userEsp && ws[2] == 0x202 && ws[3] == 0x1B && ws[4] == entry;
    assert ws[5] == labels.iretTrampoline && ws[6] == ws[7] == ws[8] == ws[9] == 0;
  }

  // ---- where a new process lands ------------------------------------------------------------

  /** The initial frame is still there when the process first runs. */
  lemma FrameAtFirstRun(s: Threads.Sys, s': Threads.Sys, t: nat, base: nat, m: seq<u32>,
                        pid: u32, dir: u32, ws: seq<u32>)
    requires Threads.Untouched(s, s', t) && s.threads[t] == Threads.Stack(base, STACK_WORDS)
    requires Placed(m, t, base) && |ws| <= STACK_WORDS && s.m == Fill(m, t, base, pid, dir, ws)
    ensures |s'.m| == |m|
    ensures forall x | 0 <= x < |ws| :: s'.m[base + STACK_WORDS - 1 - x] == ws[x]
  {
    forall x | 0 <= x < |ws| ensures s'.m[base + STACK_WORDS - 1 - x] == ws[x] {
      FillStack(m, t, base, pid, dir, ws, x);
      assert Threads.Owns(t, s.threads[t], base + STACK_WORDS - 1 - x);
    }
  }

  /** iret on a stack that holds the user frame. */
  lemma IretOnUserFrame(r: Regs, m: seq<u32>, top: nat, entry: u32, userEsp: u32, labels: Labels)
    requires 10 <= top <= |m| && r.esp == 4 * (top - 5)
    requires forall x | 0 <= x < 10 :: m[top - 1 - x] == UserFrame(entry, userEsp, labels)[x]
    ensures AfterIret(r, m) == r.(eip := entry, cs := 0x1B, eflags := 0x202, esp := userEsp, ss := 0x23)
  {
    var ws := UserFrame(entry, userEsp, labels);
    assert m[top - 1 - 4] == ws[4] && m[top - 1 - 3] == ws[3] && m[top - 1 - 2] == ws[2];
    assert m[top - 1 - 1] == ws[1] && m[top - 1 - 0] == ws[0];
  }

  /** A process set up in the state of step i and not run since. */
  ghost predicate StartsAt(run: seq<Threads.Sys>, i: nat, j: nat, t: nat, base: nat, m: seq<u32>,
                           pid: u32, dir: u32, ws: seq<u32>) {
    && Threads.IsRun(run) && i <= j < |run| - 1 && run[j + 1].current == t
    && (forall x | i <= x <= j :: run[x].current != t) && (forall x | i <= x <= j + 1 :: t in run[x].threads)
    && Placed(m, t, base) && run[i].threads[t] == Threads.Stack(base, STACK_WORDS) && |ws| <= STACK_WORDS
    && run[i].m == Fill(m, t, base, pid, dir, ws)
  }

  lemma NewProcessLands(run: seq<Threads.Sys>, i: nat, j: nat, t: nat, base: nat, m: seq<u32>,
                        pid: u32, dir: u32, ws: seq<u32>)
    requires StartsAt(run, i, j, t, base, m, pid, dir, ws) && 5 <= |ws|
    ensures var s, n, top := run[j + 1], |ws|, base + STACK_WORDS;
            && Runs(s.r, Context(ws[n - 1], ws[n - 2], ws[n - 3], ws[n - 4], 4 * (top - n + 5), ws[n - 5], dir))
            && top <= |s.m| && forall x | 0 <= x < n :: s.m[top - 1 - x] == ws[x]
  {
    Threads.FirstRun(run, i, j, t);
    FillSuspends(m, t, base, pid, dir, ws);
    FrameAtFirstRun(run[i], run[j + 1], t, base, m, pid, dir, ws);
  }

  /** Over every run: a kernel thread created in the state of step i, when first switched to, is in
      kthread_entry with cleared registers and its own page directory; that code then enters
      `entry` with interrupts on and nothing but a return address on the stack. */
  lemma NewKernelThreadLands(run: seq<Threads.Sys>, i: nat, j: nat, t: nat, base: nat, m: seq<u32>,
                             pid: u32, dir: u32, entry: u32, labels: Labels)
    requires StartsAt(run, i, j, t, base, m, pid, dir, KthreadFrame(entry, labels))
    ensures var s, top := run[j + 1], base + STACK_WORDS;
            && Runs(s.r, Context(0, 0, 0, 0, 4 * (top - 1), labels.kthreadEntry, dir))
            && s.r.esp / 4 < |s.m|
            && var e := AfterKthreadEntry(s.r, s.m);
               e.eip == entry && InterruptsOn(e.eflags) && e.esp == 4 * (top - 1) && e.cr3 == dir
  {
    var ws, top := KthreadFrame(entry, labels), base + STACK_WORDS;
    NewProcessLands(run, i, j, t, base, m, pid, dir, ws);
    assert run[j + 1].m[top - 1 - 0] == ws[0];
  }

  /** Over every run: a ring-3 process, when first switched to, is in proc_iret_trampoline, and iret
      then finds eip, cs, eflags, esp, ss in that order. */
  lemma NewUserProcessLands(run: seq<Threads.Sys>, i: nat, j: nat, t: nat, base: nat, m: seq<u32>,
                            pid: u32, dir: u32, entry: u32, userEsp: u32, labels: Labels)
    requires StartsAt(run, i, j, t, base, m, pid, dir, UserFrame(entry, userEsp, labels))
    ensures var s, top := run[j + 1], base + STACK_WORDS;
            && Runs(s.r, Context(0, 0, 0, 0, 4 * (top - 5), labels.iretTrampoline, dir))
            && s.r.esp / 4 + 4 < |s.m|
            && AfterIret(s.r, s.m) == s.r.(eip := entry, cs := 0x1B, eflags := 0x202, esp := userEsp, ss := 0x23)
            && InterruptsOn(0x202)
  {
    var ws, top := UserFrame(entry, userEsp, labels), base + STACK_WORDS;
    NewProcessLands(run, i, j, t, base, m, pid, dir, ws);
    IretOnUserFrame(run[j + 1].r, run[j + 1].m, top, entry, userEsp, labels);
  }

  // ---- creation among running threads ---------------------------------------------------------

  /** Every thread's PCB and stack is a kept stretch. */
  ghost predicate ThreadsKept(s: Threads.Sys, h: HeapState, lo: nat, hi: nat) {
    && s.m == h.mem
    && forall t | t in s.threads ::
         && Kept(h, lo, hi, t, Threads.PCB_WORDS)
         && Kept(h, lo, hi, s.threads[t].base, s.threads[t].size)
  }

  /** The two allocations of process_create change no word of a kept stretch and lie apart from it. */
  lemma AllocationsKeep(h: HeapState, lo: nat, hi: nat, a: nat, n: nat)
    requires Inv(h, lo, hi) && TakePair(h, lo, hi).pcb != 0 && Kept(h, lo, hi, a, n) && a + n <= |h.mem|
    ensures var q := TakePair(h, lo, hi);
            && |q.after.mem| == |h.mem| && Kept(q.after, lo, hi, a, n)
            && Threads.Apart(a, n, q.pcb / 4, Threads.PCB_WORDS) && Threads.Apart(a, n, q.stack / 4, STACK_WORDS)
            && forall k | a <= k < a + n :: q.after.mem[k] == h.mem[k]
  {
    ZallocKeepsInv(h, PCB_BYTES, lo, hi);
    assert WordsFor(PCB_BYTES) == Threads.PCB_WORDS && WordsFor(STACK_BYTES) == STACK_WORDS;
    ZallocKeeps(h, PCB_BYTES, lo, hi, a, n);
    ZallocKeeps(ZallocStep(h, PCB_BYTES, lo, hi).after, STACK_BYTES, lo, hi, a, n);
  }

  /** A stretch kept before process_create is kept by it, word for word, and lies apart from the new
      PCB and stack. */
  lemma CreateKeeps(h: HeapState, lo: nat, hi: nat, pid: u32, dir: u32, ws: seq<u32>, a: nat, n: nat)
    requires Inv(h, lo, hi) && |ws| <= STACK_WORDS && Create(h, lo, hi, pid, dir, ws).pcb != 0
    requires Kept(h, lo, hi, a, n) && a + n <= |h.mem|
    ensures var c := Create(h, lo, hi, pid, dir, ws);
            && |c.after.mem| == |h.mem| && Kept(c.after, lo, hi, a, n)
            && Threads.Apart(a, n, c.pcb / 4, Threads.PCB_WORDS) && Threads.Apart(a, n, c.stack / 4, STACK_WORDS)
            && forall k | a <= k < a + n :: c.after.mem[k] == h.mem[k]
  {
    AllocationsKeep(h, lo, hi, a, n);
    PairPlaced(h, lo, hi);
    var q := TakePair(h, lo, hi);
    FillKeepsStretch(q.after.mem, q.pcb / 4, q.stack / 4, pid, dir, ws, a, n);
  }

  lemma FillKeepsStretch(m: seq<u32>, t: nat, base: nat, pid: u32, dir: u32, ws: seq<u32>, a: nat, n: nat)
    requires Placed(m, t, base) && |ws| <= STACK_WORDS && a + n <= |m|
    requires Threads.Apart(a, n, t, Threads.PCB_WORDS) && Threads.Apart(a, n, base, STACK_WORDS)
    ensures forall k | a <= k < a + n :: Fill(m, t, base, pid, dir, ws)[k] == m[k]
  {
    forall k | a <= k < a + n ensures Fill(m, t, base, pid, dir, ws)[k] == m[k] {
      FillFrame(m, t, base, pid, dir, ws, k);
    }
  }

  /** process_create is an ordinary step of the running thread: no thread's saved context changes,
      and the new one starts suspended, apart from all others. So every run may contain it. */
  lemma CreateIsWork(s: Threads.Sys, h: HeapState, lo: nat, hi: nat, pid: u32, dir: u32, ws: seq<u32>)
    requires Threads.Inv(s) && Inv(h, lo, hi) && ThreadsKept(s, h, lo, hi) && 5 <= |ws| <= STACK_WORDS
    ensures var c := Create(h, lo, hi, pid, dir, ws);
            var s' := s.(m := c.after.mem,
                         threads := s.threads[c.pcb / 4 := Threads.Stack(c.stack / 4, STACK_WORDS)]);
            c.pcb != 0 ==>
              && c.pcb / 4 !in s.threads && Threads.Works(s, s') && Threads.Inv(s')
              && ThreadsKept(s', c.after, lo, hi)
  {
    var c := Create(h, lo, hi, pid, dir, ws);
    if c.pcb != 0 {
      var t, st := c.pcb / 4, Threads.Stack(c.stack / 4, STACK_WORDS);
      var s' := s.(m := c.after.mem, threads := s.threads[t := st]);
      forall u | u in s.threads ensures KeptApart(s, c, lo, hi, u) {
        CreateKeepsThread(s, h, lo, hi, pid, dir, ws, u);
      }
      NewIsPlaced(h, lo, hi, pid, dir, ws);
      WorksFromKept(s, s', c, lo, hi, t, st);
      Threads.WorksKeepsInv(s, s');
      KeptFromApart(s, s', c, lo, hi, t, st);
    }
  }

  /** Memory may change under the threads as long as no word of their PCBs and stacks does. */
  lemma KeptIsWork(s: Threads.Sys, m: seq<u32>)
    requires Threads.Inv(s) && |m| == |s.m|
    requires forall u, k | u in s.threads && 0 <= k < |m| && Threads.Owns(u, s.threads[u], k) :: m[k] == s.m[k]
    ensures Threads.Works(s, s.(m := m)) && Threads.Inv(s.(m := m))
  {
    assert Threads.Owns(s.current, s.threads[s.current], s.current + 4);
    Threads.WorksKeepsInv(s, s.(m := m));
  }

  /** The allocations of a process_create that fails change no word of a kept stretch. */
  lemma FailureKeeps(h: HeapState, lo: nat, hi: nat, a: nat, n: nat)
    requires Inv(h, lo, hi) && TakePair(h, lo, hi).pcb == 0 && Kept(h, lo, hi, a, n) && a + n <= |h.mem|
    ensures var q := TakePair(h, lo, hi);
            && |q.after.mem| == |h.mem| && Kept(q.after, lo, hi, a, n)
            && forall k | a <= k < a + n :: q.after.mem[k] == h.mem[k]
  {
    var o := ZallocStep(h, PCB_BYTES, lo, hi);
    ZallocKeepsInv(h, PCB_BYTES, lo, hi);
    ZallocKeeps(h, PCB_BYTES, lo, hi, a, n);
    if o.ptr != 0 {
      if !(a + n <= lo || hi <= a) {
        var b: Block :| b in h.blocks && b.used && InPayload(b, a, n);
        HoldsItself(h, lo, hi, b);
        MallocIsolates(h, PCB_BYTES, lo, hi, b, h.mem[b.Body()..b.End()]);
      }
      FreeKeeps(o.after, o.ptr, lo, hi, a, n);
    }
  }

  /** A process_create that fails is a step of the running thread too: it may have zeroed and freed a
      block, but no thread's PCB or stack changes. */
  lemma FailedCreateIsWork(s: Threads.Sys, h: HeapState, lo: nat, hi: nat, pid: u32, dir: u32, ws: seq<u32>)
    requires Threads.Inv(s) && Inv(h, lo, hi) && ThreadsKept(s, h, lo, hi) && |ws| <= STACK_WORDS
    ensures var c := Create(h, lo, hi, pid, dir, ws);
            c.pcb == 0 ==>
              && Threads.Works(s, s.(m := c.after.mem)) && Threads.Inv(s.(m := c.after.mem))
              && ThreadsKept(s.(m := c.after.mem), c.after, lo, hi)
  {
    var c := Create(h, lo, hi, pid, dir, ws);
    if c.pcb == 0 {
      forall u | u in s.threads ensures StillKept(s, c.after, lo, hi, u) {
        FailureKeeps(h, lo, hi, u, Threads.PCB_WORDS);
        FailureKeeps(h, lo, hi, s.threads[u].base, s.threads[u].size);
        StillKeptFrom(s, c.after, lo, hi, u);
      }
      assert StillKept(s, c.after, lo, hi, s.current);
      KeptIsWork(s, c.after.mem);
    }
  }

  /** In the heap `g` thread `u` has the PCB and stack it had in s, word for word. */
  ghost predicate StillKept(s: Threads.Sys, g: HeapState, lo: nat, hi: nat, u: nat)
    requires u in s.threads
  {
    && |g.mem| == |s.m|
    && Kept(g, lo, hi, u, Threads.PCB_WORDS) && Kept(g, lo, hi, s.threads[u].base, s.threads[u].size)
    && forall k | 0 <= k < |s.m| && Threads.Owns(u, s.threads[u], k) :: g.mem[k] == s.m[k]
  }

  /** process_destroy frees two pointers; a stretch that starts at neither keeps every word. */
  lemma DestroyKeeps(h: HeapState, lo: nat, hi: nat, p: nat, g: HeapState, a: nat, n: nat)
    requires Inv(h, lo, hi) && p != 0 && p / 4 + 3 < |h.mem| && g == Destroy(h, lo, hi, p)
    requires Kept(h, lo, hi, a, n) && a + n <= |h.mem| && p != 4 * a && h.mem[p / 4 + 3] != 4 * a
    ensures |g.mem| == |h.mem| && Kept(g, lo, hi, a, n) && forall k | a <= k < a + n :: g.mem[k] == h.mem[k]
  {
    var ks := h.mem[p / 4 + 3];
    FreeKeepsInv(h, ks, lo, hi);
    FreeKeeps(h, ks, lo, hi, a, n);
    FreeKeeps(FreeStep(h, ks, lo, hi), p, lo, hi, a, n);
  }

  lemma OtherStarts(s: Threads.Sys, t: nat, u: nat)
    requires Threads.Inv(s) && t in s.threads && t != s.current && u in s.threads && u != t && 0 < s.threads[u].size
    ensures s.threads[u].base != t && s.threads[t].base != u && s.threads[u].base != s.threads[t].base
    ensures t + 3 < |s.m| && u + Threads.PCB_WORDS <= |s.m| && s.threads[u].base + s.threads[u].size <= |s.m|
  {
    assert Threads.ThreadsApart(u, s.threads[u], t, s.threads[t]);
    assert Threads.Suspended(s.m, t, s.threads[t]);
  }

  lemma StillKeptFrom(s: Threads.Sys, g: HeapState, lo: nat, hi: nat, u: nat)
    requires u in s.threads && |g.mem| == |s.m| && u + Threads.PCB_WORDS <= |s.m| && s.threads[u].Top() <= |s.m|
    requires Kept(g, lo, hi, u, Threads.PCB_WORDS) && Kept(g, lo, hi, s.threads[u].base, s.threads[u].size)
    requires forall k | u <= k < u + Threads.PCB_WORDS :: g.mem[k] == s.m[k]
    requires forall k | s.threads[u].base <= k < s.threads[u].Top() :: g.mem[k] == s.m[k]
    ensures StillKept(s, g, lo, hi, u)
  {
  }

  lemma DestroyKeepsThread(s: Threads.Sys, h: HeapState, lo: nat, hi: nat, t: nat, g: HeapState, u: nat)
    requires Inv(h, lo, hi) && ThreadsKept(s, h, lo, hi) && 0 < t && t + 3 < |h.mem| && g == Destroy(h, lo, hi, 4 * t)
    requires u in s.threads && u + Threads.PCB_WORDS <= |s.m| && s.threads[u].Top() <= |s.m|
    requires t != u && t != s.threads[u].base && h.mem[t + 3] != 4 * u && h.mem[t + 3] != 4 * s.threads[u].base
    ensures StillKept(s, g, lo, hi, u)
  {
    DestroyKeeps(h, lo, hi, 4 * t, g, u, Threads.PCB_WORDS);
    DestroyKeeps(h, lo, hi, 4 * t, g, s.threads[u].base, s.threads[u].size);
    StillKeptFrom(s, g, lo, hi, u);
  }

  lemma WorksWithout(s: Threads.Sys, g: HeapState, lo: nat, hi: nat, t: nat)
    requires Threads.Inv(s) && t in s.threads && t != s.current
    requires forall u | u in s.threads && u != t :: StillKept(s, g, lo, hi, u)
    ensures var s' := s.(m := g.mem, threads := s.threads - {t});
            Threads.Works(s, s') && Threads.Inv(s') && ThreadsKept(s', g, lo, hi)
  {
    var s' := s.(m := g.mem, threads := s.threads - {t});
    assert StillKept(s, g, lo, hi, s.current);
    assert Threads.Owns(s.current, s.threads[s.current], s.current + 4);
    Threads.WorksKeepsInv(s, s');
    forall u | u in s'.threads
      ensures Kept(g, lo, hi, u, Threads.PCB_WORDS) && Kept(g, lo, hi, s'.threads[u].base, s'.threads[u].size)
    {
      assert StillKept(s, g, lo, hi, u);
    }
  }

  /** process_destroy of a thread that is not running is a step of the running one: every other thread
      keeps its PCB and stack, word for word. */
  lemma DestroyIsWork(s: Threads.Sys, h: HeapState, lo: nat, hi: nat, t: nat)
    requires Threads.Inv(s) && Inv(h, lo, hi) && ThreadsKept(s, h, lo, hi) && 0 < s.threads[s.current].size
    requires t in s.threads && t != s.current && 0 < t && h.mem[t + 3] == 4 * s.threads[t].base
    ensures var g := Destroy(h, lo, hi, 4 * t);
            var s' := s.(m := g.mem, threads := s.threads - {t});
            Threads.Works(s, s') && Threads.Inv(s') && ThreadsKept(s', g, lo, hi)
  {
    var g := Destroy(h, lo, hi, 4 * t);
    forall u | u in s.threads && u != t ensures StillKept(s, g, lo, hi, u) {
      assert u != s.current ==> Threads.Suspended(s.m, u, s.threads[u]);
      OtherStarts(s, t, u);
      DestroyKeepsThread(s, h, lo, hi, t, g, u);
    }
    WorksWithout(s, g, lo, hi, t);
  }

  /** Thread `u` is untouched by the creation `c` and apart from what it made. */
  ghost predicate KeptApart(s: Threads.Sys, c: Created, lo: nat, hi: nat, u: nat)
    requires u in s.threads
  {
    && |c.after.mem| == |s.m|
    && Threads.ThreadsApart(u, s.threads[u], c.pcb / 4, Threads.Stack(c.stack / 4, STACK_WORDS))
    && Kept(c.after, lo, hi, u, Threads.PCB_WORDS) && Kept(c.after, lo, hi, s.threads[u].base, s.threads[u].size)
    && forall k | 0 <= k < |s.m| && Threads.Owns(u, s.threads[u], k) :: c.after.mem[k] == s.m[k]
  }

  lemma CreateKeepsThread(s: Threads.Sys, h: HeapState, lo: nat, hi: nat, pid: u32, dir: u32, ws: seq<u32>, u: nat)
    requires Threads.Inv(s) && Inv(h, lo, hi) && ThreadsKept(s, h, lo, hi) && 5 <= |ws| <= STACK_WORDS
    requires u in s.threads && Create(h, lo, hi, pid, dir, ws).pcb != 0
    ensures KeptApart(s, Create(h, lo, hi, pid, dir, ws), lo, hi, u)
  {
    CreateKeeps(h, lo, hi, pid, dir, ws, u, Threads.PCB_WORDS);
    CreateKeeps(h, lo, hi, pid, dir, ws, s.threads[u].base, s.threads[u].size);
  }

  lemma NewIsPlaced(h: HeapState, lo: nat, hi: nat, pid: u32, dir: u32, ws: seq<u32>)
    requires Inv(h, lo, hi) && 5 <= |ws| <= STACK_WORDS && Create(h, lo, hi, pid, dir, ws).pcb != 0
    ensures var c := Create(h, lo, hi, pid, dir, ws);
            && Placed(c.after.mem, c.pcb / 4, c.stack / 4)
            && Threads.Suspended(c.after.mem, c.pcb / 4, Threads.Stack(c.stack / 4, STACK_WORDS))
            && Kept(c.after, lo, hi, c.pcb / 4, Threads.PCB_WORDS) && Kept(c.after, lo, hi, c.stack / 4, STACK_WORDS)
  {
    PairPlaced(h, lo, hi);
    var a := TakePair(h, lo, hi);
    FillSuspends(a.after.mem, a.pcb / 4, a.stack / 4, pid, dir, ws);
  }

  /** A layout stays one when a thread apart from all others joins. */
  lemma LayoutExtends(threads: map<nat, Threads.Stack>, len: nat, t: nat, st: Threads.Stack)
    requires Threads.Layout(threads, len) && t !in threads
    requires t + Threads.PCB_WORDS <= len && st.Top() <= len && st.Top() < TWO32 / 4
    requires Threads.Apart(t, Threads.PCB_WORDS, st.base, st.size)
    requires forall u | u in threads :: Threads.ThreadsApart(u, threads[u], t, st)
    ensures Threads.Layout(threads[t := st], len)
  {
    var more := threads[t := st];
    forall u, v | u in more && v in more && u != v ensures Threads.ThreadsApart(u, more[u], v, more[v]) {
      if u == t { assert Threads.ThreadsApart(v, threads[v], t, st); }
    }
  }

  lemma WorksFromKept(s: Threads.Sys, s': Threads.Sys, c: Created, lo: nat, hi: nat, t: nat, st: Threads.Stack)
    requires Threads.Inv(s) && t == c.pcb / 4 && st == Threads.Stack(c.stack / 4, STACK_WORDS)
    requires forall u | u in s.threads :: KeptApart(s, c, lo, hi, u)
    requires Placed(c.after.mem, t, st.base) && Threads.Suspended(c.after.mem, t, st)
    requires s' == s.(m := c.after.mem, threads := s.threads[t := st])
    ensures t !in s.threads && Threads.Works(s, s')
  {
    assert KeptApart(s, c, lo, hi, s.current);
    forall u | u in s.threads ensures u != t && Threads.ThreadsApart(u, s.threads[u], t, st) {
      assert KeptApart(s, c, lo, hi, u);
    }
    LayoutExtends(s.threads, |s.m|, t, st);
    assert Threads.Owns(s.current, s.threads[s.current], s.current + 4);
  }

  lemma KeptFromApart(s: Threads.Sys, s': Threads.Sys, c: Created, lo: nat, hi: nat, t: nat, st: Threads.Stack)
    requires forall u | u in s.threads :: KeptApart(s, c, lo, hi, u)
    requires Kept(c.after, lo, hi, t, Threads.PCB_WORDS) && Kept(c.after, lo, hi, st.base, st.size)
    requires s' == s.(m := c.after.mem, threads := s.threads[t := st])
    ensures ThreadsKept(s', c.after, lo, hi)
  {
    forall u | u in s'.threads
      ensures Kept(c.after, lo, hi, u, Threads.PCB_WORDS)
      ensures Kept(c.after, lo, hi, s'.threads[u].base, s'.threads[u].size)
    {
      if u != t { assert KeptApart(s, c, lo, hi, u); }
    }
  }

  // ---- what creation and destruction take from the heap and give back ------------------------

  ghost function LiveAt(h: HeapState, p: nat): Block
    requires IsLive(h.blocks, p)
  {
    h.blocks[IndexOf(h.blocks, p)]
  }

  lemma ZallocAddsOne(h: HeapState, n: u32, lo: nat, hi: nat)
    requires Inv(h, lo, hi) && n <= TWO32 - 4 && ZallocStep(h, n, lo, hi).ptr != 0
    ensures var o := ZallocStep(h, n, lo, hi);
            && IsLive(o.after.blocks, o.ptr)
            && var c := LiveAt(o.after, o.ptr);
               && c !in LiveSet(h.blocks) && LiveSet(o.after.blocks) == LiveSet(h.blocks) + {c}
               && o.after.used == h.used + 4 * c.len
  {
    ZallocGives(h, n, lo, hi);
    var c := MallocAddsOne(h, n, lo, hi);
    ZallocKeepsInv(h, n, lo, hi);
    var o := ZallocStep(h, n, lo, hi);
    assert c in LiveSet(o.after.blocks);
    LiveByPtr(o.after, lo, hi, c);
  }

  /** A live block is the one its pointer names. */
  lemma LiveByPtr(h: HeapState, lo: nat, hi: nat, b: Block)
    requires Inv(h, lo, hi) && b in LiveSet(h.blocks)
    ensures IsLive(h.blocks, b.Ptr()) && LiveAt(h, b.Ptr()) == b
  {
    var i :| 0 <= i < |h.blocks| && h.blocks[i] == b;
    PtrNamesBlock(h, lo, hi, i);
  }

  lemma PairTakesTwoOrNone(h: HeapState, lo: nat, hi: nat, a: Pair)
    requires Inv(h, lo, hi) && a == TakePair(h, lo, hi)
    ensures a.pcb == 0 ==> a.after.used == h.used && LiveSet(a.after.blocks) == LiveSet(h.blocks)
    ensures a.pcb != 0 ==>
              && IsLive(a.after.blocks, a.pcb) && IsLive(a.after.blocks, a.stack)
              && var p, q := LiveAt(a.after, a.pcb), LiveAt(a.after, a.stack);
                 && p != q && p !in LiveSet(h.blocks) && q !in LiveSet(h.blocks)
                 && LiveSet(a.after.blocks) == LiveSet(h.blocks) + {p, q}
                 && a.after.used == h.used + 4 * p.len + 4 * q.len
  {
    ZallocKeepsInv(h, PCB_BYTES, lo, hi);
    var o := ZallocStep(h, PCB_BYTES, lo, hi);
    if o.ptr != 0 {
      ZallocAddsOne(h, PCB_BYTES, lo, hi);
      var q := ZallocStep(o.after, STACK_BYTES, lo, hi);
      if q.ptr == 0 {
        FreeRemovesOne(o.after, o.ptr, lo, hi);
      } else {
        ZallocKeepsInv(o.after, STACK_BYTES, lo, hi);
        ZallocAddsOne(o.after, STACK_BYTES, lo, hi);
        LiveByPtr(q.after, lo, hi, LiveAt(o.after, o.ptr));
      }
    }
  }

  /** A failed process_create leaks nothing: the live blocks, heap_used and the pid counter are as
      they were. A successful one takes exactly two blocks and one pid. */
  lemma CreateTakesTwoOrNone(h: HeapState, lo: nat, hi: nat, pid: u32, dir: u32, ws: seq<u32>)
    requires Inv(h, lo, hi) && |ws| <= STACK_WORDS
    ensures var c := Create(h, lo, hi, pid, dir, ws);
            if c.pcb == 0 then
              c.nextPid == pid && c.after.used == h.used && LiveSet(c.after.blocks) == LiveSet(h.blocks)
            else
              && c.nextPid == Wrap(pid + 1) && IsLive(c.after.blocks, c.pcb) && IsLive(c.after.blocks, c.stack)
              && var p, q := LiveAt(c.after, c.pcb), LiveAt(c.after, c.stack);
                 && p != q && p !in LiveSet(h.blocks) && q !in LiveSet(h.blocks)
                 && LiveSet(c.after.blocks) == LiveSet(h.blocks) + {p, q}
                 && c.after.used == h.used + 4 * p.len + 4 * q.len
  {
    var a, c := TakePair(h, lo, hi), Create(h, lo, hi, pid, dir, ws);
    CreateUnfolds(h, lo, hi, pid, dir, ws, a, c);
    PairTakesTwoOrNone(h, lo, hi, a);
  }

  /** process_destroy: free the stack named in the PCB, then the PCB. */
  ghost function Destroy(h: HeapState, lo: nat, hi: nat, p: nat): (t: HeapState)
    requires Inv(h, lo, hi) && p / 4 + 3 < |h.mem|
  {
    if p == 0 then h else
      var h1 := FreeStep(h, h.mem[p / 4 + 3], lo, hi);
      FreeKeepsInv(h, h.mem[p / 4 + 3], lo, hi);
      FreeStep(h1, p, lo, hi)
  }

  /** Destroying a process whose PCB and stack are live removes those two blocks and no other. */
  lemma DestroyRemovesTwo(h: HeapState, lo: nat, hi: nat, p: nat, ks: nat)
    requires Inv(h, lo, hi) && p != 0 && p / 4 + 3 < |h.mem| && h.mem[p / 4 + 3] == ks
    requires ks != 0 && ks != p && IsLive(h.blocks, p) && IsLive(h.blocks, ks)
    ensures var a, b, t := LiveAt(h, p), LiveAt(h, ks), Destroy(h, lo, hi, p);
            LiveSet(t.blocks) == LiveSet(h.blocks) - {a, b} && t.used == h.used - 4 * a.len - 4 * b.len
  {
    FreeRemovesOne(h, ks, lo, hi);
    FreeKeepsInv(h, ks, lo, hi);
    var h1 := FreeStep(h, ks, lo, hi);
    LiveByPtr(h1, lo, hi, LiveAt(h, p));
    FreeRemovesOne(h1, p, lo, hi);
  }

  /** Creating and destroying a process gives back exactly what was taken. */
  lemma CreateThenDestroy(h: HeapState, lo: nat, hi: nat, pid: u32, dir: u32, ws: seq<u32>)
    requires Inv(h, lo, hi) && |ws| <= STACK_WORDS && Create(h, lo, hi, pid, dir, ws).pcb != 0
    ensures var c := Create(h, lo, hi, pid, dir, ws);
            && Inv(c.after, lo, hi) && c.pcb / 4 + 3 < |c.after.mem|
            && var t := Destroy(c.after, lo, hi, c.pcb);
               t.used == h.used && LiveSet(t.blocks) == LiveSet(h.blocks)
  {
    var c := Create(h, lo, hi, pid, dir, ws);
    CreateKeepsInv(h, lo, hi, pid, dir, ws);
    CreateTakesTwoOrNone(h, lo, hi, pid, dir, ws);
    StackNamedInPcb(h, lo, hi, pid, dir, ws, c);
    DestroyUndoes(h, c, lo, hi);
  }

  /** Destroying the process whose PCB and stack are the two blocks that `c` has and `h` has not. */
  lemma DestroyUndoes(h: HeapState, c: Created, lo: nat, hi: nat)
    requires Inv(c.after, lo, hi) && c.pcb != 0 && c.pcb / 4 + 3 < |c.after.mem|
    requires c.after.mem[c.pcb / 4 + 3] == c.stack && c.stack != 0 && c.stack != c.pcb
    requires IsLive(c.after.blocks, c.pcb) && IsLive(c.after.blocks, c.stack)
    requires var p, q := LiveAt(c.after, c.pcb), LiveAt(c.after, c.stack);
             && p !in LiveSet(h.blocks) && q !in LiveSet(h.blocks)
             && LiveSet(c.after.blocks) == LiveSet(h.blocks) + {p, q}
             && c.after.used == h.used + 4 * p.len + 4 * q.len
    ensures var t := Destroy(c.after, lo, hi, c.pcb); t.used == h.used && LiveSet(t.blocks) == LiveSet(h.blocks)
  {
    DestroyRemovesTwo(c.after, lo, hi, c.pcb, c.stack);
    TwoInTwoOut(LiveSet(h.blocks), LiveAt(c.after, c.pcb), LiveAt(c.after, c.stack));
  }

  lemma TwoInTwoOut(live: set<Block>, p: Block, q: Block)
    requires p !in live && q !in live
    ensures live + {p, q} - {p, q} == live
  {
  }

  lemma StackNamedInPcb(h: HeapState, lo: nat, hi: nat, pid: u32, dir: u32, ws: seq<u32>, c: Created)
    requires Inv(h, lo, hi) && |ws| <= STACK_WORDS && c == Create(h, lo, hi, pid, dir, ws) && c.pcb != 0
    ensures c.stack != 0 && c.pcb / 4 + 3 < |c.after.mem| && c.after.mem[c.pcb / 4 + 3] == c.stack
  {
    CreateUnfolds(h, lo, hi, pid, dir, ws, TakePair(h, lo, hi), c);
    FollowsNamesStack(TakePair(h, lo, hi), pid, dir, ws, c);
  }

  lemma FollowsNamesStack(a: Pair, pid: u32, dir: u32, ws: seq<u32>, c: Created)
    requires Follows(a, pid, dir, ws, c) && c.pcb != 0
    ensures c.stack != 0 && c.pcb / 4 + 3 < |c.after.mem| && c.after.mem[c.pcb / 4 + 3] == c.stack
  {
    FillPcb(a.after.mem, a.pcb / 4, a.stack / 4, pid, dir, ws);
  }

  /** NULL, or a live PCB whose stack field is NULL or another live pointer. */
  predicate Destroyable(h: HeapState, p: nat) {
    || p == 0
    || (&& p / 4 + 3 < |h.mem| && IsLive(h.blocks, p) && h.mem[p / 4 + 3] != p
        && (h.mem[p / 4 + 3] == 0 || IsLive(h.blocks, h.mem[p / 4 + 3])))
  }

  /** Destroy in two parts: the PCB is still live once its stack is freed. */
  lemma DestroyUnfolds(h: HeapState, lo: nat, hi: nat, p: nat, h1: HeapState)
    requires Inv(h, lo, hi) && p != 0 && Destroyable(h, p) && h1 == FreeStep(h, h.mem[p / 4 + 3], lo, hi)
    ensures Inv(h1, lo, hi) && Freeable(h, h.mem[p / 4 + 3]) && Freeable(h1, p)
    ensures h.mem[p / 4 + 3] == 0 ==> h1 == h
    ensures Destroy(h, lo, hi, p) == FreeStep(h1, p, lo, hi)
  {
    var ks, b := h.mem[p / 4 + 3], LiveAt(h, p);
    FreeKeepsInv(h, ks, lo, hi);
    if ks != 0 { FreeRemovesOne(h, ks, lo, hi); }
    assert b in LiveSet(h.blocks);
    LiveByPtr(h1, lo, hi, b);
  }

  /** The two stages of Create: `a` takes the blocks, `c` fills them in. */
  ghost predicate Follows(a: Pair, pid: u32, dir: u32, ws: seq<u32>, c: Created) {
    && c.pcb == a.pcb && c.stack == a.stack && (a.pcb != 0 ==> a.stack != 0)
    && (a.pcb == 0 ==> c.after == a.after && c.nextPid == pid)
    && (a.pcb != 0 ==>
          && a.pcb % 4 == 0 && a.stack % 4 == 0 && Placed(a.after.mem, a.pcb / 4, a.stack / 4)
          && |ws| <= STACK_WORDS && c.after.mem == Fill(a.after.mem, a.pcb / 4, a.stack / 4, pid, dir, ws)
          && c.after.blocks == a.after.blocks && c.after.used == a.after.used && c.nextPid == Wrap(pid + 1))
  }

  lemma CreateUnfolds(h: HeapState, lo: nat, hi: nat, pid: u32, dir: u32, ws: seq<u32>, a: Pair, c: Created)
    requires Inv(h, lo, hi) && |ws| <= STACK_WORDS
    requires a == TakePair(h, lo, hi) && c == Create(h, lo, hi, pid, dir, ws)
    ensures Inv(c.after, lo, hi) && Follows(a, pid, dir, ws, c)
  {
    CreateKeepsInv(h, lo, hi, pid, dir, ws);
    if a.pcb != 0 { PairPlaced(h, lo, hi); }
  }

  // ---- the code ---------------------------------------------------------------------------

  class Processes {
    const heap: Heap
    const labels: Labels
    const kernelDir: u32
    var nextPid: u32

    constructor (heap: Heap, labels: Labels, kernelDir: u32)
      ensures this.heap == heap && this.labels == labels && this.kernelDir == kernelDir && nextPid == 1
    {
      this.heap := heap;
      this.labels := labels;
      this.kernelDir := kernelDir;
      nextPid := 1;
    }

    /** `*--sp = v`, on a stack that holds `ws` below `top`. */
    method PushWord(sp: u32, v: u32, ghost m: seq<u32>, ghost top: nat, ghost ws: seq<u32>) returns (sp': u32)
      requires |ws| < top <= |m| && sp == 4 * (top - |ws|) && heap.mem[..] == Pushed(m, top, ws)
      modifies heap.mem
      ensures sp' == sp - 4 && heap.mem[..] == Pushed(m, top, ws + [v])
    {
      sp' := sp - 4;
      heap.mem[sp' / 4] := v;
    }

    method PushKthreadFrame(top: u32, entry: u32) returns (sp: u32)
      requires top % 4 == 0 && 24 <= top <= 4 * heap.mem.Length
      modifies heap.mem
      ensures sp == top - 24
      ensures heap.mem[..] == Pushed(old(heap.mem[..]), top / 4, KthreadFrame(entry, labels))
    {
      ghost var m, k := heap.mem[..], top / 4;
      assert m == Pushed(m, k, []);
      sp := PushWord(top, entry, m, k, []);
      sp := PushWord(sp, labels.kthreadEntry, m, k, [entry]);
      sp := PushWord(sp, 0, m, k, [entry, labels.kthreadEntry]);
      sp := PushWord(sp, 0, m, k, [entry, labels.kthreadEntry, 0]);
      sp := PushWord(sp, 0, m, k, [entry, labels.kthreadEntry, 0, 0]);
      sp := PushWord(sp, 0, m, k, [entry, labels.kthreadEntry, 0, 0, 0]);
    }

    method PushUserFrame(top: u32, entry: u32, userEsp: u32) returns (sp: u32)
      requires top % 4 == 0 && 40 <= top <= 4 * heap.mem.Length
      modifies heap.mem
      ensures sp == top - 40
      ensures heap.mem[..] == Pushed(old(heap.mem[..]), top / 4, UserFrame(entry, userEsp, labels))
    {
      ghost var m, k, ret := heap.mem[..], top / 4, labels.iretTrampoline;
      assert m == Pushed(m, k, []);
      sp := PushWord(top, 0x23, m, k, []);
      sp := PushWord(sp, userEsp, m, k, [0x23]);
      sp := PushWord(sp, 0x202, m, k, [0x23, userEsp]);
      sp := PushWord(sp, 0x1B, m, k, [0x23, userEsp, 0x202]);
      sp := PushWord(sp, entry, m, k, [0x23, userEsp, 0x202, 0x1B]);
      sp := PushWord(sp, labels.iretTrampoline, m, k, [0x23, userEsp, 0x202, 0x1B, entry]);
      sp := PushWord(sp, 0, m, k, [0x23, userEsp, 0x202, 0x1B, entry, ret]);
      sp := PushWord(sp, 0, m, k, [0x23, userEsp, 0x202, 0x1B, entry, ret, 0]);
      sp := PushWord(sp, 0, m, k, [0x23, userEsp, 0x202, 0x1B, entry, ret, 0, 0]);
      sp := PushWord(sp, 0, m, k, [0x23, userEsp, 0x202, 0x1B, entry, ret, 0, 0, 0]);
    }

    /** The two kzalloc calls; both pointers are NULL when either fails. */
    method TakeBoth(ghost goal: Pair) returns (p: u32, ks: u32)
      requires heap.Valid() && goal == TakePair(heap.State(), heap.Lo(), heap.Hi())
      modifies heap`used, heap`blocks, heap.mem
      ensures heap.Valid()
      ensures Pair(heap.State(), p, ks) == goal
      ensures nextPid == old(nextPid)
    {
      ks := 0;
      ghost var h := heap.State();
      if ZallocStep(h, PCB_BYTES, heap.Lo(), heap.Hi()).ptr != 0 { ZallocGives(h, PCB_BYTES, heap.Lo(), heap.Hi()); }
      p := heap.Kzalloc(PCB_BYTES);
      if p == 0 { return; }
      ks := heap.Kzalloc(STACK_BYTES);
      if ks == 0 {
        heap.Kfree(p);
        p := 0;
      }
    }

    method SetFields(p: u32, ks: u32, dir: u32)
      requires p % 4 == 0 && ks % 4 == 0 && Placed(heap.mem[..], p / 4, ks / 4)
      modifies this, heap.mem
      ensures heap.mem[..] == Fields(old(heap.mem[..]), p / 4, ks / 4, old(nextPid), dir)
      ensures nextPid == Wrap(old(nextPid) + 1)
    {
      var t := p / 4;
      heap.mem[t + 3] := ks;
      heap.mem[t] := nextPid;
      heap.mem[t + 4] := dir;
      heap.mem[t + 5] := READY;
      heap.mem[t + 2] := ks + STACK_BYTES;
      nextPid := Wrap(nextPid + 1);
    }

    method FillKthread(p: u32, ks: u32, entry: u32)
      requires p % 4 == 0 && ks % 4 == 0 && Placed(heap.mem[..], p / 4, ks / 4)
      modifies this, heap.mem
      ensures heap.mem[..] == Fill(old(heap.mem[..]), p / 4, ks / 4, old(nextPid), kernelDir, KthreadFrame(entry, labels))
      ensures nextPid == Wrap(old(nextPid) + 1)
    {
      SetFields(p, ks, kernelDir);
      var sp := PushKthreadFrame(ks + STACK_BYTES, entry);
      heap.mem[p / 4 + 1] := sp;
    }

    method SetUpKthread(p: u32, ks: u32, entry: u32, ghost c: Created)
      requires heap.Valid() && Inv(c.after, heap.Lo(), heap.Hi()) && p != 0
      requires Follows(Pair(heap.State(), p, ks), nextPid, kernelDir, KthreadFrame(entry, labels), c)
      modifies this, heap.mem
      ensures heap.Valid() && heap.State() == c.after && nextPid == c.nextPid
    {
      FillKthread(p, ks, entry);
      assert heap.State() == c.after;
    }

    method CreateKthread(entry: u32, ghost a: Pair, ghost c: Created) returns (p: u32)
      requires heap.Valid() && a == TakePair(heap.State(), heap.Lo(), heap.Hi()) && Inv(c.after, heap.Lo(), heap.Hi())
      requires Follows(a, nextPid, kernelDir, KthreadFrame(entry, labels), c)
      modifies this, heap`used, heap`blocks, heap.mem
      ensures heap.Valid() && p == c.pcb && nextPid == c.nextPid && heap.State() == c.after
    {
      var ks;
      p, ks := TakeBoth(a);
      if p != 0 { SetUpKthread(p, ks, entry, c); }
    }

    method FillUser(p: u32, ks: u32, entry: u32, userEsp: u32, dir: u32)
      requires p % 4 == 0 && ks % 4 == 0 && Placed(heap.mem[..], p / 4, ks / 4)
      modifies this, heap.mem
      ensures heap.mem[..] == Fill(old(heap.mem[..]), p / 4, ks / 4, old(nextPid), dir, UserFrame(entry, userEsp, labels))
      ensures nextPid == Wrap(old(nextPid) + 1)
    {
      SetFields(p, ks, dir);
      var sp := PushUserFrame(ks + STACK_BYTES, entry, userEsp);
      heap.mem[p / 4 + 1] := sp;
    }

    method SetUpUser(p: u32, ks: u32, entry: u32, userEsp: u32, dir: u32, ghost c: Created)
      requires heap.Valid() && Inv(c.after, heap.Lo(), heap.Hi()) && p != 0
      requires Follows(Pair(heap.State(), p, ks), nextPid, dir, UserFrame(entry, userEsp, labels), c)
      modifies this, heap.mem
      ensures heap.Valid() && heap.State() == c.after && nextPid == c.nextPid
    {
      FillUser(p, ks, entry, userEsp, dir);
      assert heap.State() == c.after;
    }

    method CreateUser(entry: u32, userEsp: u32, dir: u32, ghost a: Pair, ghost c: Created) returns (p: u32)
      requires heap.Valid() && a == TakePair(heap.State(), heap.Lo(), heap.Hi()) && Inv(c.after, heap.Lo(), heap.Hi())
      requires Follows(a, nextPid, dir, UserFrame(entry, userEsp, labels), c)
      modifies this, heap`used, heap`blocks, heap.mem
      ensures heap.Valid() && p == c.pcb && nextPid == c.nextPid && heap.State() == c.after
    {
      var ks;
      p, ks := TakeBoth(a);
      if p != 0 { SetUpUser(p, ks, entry, userEsp, dir, c); }
    }

    /** process_create does what Create says with the kernel-thread frame. */
    method ProcessCreate(entry: u32) returns (p: u32)
      requires heap.Valid()
      modifies this, heap`used, heap`blocks, heap.mem
      ensures heap.Valid()
      ensures var c := Create(old(heap.State()), heap.Lo(), heap.Hi(), old(nextPid), kernelDir, KthreadFrame(entry, labels));
              p == c.pcb && nextPid == c.nextPid && heap.State() == c.after
    {
      ghost var h, lo, hi, ws := heap.State(), heap.Lo(), heap.Hi(), KthreadFrame(entry, labels);
      ghost var a, c := TakePair(h, lo, hi), Create(h, lo, hi, nextPid, kernelDir, ws);
      CreateUnfolds(h, lo, hi, nextPid, kernelDir, ws, a, c);
      p := CreateKthread(entry, a, c);
    }

    /** process_create_user, with the ring-3 frame. */
    method ProcessCreateUser(entry: u32, userEsp: u32, dir: u32) returns (p: u32)
      requires heap.Valid()
      modifies this, heap`used, heap`blocks, heap.mem
      ensures heap.Valid()
      ensures var c := Create(old(heap.State()), heap.Lo(), heap.Hi(), old(nextPid), dir, UserFrame(entry, userEsp, labels));
              p == c.pcb && nextPid == c.nextPid && heap.State() == c.after
    {
      ghost var h, lo, hi, ws := heap.State(), heap.Lo(), heap.Hi(), UserFrame(entry, userEsp, labels);
      ghost var a, c := TakePair(h, lo, hi), Create(h, lo, hi, nextPid, dir, ws);
      CreateUnfolds(h, lo, hi, nextPid, dir, ws, a, c);
      p := CreateUser(entry, userEsp, dir, a, c);
    }

    /** process_destroy does what Destroy says. */
    method ProcessDestroy(p: u32)
      requires heap.Valid() && Destroyable(heap.State(), p) && 3 < heap.mem.Length
      modifies heap`used, heap`blocks, heap.mem
      ensures heap.Valid()
      ensures p / 4 + 3 < heap.mem.Length
      ensures heap.State() == Destroy(old(heap.State()), heap.Lo(), heap.Hi(), p)
    {
      if p == 0 { return; }
      var ks := heap.mem[p / 4 + 3];
      ghost var h1 := FreeStep(heap.State(), ks, heap.Lo(), heap.Hi());
      DestroyUnfolds(heap.State(), heap.Lo(), heap.Hi(), p, h1);
      if ks != 0 { heap.Kfree(ks); }
      assert heap.State() == h1;
      heap.Kfree(p);
    }
  }
}

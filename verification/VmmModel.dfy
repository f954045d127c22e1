/** Two-level page tables in physical memory (section 4.3, 32-bit paging, of the Intel SDM, volume 3A),
    as kernel/mm/vmm.c builds them, and the flat page map they stand for. */
module VmmModel {
  import opened Words
  import opened PmmModel

  type Page = p: seq<u32> | |p| == 1024 witness seq(1024, _ => 0)

  datatype Option<T> = None | Some(value: T)

  // ---- kernel/mm/vmm.h ------------------------------------------------------------------------

  function DirIdx(va: u32): nat { va / 0x40_0000 }
  function TblIdx(va: u32): nat { va / 4096 % 1024 }

  predicate Present(e: u32) { e % 2 == 1 }
  predicate Writable(e: u32) { e / 2 % 2 == 1 }
  predicate UserBit(e: u32) { e / 4 % 2 == 1 }
  function FrameOf(e: u32): nat { e / 4096 }

  /** The three fields of an address recompose it, and two addresses have the same indices exactly
      when they lie in the same page. */
  lemma Indices(va: u32, vb: u32)
    ensures DirIdx(va) < 1024 && TblIdx(va) < 1024
    ensures va == DirIdx(va) * 0x40_0000 + TblIdx(va) * 4096 + va % 4096
    ensures DirIdx(va) == DirIdx(vb) && TblIdx(va) == TblIdx(vb) <==> va / 4096 == vb / 4096
  {
    assert va / 0x40_0000 == va / 4096 / 1024 && vb / 0x40_0000 == vb / 4096 / 1024;
  }

  lemma EvenPart(a: nat, b: nat)
    ensures (2 * a + b) / 2 == a + b / 2 && (2 * a + b) % 2 == b % 2
  {
  }

  lemma Quarter(x: nat)
    ensures x / 4 == x / 2 / 2
  {
  }

  /** The low twelve bits carry the flags, the rest the frame number. */
  lemma EntryBits(f: nat, l: nat)
    requires l < 4096
    ensures (4096 * f + l) / 4096 == f && (4096 * f + l) % 2 == l % 2
    ensures (4096 * f + l) / 2 % 2 == l / 2 % 2 && (4096 * f + l) / 4 % 2 == l / 4 % 2
  {
    var x, y, z := 2048 * f, 1024 * f, 512 * f;
    EvenPart(x, l);
    EvenPart(y, l / 2);
    EvenPart(z, l / 2 / 2);
    Quarter(2 * x + l);
    Quarter(l);
  }

  /** (phys & PAGE_MASK) | (flags & 0xFFF) | PAGE_PRESENT */
  function NewEntry(phys: u32, flags: u32): (e: u32) {
    var low := flags % 4096;
    phys / 4096 * 4096 + if low % 2 == 1 then low else low + 1
  }

  /** Bits 1 to 11 of an entry are those of the flags. */
  lemma NewEntryFlags(phys: u32, flags: u32)
    ensures NewEntry(phys, flags) / 2 % 2048 == flags / 2 % 2048
  {
    var low := flags % 4096;
    LowHalf(phys / 4096, if low % 2 == 1 then low else low + 1);
    LowHalf(flags / 4096, low);
  }

  lemma LowHalf(f: nat, l: nat)
    requires l < 4096
    ensures (4096 * f + l) / 2 % 2048 == l / 2
  {
    EvenPart(2048 * f, l);
    assert (2048 * f + l / 2) % 2048 == l / 2;
  }

  lemma NewEntrySpec(phys: u32, flags: u32)
    ensures var e := NewEntry(phys, flags);
            && Present(e) && FrameOf(e) == phys / 4096
            && Writable(e) == Writable(flags) && UserBit(e) == UserBit(flags)
  {
    var low := flags % 4096;
    EntryBits(phys / 4096, if low % 2 == 1 then low else low + 1);
    EntryBits(flags / 4096, low);
  }

  /** (uint32_t)pt | PAGE_PRESENT | PAGE_WRITE | PAGE_USER */
  function TableEntry(f: nat): (e: u32)
    requires f < 0x10_0000
    ensures Present(e) && Writable(e) && UserBit(e) && FrameOf(e) == f
  {
    EntryBits(f, 7);
    f * 4096 + 7
  }

  // ---- the state ------------------------------------------------------------------------------

  /** Physical memory by frames, the frames used as page directories, the PMM, and the frames its other
      clients hold. */
  datatype Space = Space(mem: seq<Page>, dirs: set<nat>, kernel: nat, frames: Frames, held: set<nat>)

  /** Entry `i` of directory `d` is present and names table `t`. */
  ghost predicate Points(s: Space, d: nat, i: nat, t: nat) {
    d in s.dirs && d < |s.mem| && i < 1024 && Present(s.mem[d][i]) && FrameOf(s.mem[d][i]) == t
  }

  ghost predicate Supervisor(e: u32) {
    Present(e) && !UserBit(e)
  }

  ghost predicate Inv(s: Space) {
    && |s.mem| <= 0x10_0000 && s.kernel in s.dirs
    && (forall d | d in s.dirs :: d < |s.mem| && d !in s.frames.free)
    && (forall f | f in s.frames.free :: 0 < f < |s.mem|)
    && (forall f | f in s.held :: 0 < f < |s.mem| && f < s.frames.total && f !in s.dirs && f !in s.frames.free)
    // tables are neither directories nor free nor held by others
    && (forall d, i, t: nat | Points(s, d, i, t) ::
          t < |s.mem| && t !in s.dirs && t !in s.frames.free && t !in s.held)
    // a table serves one slot number, and is shared only when the kernel directory has it too
    && (forall d, i, e, j, t: nat | Points(s, d, i, t) && Points(s, e, j, t) :: i == j && (d != e ==> Points(s, s.kernel, i, t)))
    // the first 8 MB go through the kernel's first two, supervisor-only, entries
    && (forall d | d in s.dirs :: s.mem[d][0] == s.mem[s.kernel][0] && s.mem[d][1] == s.mem[s.kernel][1])
    && Supervisor(s.mem[s.kernel][0]) && Supervisor(s.mem[s.kernel][1])
  }

  // ---- the walk -------------------------------------------------------------------------------

  /** What the hardware finds for `va`: the directory entry and the table entry, both present. */
  datatype Leaf = Leaf(pde: u32, pte: u32) {
    predicate User() { UserBit(pde) && UserBit(pte) }
    predicate CanWrite() { Writable(pde) && Writable(pte) }
    function Address(va: u32): nat { FrameOf(pte) * 4096 + va % 4096 }
  }

  ghost function Walk(s: Space, d: nat, va: u32): Option<Leaf> {
    if !(d < |s.mem|) then None else
      var pde := s.mem[d][DirIdx(va)];
      if !Present(pde) || FrameOf(pde) >= |s.mem| then None else
        var pte := s.mem[FrameOf(pde)][TblIdx(va)];
        if Present(pte) then Some(Leaf(pde, pte)) else None
  }

  /** Directories `d` and `e` reach `va` through the same table. */
  ghost predicate SharesTable(s: Space, d: nat, e: nat, va: u32) {
    exists t: nat :: Points(s, d, DirIdx(va), t) && Points(s, e, DirIdx(va), t)
  }

  // ---- the operations -------------------------------------------------------------------------

  /** Store into entry `i` of the page at frame `f`. */
  function Poke(m: seq<Page>, f: nat, i: nat, v: u32): (r: seq<Page>)
    requires f < |m| && i < 1024
    ensures |r| == |m|
  {
    m[f := m[f][i := v]]
  }

  /** vmm_map_page's first half: the space with a table for the slot of `va` in `d`, if one can be had. */
  ghost function WithTable(s: Space, d: nat, va: u32): (r: Space)
    requires Inv(s) && d in s.dirs
  {
    if Present(s.mem[d][DirIdx(va)]) then s else
      var (frames, f) := Alloc(s.frames);
      if f == s.frames.total then s else
        s.(mem := Poke(s.mem[f := Repeat<u32>(0, 1024)], d, DirIdx(va), TableEntry(f)), frames := frames)
  }

  ghost function MapPage(s: Space, d: nat, va: u32, phys: u32, flags: u32): (r: Space)
    requires Inv(s) && d in s.dirs
  {
    var s1 := WithTable(s, d, va);
    if !Present(s1.mem[d][DirIdx(va)]) then s1 else
      WithTableInv(s, d, va);
      assert Points(s1, d, DirIdx(va), FrameOf(s1.mem[d][DirIdx(va)]));
      s1.(mem := Poke(s1.mem, FrameOf(s1.mem[d][DirIdx(va)]), TblIdx(va), NewEntry(phys, flags)))
  }

  ghost function UnmapPage(s: Space, d: nat, va: u32): (r: Space)
    requires Inv(s) && d in s.dirs
  {
    if !Present(s.mem[d][DirIdx(va)]) then s else
      assert Points(s, d, DirIdx(va), FrameOf(s.mem[d][DirIdx(va)]));
      s.(mem := Poke(s.mem, FrameOf(s.mem[d][DirIdx(va)]), TblIdx(va), 0))
  }

  /** vmm_create_user_directory: the new directory's frame, or `total` when there is none. */
  ghost function CreateDirectory(s: Space): (Space, nat)
    requires Inv(s)
  {
    var (frames, f) := Alloc(s.frames);
    if f == s.frames.total then (s, f) else
      (s.(mem := s.mem[f := s.mem[s.kernel]], dirs := s.dirs + {f}, frames := frames), f)
  }

  // ---- what they keep -------------------------------------------------------------------------

  /** A fresh table belongs to one slot of one directory. */
  lemma FreshPoints(s: Space, d: nat, va: u32, e: nat, i: nat, t: nat)
    requires Inv(s) && d in s.dirs && !Present(s.mem[d][DirIdx(va)])
    requires Alloc(s.frames).1 < s.frames.total && Points(WithTable(s, d, va), e, i, t)
    ensures if e == d && i == DirIdx(va) then t == Alloc(s.frames).1 else Points(s, e, i, t)
  {
  }

  lemma WithTableInv(s: Space, d: nat, va: u32)
    requires Inv(s) && d in s.dirs
    ensures Inv(WithTable(s, d, va))
  {
    var r, f := WithTable(s, d, va), Alloc(s.frames).1;
    if !Present(s.mem[d][DirIdx(va)]) && f < s.frames.total {
      forall e, i, t: nat | Points(r, e, i, t) ensures t < |r.mem| && t !in r.dirs && t !in r.frames.free && t !in r.held {
        FreshPoints(s, d, va, e, i, t);
      }
      forall e, i, g, j, t: nat | Points(r, e, i, t) && Points(r, g, j, t)
        ensures i == j && (e != g ==> Points(r, r.kernel, i, t))
      {
        FreshPoints(s, d, va, e, i, t);
        FreshPoints(s, d, va, g, j, t);
        if e != g { assert Points(s, s.kernel, i, t); }
      }
    }
  }

  /** Storing into a frame that is no directory keeps the invariant. */
  lemma TablePokeInv(s: Space, t: nat, i: nat, v: u32)
    requires Inv(s) && t < |s.mem| && t !in s.dirs && i < 1024
    ensures Inv(s.(mem := Poke(s.mem, t, i, v)))
    ensures forall e, j, u: nat :: Points(s.(mem := Poke(s.mem, t, i, v)), e, j, u) == Points(s, e, j, u)
  {
    var r := s.(mem := Poke(s.mem, t, i, v));
    assert forall e | e in s.dirs :: r.mem[e] == s.mem[e];
    assert forall e, j, u: nat :: Points(r, e, j, u) == Points(s, e, j, u);
  }

  lemma MapPageInv(s: Space, d: nat, va: u32, phys: u32, flags: u32)
    requires Inv(s) && d in s.dirs
    ensures Inv(MapPage(s, d, va, phys, flags))
  {
    var s1 := WithTable(s, d, va);
    WithTableInv(s, d, va);
    if Present(s1.mem[d][DirIdx(va)]) {
      var t := FrameOf(s1.mem[d][DirIdx(va)]);
      assert Points(s1, d, DirIdx(va), t);
      TablePokeInv(s1, t, TblIdx(va), NewEntry(phys, flags));
    }
  }

  lemma UnmapPageInv(s: Space, d: nat, va: u32)
    requires Inv(s) && d in s.dirs
    ensures Inv(UnmapPage(s, d, va))
  {
    if Present(s.mem[d][DirIdx(va)]) {
      var t := FrameOf(s.mem[d][DirIdx(va)]);
      assert Points(s, d, DirIdx(va), t);
      TablePokeInv(s, t, TblIdx(va), 0);
    }
  }

  /** A new directory points where the kernel's does. */
  lemma CreatePoints(s: Space, e: nat, i: nat, t: nat)
    requires Inv(s) && Alloc(s.frames).1 < s.frames.total && Points(CreateDirectory(s).0, e, i, t)
    ensures Points(s, if e == Alloc(s.frames).1 then s.kernel else e, i, t)
  {
  }

  lemma CreateDirectoryInv(s: Space)
    requires Inv(s)
    ensures Inv(CreateDirectory(s).0)
  {
    var (r, f) := CreateDirectory(s);
    if f < s.frames.total {
      forall e, i, t: nat | Points(r, e, i, t) ensures t < |r.mem| && t !in r.dirs && t !in r.frames.free && t !in r.held {
        CreatePoints(s, e, i, t);
      }
      forall e, i, g, j, t: nat | Points(r, e, i, t) && Points(r, g, j, t)
        ensures i == j && (e != g ==> Points(r, r.kernel, i, t))
      {
        CreatePoints(s, e, i, t);
        CreatePoints(s, g, j, t);
        assert e != g ==> Points(s, s.kernel, i, t);
      }
    }
  }

  // ---- what they change -----------------------------------------------------------------------

  /** Hanging an empty table into an absent slot changes no translation anywhere. */
  lemma WithTableKeepsWalks(s: Space, d: nat, va: u32, e: nat, vb: u32)
    requires Inv(s) && d in s.dirs && e in s.dirs
    ensures Walk(WithTable(s, d, va), e, vb) == Walk(s, e, vb)
  {
    var pde := s.mem[e][DirIdx(vb)];
    if Present(pde) { assert Points(s, e, DirIdx(vb), FrameOf(pde)); }
  }

  /** Storing one table entry changes one page, in exactly the directories that use the table. */
  lemma TablePokeWalks(s: Space, d: nat, va: u32, v: u32, e: nat, vb: u32)
    requires Inv(s) && d in s.dirs && e in s.dirs && Present(s.mem[d][DirIdx(va)])
    requires FrameOf(s.mem[d][DirIdx(va)]) < |s.mem|
    ensures var r := s.(mem := Poke(s.mem, FrameOf(s.mem[d][DirIdx(va)]), TblIdx(va), v));
            Walk(r, e, vb) ==
            if vb / 4096 == va / 4096 && SharesTable(s, d, e, va)
            then (if Present(v) then Some(Leaf(s.mem[e][DirIdx(va)], v)) else None)
            else Walk(s, e, vb)
  {
    var t := FrameOf(s.mem[d][DirIdx(va)]);
    assert Points(s, d, DirIdx(va), t);
    Indices(va, vb);
    var pde := s.mem[e][DirIdx(vb)];
    if Present(pde) {
      assert Points(s, e, DirIdx(vb), FrameOf(pde));
      if FrameOf(pde) == t { assert DirIdx(vb) == DirIdx(va); }
    }
  }

  /** The directories that see a mapping made through slot DirIdx(va) of `d`: those that already share
      its table, and only `d` itself when the table is new. */
  ghost predicate Affected(s: Space, d: nat, e: nat, va: u32)
    requires d in s.dirs && d < |s.mem|
  {
    if Present(s.mem[d][DirIdx(va)]) then SharesTable(s, d, e, va) else e == d
  }

  lemma WithTableShares(s: Space, d: nat, va: u32, e: nat)
    requires Inv(s) && d in s.dirs && e in s.dirs && Present(WithTable(s, d, va).mem[d][DirIdx(va)])
    ensures SharesTable(WithTable(s, d, va), d, e, va) == Affected(s, d, e, va)
  {
    var r, i, f := WithTable(s, d, va), DirIdx(va), Alloc(s.frames).1;
    if !Present(s.mem[d][i]) {
      assert Points(r, d, i, f);
      if SharesTable(r, d, e, va) {
        var t: nat :| Points(r, d, i, t) && Points(r, e, i, t);
        FreshPoints(s, d, va, d, i, t);
        FreshPoints(s, d, va, e, i, t);
      }
    }
  }

  /** vmm_map_page, for every directory and every address. With a table for the slot, exactly the named
      page changes, in exactly the affected directories; without a frame for one, nothing changes. */
  lemma MapChangesExactly(s: Space, d: nat, va: u32, phys: u32, flags: u32, e: nat, vb: u32)
    requires Inv(s) && d in s.dirs && e in s.dirs
    ensures var r := MapPage(s, d, va, phys, flags);
            var i := DirIdx(va);
            && (Present(r.mem[d][i]) <==> Present(s.mem[d][i]) || Alloc(s.frames).1 < s.frames.total)
            && (!Present(r.mem[d][i]) ==> r == s)
            && (Present(r.mem[d][i]) ==>
                  Walk(r, e, vb) == if vb / 4096 == va / 4096 && Affected(s, d, e, va)
                                    then Some(Leaf(r.mem[e][i], NewEntry(phys, flags))) else Walk(s, e, vb))
  {
    var s1 := WithTable(s, d, va);
    WithTableInv(s, d, va);
    WithTableKeepsWalks(s, d, va, e, vb);
    if Present(s1.mem[d][DirIdx(va)]) {
      var t := FrameOf(s1.mem[d][DirIdx(va)]);
      assert Points(s1, d, DirIdx(va), t);
      NewEntrySpec(phys, flags);
      WithTableShares(s, d, va, e);
      TablePokeWalks(s1, d, va, NewEntry(phys, flags), e, vb);
    }
  }

  /** In numbers: after a mapping that found a table, every address of the page goes to the same offset in
      the page of `phys`, through an entry with the present bit and bits 1 to 11 of `flags`. */
  lemma MapTranslates(s: Space, d: nat, va: u32, phys: u32, flags: u32, vb: u32)
    requires Inv(s) && d in s.dirs && vb / 4096 == va / 4096
    requires Present(s.mem[d][DirIdx(va)]) || Alloc(s.frames).1 < s.frames.total
    ensures var w := Walk(MapPage(s, d, va, phys, flags), d, vb);
            && w.Some? && w.value.Address(vb) == phys / 4096 * 4096 + vb % 4096
            && w.value.pte % 2 == 1 && w.value.pte / 2 % 2048 == flags / 2 % 2048
  {
    MapChangesExactly(s, d, va, phys, flags, d, vb);
    var e := s.mem[d][DirIdx(va)];
    assert Present(e) ==> Points(s, d, DirIdx(va), FrameOf(e));
    NewEntrySpec(phys, flags);
    NewEntryFlags(phys, flags);
  }

  /** vmm_unmap_page, likewise. */
  lemma UnmapChangesExactly(s: Space, d: nat, va: u32, e: nat, vb: u32)
    requires Inv(s) && d in s.dirs && e in s.dirs
    ensures Walk(UnmapPage(s, d, va), e, vb) ==
            if vb / 4096 == va / 4096 && SharesTable(s, d, e, va) then None else Walk(s, e, vb)
  {
    if Present(s.mem[d][DirIdx(va)]) {
      var t := FrameOf(s.mem[d][DirIdx(va)]);
      assert Points(s, d, DirIdx(va), t);
      TablePokeWalks(s, d, va, 0, e, vb);
    }
  }

  /** A new directory translates like the kernel's, and no other directory changes. */
  lemma CreateCopiesKernel(s: Space, e: nat, vb: u32)
    requires Inv(s) && e in s.dirs && Alloc(s.frames).1 < s.frames.total
    ensures var (r, f) := CreateDirectory(s);
            && f !in s.dirs && r.dirs == s.dirs + {f}
            && Walk(r, f, vb) == Walk(s, s.kernel, vb) && Walk(r, e, vb) == Walk(s, e, vb)
  {
    var k, g := s.mem[s.kernel][DirIdx(vb)], s.mem[e][DirIdx(vb)];
    if Present(k) { assert Points(s, s.kernel, DirIdx(vb), FrameOf(k)); }
    if Present(g) { assert Points(s, e, DirIdx(vb), FrameOf(g)); }
  }

  /** Two directories share a table only when the kernel directory has it too. */
  lemma SharedMeansKernel(s: Space, d: nat, e: nat, va: u32)
    requires Inv(s) && d != e
    ensures SharesTable(s, d, e, va) ==> SharesTable(s, d, s.kernel, va)
  {
    if SharesTable(s, d, e, va) {
      var t: nat :| Points(s, d, DirIdx(va), t) && Points(s, e, DirIdx(va), t);
      assert Points(s, s.kernel, DirIdx(va), t);
    }
  }

  /** A slot that does not go through a kernel table is private: mapping or unmapping through it
      changes no other directory. */
  lemma PrivateSlotIsPrivate(s: Space, d: nat, va: u32, phys: u32, flags: u32, e: nat, vb: u32)
    requires Inv(s) && d in s.dirs && e in s.dirs && d != e && !SharesTable(s, d, s.kernel, va)
    ensures Walk(MapPage(s, d, va, phys, flags), e, vb) == Walk(s, e, vb)
    ensures Walk(UnmapPage(s, d, va), e, vb) == Walk(s, e, vb)
  {
    MapChangesExactly(s, d, va, phys, flags, e, vb);
    UnmapChangesExactly(s, d, va, e, vb);
    SharedMeansKernel(s, d, e, va);
  }

  // ---- vmm_init -----------------------------------------------------------------------------------

  /** A frame, present and writable, not open to ring 3. */
  function KernelEntry(f: nat): (e: u32)
    requires f < 0x10_0000
    ensures Present(e) && Writable(e) && !UserBit(e) && FrameOf(e) == f
  {
    EntryBits(f, 3);
    f * 4096 + 3
  }

  /** The first `n` entries of a table that maps its slot to the frames from `base` on. */
  function Identity(base: nat, n: nat): (p: seq<u32>)
    requires base + n <= 0x10_0000
    ensures |p| == n && forall i | 0 <= i < n :: p[i] == KernelEntry(base + i)
  {
    if n == 0 then [] else Identity(base, n - 1) + [KernelEntry(base + n - 1)]
  }

  /** Memory and directory as vmm_init leaves them: the kernel directory at frame `k`, its two tables
      at frames `p0` and `p1`. */
  ghost function InitSpace(m: seq<Page>, k: nat, p0: nat, p1: nat, frames: Frames): Space
    requires k < |m| && p0 < |m| && p1 < |m| && |m| <= 0x10_0000
  {
    var dir := Repeat<u32>(0, 1024)[0 := KernelEntry(p0)][1 := KernelEntry(p1)];
    Space(m[p0 := Identity(0, 1024)][p1 := Identity(1024, 1024)][k := dir], {k}, k, frames, {})
  }

  /** The boot tables, entry by entry. */
  ghost predicate BootTables(s: Space, k: nat, p0: nat, p1: nat) {
    && s.dirs == {k} && s.kernel == k && s.held == {} && k < |s.mem| <= 0x10_0000 && p0 < |s.mem| && p1 < |s.mem|
    && (forall i | 0 <= i < 1024 ::
          s.mem[k][i] == if i == 0 then KernelEntry(p0) else if i == 1 then KernelEntry(p1) else 0)
    && (forall i | 0 <= i < 1024 :: s.mem[p0][i] == KernelEntry(i))
    && (forall i | 0 <= i < 1024 :: s.mem[p1][i] == KernelEntry(1024 + i))
  }

  lemma InitTables(m: seq<Page>, k: nat, p0: nat, p1: nat, frames: Frames)
    requires k < |m| && p0 < |m| && p1 < |m| && |m| <= 0x10_0000 && k != p0 && k != p1 && p0 != p1
    ensures BootTables(InitSpace(m, k, p0, p1, frames), k, p0, p1)
  {
  }

  lemma BootPoints(s: Space, k: nat, p0: nat, p1: nat, d: nat, i: nat, t: nat)
    requires BootTables(s, k, p0, p1) && Points(s, d, i, t)
    ensures d == k && ((i == 0 && t == p0) || (i == 1 && t == p1))
  {
  }

  lemma InitInv(m: seq<Page>, k: nat, p0: nat, p1: nat, frames: Frames)
    requires k < |m| && p0 < |m| && p1 < |m| && |m| <= 0x10_0000 && k != p0 && k != p1 && p0 != p1
    requires k !in frames.free && p0 !in frames.free && p1 !in frames.free
    requires forall f | f in frames.free :: 0 < f < |m|
    ensures Inv(InitSpace(m, k, p0, p1, frames))
  {
    var s := InitSpace(m, k, p0, p1, frames);
    InitTables(m, k, p0, p1, frames);
    forall d, i, t: nat | Points(s, d, i, t) ensures d == k && ((i == 0 && t == p0) || (i == 1 && t == p1)) {
      BootPoints(s, k, p0, p1, d, i, t);
    }
  }

  lemma BootWalk(s: Space, k: nat, p0: nat, p1: nat, va: u32)
    requires BootTables(s, k, p0, p1)
    ensures Walk(s, k, va) == if va < 0x40_0000 then Some(Leaf(KernelEntry(p0), KernelEntry(va / 4096)))
                              else if va < 0x80_0000 then Some(Leaf(KernelEntry(p1), KernelEntry(va / 4096)))
                              else None
  {
    Indices(va, va);
    if DirIdx(va) == 0 { assert TblIdx(va) == va / 4096; }
    if DirIdx(va) == 1 { assert 1024 + TblIdx(va) == va / 4096; }
  }

  /** After vmm_init every address below 8 MB translates to itself, writable and supervisor-only, and
      no other address translates at all. */
  lemma InitIsIdentity(m: seq<Page>, k: nat, p0: nat, p1: nat, frames: Frames, va: u32)
    requires k < |m| && p0 < |m| && p1 < |m| && |m| <= 0x10_0000 && k != p0 && k != p1 && p0 != p1
    ensures var w := Walk(InitSpace(m, k, p0, p1, frames), k, va);
            if va < 0x80_0000 then w.Some? && w.value.Address(va) == va && w.value.CanWrite() && !w.value.User()
            else w.None?
  {
    InitTables(m, k, p0, p1, frames);
    BootWalk(InitSpace(m, k, p0, p1, frames), k, p0, p1, va);
  }

  /** The kernel stores into a new table or directory through its physical address. After vmm_init that
      address reaches the frame the PMM hands out next exactly when the frame lies below 8 MB. */
  lemma NextTableReachableIff(m: seq<Page>, k: nat, p0: nat, p1: nat, frames: Frames)
    requires k < |m| && p0 < |m| && p1 < |m| && |m| <= 0x10_0000 && k != p0 && k != p1 && p0 != p1
    requires Alloc(frames).1 < frames.total <= 0x10_0000
    ensures var f := Alloc(frames).1;
            var w := Walk(InitSpace(m, k, p0, p1, frames), k, 4096 * f);
            w.Some? && w.value.Address(4096 * f) == 4096 * f && w.value.CanWrite() <==> f < 2048
  {
    InitIsIdentity(m, k, p0, p1, frames, 4096 * Alloc(frames).1);
  }
}

/** kernel/mm/vmm.c itself: directories and tables in physical memory, changed in place. Directories
    and tables are named by frame number. Once vmm_init has turned paging on, every access goes through
    the directory in CR3, and a method returns false where the code would take a page fault. */
module Vmm {
  import opened Words
  import opened PmmModel
  import opened Pmm
  import opened VmmModel
  import opened VmmRuns
  import opened VmmCode

  class Vmm {
    const pmm: Pmm
    const kernelDir: nat
    var mem: seq<Page>
    var cr3: nat
    ghost var dirs: set<nat>
    ghost var held: set<nat>

    ghost function State(): Space
      reads this, pmm
    {
      Space(mem, dirs, kernelDir, pmm.State(), held)
    }

    /** What holds whatever the tables say. */
    ghost predicate Sane()
      reads this, pmm, pmm.bitmap
    {
      pmm.Valid() && 0 !in pmm.free && |mem| <= 0x10_0000
    }

    ghost predicate Valid()
      reads this, pmm, pmm.bitmap
    {
      Sane() && Inv(State()) && cr3 in dirs
    }

    /** vmm_init, with the three statically allocated pages at frames k, p0 and p1. */
    constructor Init(pmm: Pmm, memory: seq<Page>, k: nat, p0: nat, p1: nat)
      requires pmm.Valid() && |memory| <= 0x10_0000
      requires k < |memory| && p0 < |memory| && p1 < |memory| && k != p0 && k != p1 && p0 != p1
      requires k !in pmm.free && p0 !in pmm.free && p1 !in pmm.free
      requires forall f | f in pmm.free :: 0 < f < |memory|
      ensures Valid() && this.pmm == pmm
      ensures State() == InitSpace(memory, k, p0, p1, pmm.State()) && cr3 == k
    {
      this.pmm := pmm;
      kernelDir := k;
      dirs := {k};
      held := {};
      InitInv(memory, k, p0, p1, pmm.State());
      var t0 := FillIdentity(memory[p0], 0);
      var t1 := FillIdentity(memory[p1], 1024);
      var dir := ZeroFill(memory[k]);
      dir := dir[0 := KernelEntry(p0)];
      dir := dir[1 := KernelEntry(p1)];
      mem := memory[p0 := t0][p1 := t1][k := dir];
      cr3 := k;
    }

    static method FillIdentity(page: Page, base: nat) returns (p: Page)
      requires base + 1024 <= 0x10_0000
      ensures p == Identity(base, 1024)
    {
      p := page;
      var i := 0;
      while i < 1024
        invariant i <= 1024 && forall j | 0 <= j < i :: p[j] == KernelEntry(base + j)
      {
        p := p[i := KernelEntry(base + i)];
        i := i + 1;
      }
      assert forall j | 0 <= j < 1024 :: p[j] == Identity(base, 1024)[j];
    }

    static method ZeroFill(page: Page) returns (p: Page)
      ensures p == Repeat<u32>(0, 1024)
    {
      p := page;
      var i := 0;
      while i < 1024
        invariant i <= 1024 && p[..i] == Repeat<u32>(0, i)
      {
        p := p[i := 0];
        i := i + 1;
      }
    }

    /** vmm_switch_directory */
    method SwitchDirectory(d: nat)
      modifies `cr3
      ensures cr3 == d
    {
      cr3 := d;
    }

    // ---- accesses with paging on -------------------------------------------------------------------

    /** The walk the processor makes for an access to physical address 4096 * f. */
    method Translate(f: nat) returns (g: Option<nat>)
      requires Sane()
      ensures g == Target(State(), cr3, f)
    {
      if f >= 0x10_0000 || cr3 >= |mem| { return None; }
      Indices(4096 * f, 4096 * f);
      var pde := mem[cr3][DirIdx(4096 * f)];
      if !Present(pde) || FrameOf(pde) >= |mem| { return None; }
      var pte := mem[FrameOf(pde)][TblIdx(4096 * f)];
      if !Present(pte) || FrameOf(pte) >= |mem| { return None; }
      g := Some(FrameOf(pte));
    }

    method Read(f: nat, i: nat) returns (v: Option<u32>)
      requires Sane() && i < 1024
      ensures v == Load(State(), cr3, f, i)
    {
      var g := Translate(f);
      if g.None? { return None; }
      v := Some(mem[g.value][i]);
    }

    method Write(f: nat, i: nat, v: u32) returns (ok: bool)
      requires Sane() && i < 1024
      modifies `mem
      ensures Sane() && StoreAt(old(State()), cr3, f, i, v) == if ok then Done(State()) else Fault
    {
      var g := Translate(f);
      if g.None? { return false; }
      mem := Poke(mem, g.value, i, v);
      ok := true;
    }

    /** The zeroing loop of vmm_map_page. */
    method ZeroFrame(f: nat) returns (ok: bool)
      requires Sane()
      modifies `mem
      ensures Sane() && Clear(old(State()), cr3, f, 0) == if ok then Done(State()) else Fault
    {
      var i := 0;
      while i < 1024
        invariant i <= 1024 && Sane() && Clear(old(State()), cr3, f, 0) == Clear(State(), cr3, f, i)
      {
        ok := Write(f, i, 0);
        if !ok { return; }
        i := i + 1;
      }
      ok := true;
    }

    /** The copying loop of vmm_create_user_directory. */
    method CopyDirectory(from: nat, f: nat) returns (ok: bool)
      requires Sane()
      modifies `mem
      ensures Sane() && Copy(old(State()), cr3, from, f, 0) == if ok then Done(State()) else Fault
    {
      var i := 0;
      while i < 1024
        invariant i <= 1024 && Sane() && Copy(old(State()), cr3, from, f, 0) == Copy(State(), cr3, from, f, i)
      {
        var v := Read(from, i);
        if v.None? { return false; }
        ok := Write(f, i, v.value);
        if !ok { return; }
        i := i + 1;
      }
      ok := true;
    }

    /** The frame number pmm_alloc_page returns, 0 for NULL (frame 0 is never free). */
    method AllocFrame() returns (f: nat)
      requires Sane()
      modifies pmm`usedPages, pmm`free, pmm.bitmap
      ensures Sane() && f < 0x10_0000
      ensures var (s, g) := Alloc(old(pmm.State()));
              pmm.State() == s && f == if g == pmm.totalPages then 0 else g
    {
      var p := pmm.AllocPage();
      f := p / 4096;
    }

    // ---- the calls ---------------------------------------------------------------------------------

    /** Get or create the page table for a directory slot; None when there is no frame for one. */
    method TableFor(d: nat, virt: u32) returns (ok: bool, pt: Option<nat>)
      requires Sane()
      modifies `mem, pmm`usedPages, pmm`free, pmm.bitmap
      ensures Sane()
      ensures CodeTable(old(State()), cr3, d, virt) ==
              if !ok then TableFault else if pt.None? then NoFrame else Table(State(), pt.value)
      ensures ok && pt.None? ==> State() == old(State())
    {
      Indices(virt, virt);
      var e := Read(d, DirIdx(virt));
      if e.None? { return false, None; }
      if Present(e.value) { return true, Some(FrameOf(e.value)); }
      var f := AllocFrame();
      if f == 0 { return true, None; }
      ok := ZeroFrame(f);
      if !ok { return false, None; }
      ok := Write(d, DirIdx(virt), TableEntry(f));
      pt := Some(f);
    }

    /** vmm_map_page; it makes the step of the model when the frames it dereferences are reached. */
    method MapPage(d: nat, virt: u32, phys: u32, flags: u32) returns (ok: bool)
      requires Sane()
      modifies `mem, pmm`usedPages, pmm`free, pmm.bitmap
      ensures Sane() && CodeMap(old(State()), cr3, d, virt, phys, flags) == if ok then Done(State()) else Fault
      ensures old(Valid()) && d in dirs
              && (forall f | f in Derefs(old(State()), Map(d, virt, phys, flags)) :: Reached(old(State()), cr3, f)) ==>
                ok && Valid() && State() == VmmModel.MapPage(old(State()), d, virt, phys, flags)
    {
      ghost var s := State();
      Indices(virt, virt);
      var pt;
      ok, pt := TableFor(d, virt);
      if ok && pt.Some? { ok := Write(pt.value, TblIdx(virt), NewEntry(phys, flags)); }
      assert CodeMap(s, cr3, d, virt, phys, flags) == if ok then Done(State()) else Fault;
      MapFollows(s, cr3, d, virt, phys, flags);
    }

    /** vmm_unmap_page, likewise. */
    method UnmapPage(d: nat, virt: u32) returns (ok: bool)
      requires Sane()
      modifies `mem
      ensures Sane() && CodeUnmap(old(State()), cr3, d, virt) == if ok then Done(State()) else Fault
      ensures old(Valid()) && d in dirs
              && (forall f | f in Derefs(old(State()), Unmap(d, virt)) :: Reached(old(State()), cr3, f)) ==>
                ok && Valid() && State() == VmmModel.UnmapPage(old(State()), d, virt)
    {
      ghost var s := State();
      Indices(virt, virt);
      UnmapFollows(s, cr3, d, virt);
      var e := Read(d, DirIdx(virt));
      if e.None? { return false; }
      ok := true;
      if Present(e.value) { ok := Write(FrameOf(e.value), TblIdx(virt), 0); }
    }

    /** vmm_create_user_directory: the new directory's frame, or 0 for NULL. */
    method CreateUserDirectory() returns (ok: bool, d: nat)
      requires Sane()
      modifies `mem, `dirs, pmm`usedPages, pmm`free, pmm.bitmap
      ensures Sane() && CodeNewDirectory(old(State()), cr3) == if ok then Done(State()) else Fault
      ensures ok ==> d == if Alloc(old(pmm.State())).1 == pmm.totalPages then 0 else Alloc(old(pmm.State())).1
      ensures old(Valid()) && (forall f | f in Derefs(old(State()), NewDirectory) :: Reached(old(State()), cr3, f)) ==>
                ok && Valid() && State() == CreateDirectory(old(State())).0
    {
      ghost var s := State();
      NewDirectoryFollows(s, cr3);
      d := AllocFrame();
      if d == 0 { return true, 0; }
      ok := CopyDirectory(kernelDir, d);
      if ok { dirs := dirs + {d}; }
    }
  }

  lemma MapFollows(s: Space, c: nat, d: nat, va: u32, phys: u32, flags: u32)
    ensures Inv(s) && c in s.dirs && d in s.dirs && (forall f | f in Derefs(s, Map(d, va, phys, flags)) :: Reached(s, c, f)) ==>
              && CodeMap(s, c, d, va, phys, flags) == Done(VmmModel.MapPage(s, d, va, phys, flags))
              && Inv(VmmModel.MapPage(s, d, va, phys, flags))
              && VmmModel.MapPage(s, d, va, phys, flags).dirs == s.dirs
  {
    if Inv(s) && c in s.dirs && d in s.dirs && forall f | f in Derefs(s, Map(d, va, phys, flags)) :: Reached(s, c, f) {
      MapCode(s, c, d, va, phys, flags);
      MapPageInv(s, d, va, phys, flags);
    }
  }

  lemma UnmapFollows(s: Space, c: nat, d: nat, va: u32)
    ensures Inv(s) && c in s.dirs && d in s.dirs && (forall f | f in Derefs(s, Unmap(d, va)) :: Reached(s, c, f)) ==>
              && CodeUnmap(s, c, d, va) == Done(VmmModel.UnmapPage(s, d, va))
              && Inv(VmmModel.UnmapPage(s, d, va)) && VmmModel.UnmapPage(s, d, va).dirs == s.dirs
  {
    if Inv(s) && c in s.dirs && d in s.dirs && forall f | f in Derefs(s, Unmap(d, va)) :: Reached(s, c, f) {
      UnmapCode(s, c, d, va);
      UnmapPageInv(s, d, va);
    }
  }

  lemma NewDirectoryFollows(s: Space, c: nat)
    ensures Inv(s) && c in s.dirs && (forall f | f in Derefs(s, NewDirectory) :: Reached(s, c, f)) ==>
              && CodeNewDirectory(s, c) == Done(CreateDirectory(s).0)
              && Inv(CreateDirectory(s).0) && s.dirs <= CreateDirectory(s).0.dirs
  {
    if Inv(s) && c in s.dirs && forall f | f in Derefs(s, NewDirectory) :: Reached(s, c, f) {
      NewDirectoryCode(s, c);
      CreateDirectoryInv(s);
    }
  }

  /** pmm_init, then vmm_init, on memory that the bitmap covers: the state the runs start from. */
  method BootMemory(b: BootInfo, kernelStart: u32, kernelEnd: u32, memory: seq<Page>, k: nat, p0: nat, p1: nat)
    returns (vmm: Vmm)
    requires b.mapKnown ==> WellFormed(b)
    requires StaticPages(kernelStart, kernelEnd, k, p0, p1) && PAGES_MAX <= |memory| <= 0x10_0000
    ensures vmm.Valid() && vmm.State() == Boot(b, kernelStart, kernelEnd, memory, k, p0, p1) && vmm.cr3 == k
  {
    var pmm := new Pmm.Init(b, kernelStart, kernelEnd);
    BootFreeInBitmap(b, kernelStart, kernelEnd);
    assert {k, p0, p1} <= KernelPages(kernelStart, kernelEnd);
    vmm := new Vmm.Init(pmm, memory, k, p0, p1);
  }
}

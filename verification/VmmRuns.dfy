/** Runs of the paging code together with the other clients of the frame allocator, and the flat page
    maps they refine. */
module VmmRuns {
  import opened Words
  import opened PmmModel
  import opened VmmModel

  // ---- runs -----------------------------------------------------------------------------------

  /** The paging calls, and what any other client of the PMM may do: take a frame, store into one it
      holds, give it back. */
  datatype Op = Map(d: nat, va: u32, phys: u32, flags: u32) | Unmap(d: nat, va: u32) | NewDirectory
              | Take | Store(f: nat, i: nat, v: u32) | Give(f: nat)

  ghost predicate Enabled(s: Space, op: Op) {
    match op
    case Map(d, _, _, _) => d in s.dirs
    case Unmap(d, _) => d in s.dirs
    case Store(f, i, _) => f in s.held && i < 1024
    case Give(f) => f in s.held
    case _ => true
  }

  ghost function TakeFrame(s: Space): (r: Space)
    requires Inv(s)
    ensures Inv(r)
  {
    var (frames, f) := Alloc(s.frames);
    if f == s.frames.total then s else
      var r := s.(frames := frames, held := s.held + {f});
      assert forall d, i, t: nat :: Points(r, d, i, t) == Points(s, d, i, t);
      r
  }

  ghost function StoreWord(s: Space, f: nat, i: nat, v: u32): (r: Space)
    requires Inv(s) && f in s.held && i < 1024
    ensures Inv(r)
  {
    TablePokeInv(s, f, i, v);
    s.(mem := Poke(s.mem, f, i, v))
  }

  ghost function GiveFrame(s: Space, f: nat): (r: Space)
    requires Inv(s) && f in s.held
    ensures Inv(r)
  {
    var r := s.(frames := Release(s.frames, f), held := s.held - {f});
    assert forall d, i, t: nat :: Points(r, d, i, t) == Points(s, d, i, t);
    r
  }

  ghost function Step(s: Space, op: Op): (r: Space)
    requires Inv(s) && Enabled(s, op)
    ensures Inv(r)
  {
    match op
    case Map(d, va, phys, flags) => MapPageInv(s, d, va, phys, flags); MapPage(s, d, va, phys, flags)
    case Unmap(d, va) => UnmapPageInv(s, d, va); UnmapPage(s, d, va)
    case NewDirectory => CreateDirectoryInv(s); CreateDirectory(s).0
    case Take => TakeFrame(s)
    case Store(f, i, v) => StoreWord(s, f, i, v)
    case Give(f) => GiveFrame(s, f)
  }

  ghost predicate Legal(s: Space, ops: seq<Op>)
    requires Inv(s)
    decreases |ops|
  {
    ops == [] || (Enabled(s, ops[0]) && Legal(Step(s, ops[0]), ops[1..]))
  }

  ghost function Run(s: Space, ops: seq<Op>): (r: Space)
    requires Inv(s) && Legal(s, ops)
    ensures Inv(r)
    decreases |ops|
  {
    if ops == [] then s else Run(Step(s, ops[0]), ops[1..])
  }

  /** After any run, in any directory, no address below 8 MB is open to ring 3, whatever was mapped. */
  lemma LowMemoryStaysSupervisor(s: Space, ops: seq<Op>, d: nat, va: u32)
    requires Inv(s) && Legal(s, ops) && d in Run(s, ops).dirs && va < 0x80_0000
    ensures Walk(Run(s, ops), d, va).Some? ==> !Walk(Run(s, ops), d, va).value.User()
  {
    var r := Run(s, ops);
    assert DirIdx(va) == 0 || DirIdx(va) == 1;
    assert Supervisor(r.mem[r.kernel][0]) && Supervisor(r.mem[r.kernel][1]);
  }

  // ---- the flat machine -------------------------------------------------------------------------

  /** Entry `index` of directory or region `owner`. */
  datatype Key = Key(owner: nat, index: nat)

  /** What an entry grants: a frame, and who may use it how. */
  datatype Grant = Grant(frame: nat, writable: bool, user: bool)

  /** No memory, no words, no bits. `slots` says which 4 MB region a directory shows in each slot, and
      `pages` what each page of a region grants. Regions are shared by naming them. */
  datatype Flat = Flat(slots: imap<Key, Grant>, pages: imap<Key, Grant>,
                       dirs: set<nat>, kernel: nat, frames: Frames, held: set<nat>)

  /** What directory `d` shows at `va`. */
  ghost function Lookup(m: Flat, d: nat, va: u32): Option<Grant> {
    var k := Key(d, DirIdx(va));
    if k !in m.slots then None else
      var p := Key(m.slots[k].frame, TblIdx(va));
      if p !in m.pages then None else
        Some(Grant(m.pages[p].frame, m.slots[k].writable && m.pages[p].writable, m.slots[k].user && m.pages[p].user))
  }

  /** Give the slot of `va` in `d` an empty region of its own, if it has none and a name is left. */
  ghost function FlatRegion(m: Flat, d: nat, va: u32): Flat {
    var k := Key(d, DirIdx(va));
    var (frames, f) := Alloc(m.frames);
    if k in m.slots || f == m.frames.total then m
    else m.(slots := m.slots[k := Grant(f, true, true)], frames := frames)
  }

  ghost function FlatMap(m: Flat, d: nat, va: u32, g: Grant): Flat {
    var n, k := FlatRegion(m, d, va), Key(d, DirIdx(va));
    if k !in n.slots then n else n.(pages := n.pages[Key(n.slots[k].frame, TblIdx(va)) := g])
  }

  ghost function Erased(pages: imap<Key, Grant>, k: Key): imap<Key, Grant> {
    imap x: Key | x in pages && x != k :: pages[x]
  }

  ghost function FlatUnmap(m: Flat, d: nat, va: u32): Flat {
    var k := Key(d, DirIdx(va));
    if k !in m.slots then m else m.(pages := Erased(m.pages, Key(m.slots[k].frame, TblIdx(va))))
  }

  /** The slots of a directory `f` that shows what directory `d` shows. */
  ghost function Copied(slots: imap<Key, Grant>, d: nat, f: nat): imap<Key, Grant> {
    imap k: Key | (k.owner == f && Key(d, k.index) in slots) || (k.owner != f && k in slots) ::
      if k.owner == f then slots[Key(d, k.index)] else slots[k]
  }

  ghost function FlatStep(m: Flat, op: Op): Flat {
    match op
    case Map(d, va, phys, flags) => FlatMap(m, d, va, Grant(phys / 4096, Writable(flags), UserBit(flags)))
    case Unmap(d, va) => FlatUnmap(m, d, va)
    case NewDirectory =>
      var (frames, f) := Alloc(m.frames);
      if f == m.frames.total then m
      else m.(slots := Copied(m.slots, m.kernel, f), dirs := m.dirs + {f}, frames := frames)
    case Take =>
      var (frames, f) := Alloc(m.frames);
      if f == m.frames.total then m else m.(frames := frames, held := m.held + {f})
    case Store(_, _, _) => m
    case Give(f) => m.(frames := Release(m.frames, f), held := m.held - {f})
  }

  ghost function FlatRun(m: Flat, ops: seq<Op>): Flat
    decreases |ops|
  {
    if ops == [] then m else FlatRun(FlatStep(m, ops[0]), ops[1..])
  }

  // ---- what the tables in memory stand for --------------------------------------------------------

  function Decode(e: u32): Grant {
    Grant(FrameOf(e), Writable(e), UserBit(e))
  }

  ghost predicate IsTable(s: Space, t: nat) {
    exists d, i: nat :: Points(s, d, i, t)
  }

  ghost predicate HasSlot(s: Space, k: Key) {
    k.owner in s.dirs && k.owner < |s.mem| && k.index < 1024 && Present(s.mem[k.owner][k.index])
  }

  ghost predicate HasPage(s: Space, k: Key) {
    IsTable(s, k.owner) && k.owner < |s.mem| && k.index < 1024 && Present(s.mem[k.owner][k.index])
  }

  ghost function Slots(s: Space): imap<Key, Grant> {
    imap k: Key | HasSlot(s, k) :: Decode(s.mem[k.owner][k.index])
  }

  ghost function Pages(s: Space): imap<Key, Grant> {
    imap k: Key | HasPage(s, k) :: Decode(s.mem[k.owner][k.index])
  }

  ghost function Abs(s: Space): Flat {
    Flat(Slots(s), Pages(s), s.dirs, s.kernel, s.frames, s.held)
  }

  /** What the hardware walk grants at `va`. */
  ghost function Seen(s: Space, d: nat, va: u32): Option<Grant> {
    match Walk(s, d, va)
    case None => None
    case Some(leaf) => Some(Grant(FrameOf(leaf.pte), leaf.CanWrite(), leaf.User()))
  }

  /** The walk through two levels of memory is the lookup in the flat maps. */
  lemma WalkIsLookup(s: Space, d: nat, va: u32)
    requires Inv(s) && d in s.dirs
    ensures Seen(s, d, va) == Lookup(Abs(s), d, va)
  {
    Indices(va, va);
    var k, pde := Key(d, DirIdx(va)), s.mem[d][DirIdx(va)];
    assert HasSlot(s, k) == Present(pde);
    if Present(pde) {
      assert Points(s, d, DirIdx(va), FrameOf(pde));
      assert IsTable(s, FrameOf(pde));
    }
  }

  // ---- every step refines a flat step ---------------------------------------------------------------

  /** Storing into a frame that is no directory changes no slot and no table. */
  lemma PokeKeepsTables(s: Space, t: nat, j: nat, v: u32)
    requires t < |s.mem| && t !in s.dirs && j < 1024
    ensures var r := s.(mem := Poke(s.mem, t, j, v));
            Slots(r) == Slots(s) && forall u: nat :: IsTable(r, u) == IsTable(s, u)
  {
    var r := s.(mem := Poke(s.mem, t, j, v));
    assert forall e | e in s.dirs && e < |s.mem| :: r.mem[e] == s.mem[e];
    assert forall e, i, u: nat :: Points(r, e, i, u) == Points(s, e, i, u);
    assert forall k: Key :: HasSlot(r, k) == HasSlot(s, k);
  }

  lemma PokePage(s: Space, t: nat, j: nat, v: u32, k: Key)
    requires t < |s.mem| && t !in s.dirs && j < 1024 && IsTable(s, t)
    ensures var r := s.(mem := Poke(s.mem, t, j, v));
            && (HasPage(r, k) <==> if k == Key(t, j) then Present(v) else HasPage(s, k))
            && (HasPage(r, k) ==> r.mem[k.owner][k.index] == if k == Key(t, j) then v else s.mem[k.owner][k.index])
  {
    PokeKeepsTables(s, t, j, v);
  }

  lemma PokeWrites(s: Space, t: nat, j: nat, v: u32)
    requires t < |s.mem| && t !in s.dirs && j < 1024 && IsTable(s, t) && Present(v)
    ensures Pages(s.(mem := Poke(s.mem, t, j, v))) == Pages(s)[Key(t, j) := Decode(v)]
  {
    var r := s.(mem := Poke(s.mem, t, j, v));
    forall k: Key
      ensures HasPage(r, k) <==> k == Key(t, j) || HasPage(s, k)
      ensures HasPage(r, k) ==> r.mem[k.owner][k.index] == if k == Key(t, j) then v else s.mem[k.owner][k.index]
    {
      PokePage(s, t, j, v, k);
    }
  }

  lemma PokeErases(s: Space, t: nat, j: nat)
    requires t < |s.mem| && t !in s.dirs && j < 1024 && IsTable(s, t)
    ensures Pages(s.(mem := Poke(s.mem, t, j, 0))) == Erased(Pages(s), Key(t, j))
  {
    var r := s.(mem := Poke(s.mem, t, j, 0));
    forall k: Key
      ensures HasPage(r, k) <==> k != Key(t, j) && HasPage(s, k)
      ensures HasPage(r, k) ==> r.mem[k.owner][k.index] == s.mem[k.owner][k.index]
    {
      PokePage(s, t, j, 0, k);
    }
  }

  lemma FreshRegion(s: Space, d: nat, va: u32)
    requires Inv(s) && d in s.dirs && !Present(s.mem[d][DirIdx(va)]) && Alloc(s.frames).1 < s.frames.total
    ensures var r, f := WithTable(s, d, va), Alloc(s.frames).1;
            forall u: nat :: IsTable(r, u) <==> IsTable(s, u) || u == f
  {
    var r, f := WithTable(s, d, va), Alloc(s.frames).1;
    Indices(va, va);
    assert Points(r, d, DirIdx(va), f);
    forall e, i, u: nat | Points(s, e, i, u) ensures Points(r, e, i, u) {}
    forall e, i, u: nat | Points(r, e, i, u) ensures u == f || Points(s, e, i, u) { FreshPoints(s, d, va, e, i, u); }
  }

  lemma FreshRegionSlot(s: Space, d: nat, va: u32, k: Key)
    requires Inv(s) && d in s.dirs && !Present(s.mem[d][DirIdx(va)]) && Alloc(s.frames).1 < s.frames.total
    ensures var r, f := WithTable(s, d, va), Alloc(s.frames).1;
            && f < 0x10_0000
            && (HasSlot(r, k) <==> k == Key(d, DirIdx(va)) || HasSlot(s, k))
            && (HasSlot(r, k) ==> r.mem[k.owner][k.index] ==
                                  if k == Key(d, DirIdx(va)) then TableEntry(f) else s.mem[k.owner][k.index])
  {
    Indices(va, va);
  }

  lemma TableFacts(s: Space, t: nat)
    requires Inv(s) && IsTable(s, t)
    ensures t < |s.mem| && t !in s.dirs && t !in s.frames.free && t !in s.held
  {
    var d, i: nat :| Points(s, d, i, t);
  }

  /** Only the directory and the fresh table are stored into; the table is empty. */
  lemma FreshMemory(s: Space, d: nat, va: u32)
    requires Inv(s) && d in s.dirs && !Present(s.mem[d][DirIdx(va)]) && Alloc(s.frames).1 < s.frames.total
    ensures var r, f := WithTable(s, d, va), Alloc(s.frames).1;
            && |r.mem| == |s.mem| && f < |s.mem| && f in s.frames.free && f != d
            && (forall x | 0 <= x < |s.mem| && x != d && x != f :: r.mem[x] == s.mem[x])
            && (forall i | 0 <= i < 1024 :: r.mem[f][i] == 0)
  {
  }

  lemma FreshRegionPage(s: Space, d: nat, va: u32, k: Key)
    requires Inv(s) && d in s.dirs && !Present(s.mem[d][DirIdx(va)]) && Alloc(s.frames).1 < s.frames.total
    ensures var r := WithTable(s, d, va);
            && (HasPage(r, k) <==> HasPage(s, k))
            && (HasPage(r, k) ==> r.mem[k.owner][k.index] == s.mem[k.owner][k.index])
  {
    FreshRegion(s, d, va);
    FreshMemory(s, d, va);
    if IsTable(s, k.owner) { TableFacts(s, k.owner); }
    FreshPageIn(s, WithTable(s, d, va), d, Alloc(s.frames).1, k);
  }

  lemma FreshPageIn(s: Space, r: Space, d: nat, f: nat, k: Key)
    requires |r.mem| == |s.mem| && f < |s.mem|
    requires forall x | 0 <= x < |s.mem| && x != d && x != f :: r.mem[x] == s.mem[x]
    requires forall i | 0 <= i < 1024 :: r.mem[f][i] == 0
    requires IsTable(r, k.owner) <==> IsTable(s, k.owner) || k.owner == f
    requires IsTable(s, k.owner) ==> k.owner != d && k.owner != f
    ensures HasPage(r, k) <==> HasPage(s, k)
    ensures HasPage(r, k) ==> r.mem[k.owner][k.index] == s.mem[k.owner][k.index]
  {
  }

  /** Hanging in a fresh table is giving the slot an empty region. */
  lemma FreshAbs(s: Space, d: nat, va: u32)
    requires Inv(s) && d in s.dirs && !Present(s.mem[d][DirIdx(va)]) && Alloc(s.frames).1 < s.frames.total
    ensures var r, f := WithTable(s, d, va), Alloc(s.frames).1;
            Slots(r) == Slots(s)[Key(d, DirIdx(va)) := Grant(f, true, true)] && Pages(r) == Pages(s)
  {
    var r, f, k0 := WithTable(s, d, va), Alloc(s.frames).1, Key(d, DirIdx(va));
    forall k: Key
      ensures HasSlot(r, k) <==> k == k0 || HasSlot(s, k)
      ensures HasSlot(r, k) ==> Decode(r.mem[k.owner][k.index]) ==
                                if k == k0 then Grant(f, true, true) else Decode(s.mem[k.owner][k.index])
    {
      FreshRegionSlot(s, d, va, k);
    }
    forall k: Key
      ensures HasPage(r, k) <==> HasPage(s, k)
      ensures HasPage(r, k) ==> r.mem[k.owner][k.index] == s.mem[k.owner][k.index]
    {
      FreshRegionPage(s, d, va, k);
    }
  }

  lemma WithTableAbs(s: Space, d: nat, va: u32)
    requires Inv(s) && d in s.dirs
    ensures Abs(WithTable(s, d, va)) == FlatRegion(Abs(s), d, va)
  {
    Indices(va, va);
    assert HasSlot(s, Key(d, DirIdx(va))) == Present(s.mem[d][DirIdx(va)]);
    if !Present(s.mem[d][DirIdx(va)]) && Alloc(s.frames).1 < s.frames.total { FreshAbs(s, d, va); }
  }

  lemma MapAbs(s: Space, d: nat, va: u32, phys: u32, flags: u32)
    requires Inv(s) && d in s.dirs
    ensures Abs(MapPage(s, d, va, phys, flags)) == FlatStep(Abs(s), Map(d, va, phys, flags))
  {
    var s1, k := WithTable(s, d, va), Key(d, DirIdx(va));
    Indices(va, va);
    WithTableInv(s, d, va);
    WithTableAbs(s, d, va);
    var pde := s1.mem[d][DirIdx(va)];
    assert HasSlot(s1, k) == Present(pde);
    if Present(pde) {
      assert Points(s1, d, DirIdx(va), FrameOf(pde));
      NewEntrySpec(phys, flags);
      PokeKeepsTables(s1, FrameOf(pde), TblIdx(va), NewEntry(phys, flags));
      PokeWrites(s1, FrameOf(pde), TblIdx(va), NewEntry(phys, flags));
    }
  }

  lemma UnmapAbs(s: Space, d: nat, va: u32)
    requires Inv(s) && d in s.dirs
    ensures Abs(UnmapPage(s, d, va)) == FlatUnmap(Abs(s), d, va)
  {
    Indices(va, va);
    var pde := s.mem[d][DirIdx(va)];
    assert HasSlot(s, Key(d, DirIdx(va))) == Present(pde);
    if Present(pde) {
      assert Points(s, d, DirIdx(va), FrameOf(pde));
      PokeKeepsTables(s, FrameOf(pde), TblIdx(va), 0);
      PokeErases(s, FrameOf(pde), TblIdx(va));
    }
  }

  lemma NewDirectoryTables(s: Space, u: nat)
    requires Inv(s) && Alloc(s.frames).1 < s.frames.total
    ensures IsTable(CreateDirectory(s).0, u) <==> IsTable(s, u)
  {
    var r := CreateDirectory(s).0;
    if IsTable(s, u) {
      var e, i: nat :| Points(s, e, i, u);
      assert Points(r, e, i, u);
    }
    if IsTable(r, u) {
      var e, i: nat :| Points(r, e, i, u);
      CreatePoints(s, e, i, u);
    }
  }

  lemma NewDirectoryAbs(s: Space)
    requires Inv(s)
    ensures Abs(CreateDirectory(s).0) == FlatStep(Abs(s), NewDirectory)
  {
    var (r, f) := CreateDirectory(s);
    if f < s.frames.total {
      NewDirectorySlots(s);
      NewDirectoryPages(s);
    }
  }

  lemma NewDirectoryPages(s: Space)
    requires Inv(s) && Alloc(s.frames).1 < s.frames.total
    ensures Pages(CreateDirectory(s).0) == Pages(s)
  {
    var (r, f) := CreateDirectory(s);
    forall u: nat ensures IsTable(r, u) <==> IsTable(s, u) { NewDirectoryTables(s, u); }
    forall u: nat ensures IsTable(s, u) ==> u != f {}
    assert forall k: Key :: HasPage(r, k) == HasPage(s, k);
  }

  lemma NewDirectorySlots(s: Space)
    requires Inv(s) && Alloc(s.frames).1 < s.frames.total
    ensures Slots(CreateDirectory(s).0) == Copied(Slots(s), s.kernel, Alloc(s.frames).1)
  {
    var (r, f) := CreateDirectory(s);
    forall k: Key
      ensures HasSlot(r, k) <==> if k.owner == f then HasSlot(s, Key(s.kernel, k.index)) else HasSlot(s, k)
      ensures HasSlot(r, k) ==> r.mem[k.owner][k.index] == s.mem[if k.owner == f then s.kernel else k.owner][k.index]
    {
    }
  }

  /** Stores into a held frame are invisible to every directory. */
  lemma StoreAbs(s: Space, f: nat, i: nat, v: u32)
    requires Inv(s) && f in s.held && i < 1024
    ensures Abs(StoreWord(s, f, i, v)) == Abs(s)
  {
    var r := StoreWord(s, f, i, v);
    PokeKeepsTables(s, f, i, v);
    forall t: nat ensures IsTable(s, t) ==> t != f {}
    assert forall k: Key :: HasPage(r, k) == HasPage(s, k);
    assert Pages(r) == Pages(s);
  }

  lemma SamePoints(s: Space, r: Space)
    requires r.mem == s.mem && r.dirs == s.dirs
    ensures Slots(r) == Slots(s) && Pages(r) == Pages(s)
  {
    assert forall d, i, t: nat :: Points(r, d, i, t) == Points(s, d, i, t);
    assert forall t: nat :: IsTable(r, t) == IsTable(s, t);
  }

  lemma StepAbs(s: Space, op: Op)
    requires Inv(s) && Enabled(s, op)
    ensures Abs(Step(s, op)) == FlatStep(Abs(s), op)
  {
    match op
    case Map(d, va, phys, flags) => MapAbs(s, d, va, phys, flags);
    case Unmap(d, va) => UnmapAbs(s, d, va);
    case NewDirectory => NewDirectoryAbs(s);
    case Take => SamePoints(s, TakeFrame(s));
    case Store(f, i, v) => StoreAbs(s, f, i, v);
    case Give(f) => SamePoints(s, GiveFrame(s, f));
  }

  lemma {:induction false} RunAbs(s: Space, ops: seq<Op>)
    requires Inv(s) && Legal(s, ops)
    ensures Abs(Run(s, ops)) == FlatRun(Abs(s), ops)
    decreases |ops|
  {
    if ops != [] {
      StepAbs(s, ops[0]);
      RunAbs(Step(s, ops[0]), ops[1..]);
    }
  }

  /** Over every run, for every directory there is and every address, the two-level walk through memory
      grants exactly what the flat page maps, updated one page at a time, hold. The steps of these runs
      store at physical addresses; VmmLow says on which runs the code, whose accesses are translated,
      makes them. */
  lemma RunIsFlatMap(s: Space, ops: seq<Op>, d: nat, va: u32)
    requires Inv(s) && Legal(s, ops) && d in Run(s, ops).dirs
    ensures Seen(Run(s, ops), d, va) == Lookup(FlatRun(Abs(s), ops), d, va)
  {
    RunAbs(s, ops);
    WalkIsLookup(Run(s, ops), d, va);
  }

  // ---- every frame, from boot on --------------------------------------------------------------------

  ghost predicate InPaging(s: Space, f: nat) {
    f in s.dirs || IsTable(s, f)
  }

  /** Frame `f` is free, held, a directory or a table. */
  ghost predicate Accounted(s: Space, f: nat) {
    f in s.frames.free || f in s.held || InPaging(s, f)
  }

  /** From s to r: no frame appears or disappears, and directories and tables stay. */
  ghost predicate Accounts(s: Space, r: Space, f: nat) {
    (Accounted(r, f) <==> Accounted(s, f)) && (InPaging(s, f) ==> InPaging(r, f))
  }

  lemma MapAccounts(s: Space, d: nat, va: u32, phys: u32, flags: u32, f: nat)
    requires Inv(s) && d in s.dirs
    ensures Accounts(s, MapPage(s, d, va, phys, flags), f)
  {
    var s1 := WithTable(s, d, va);
    Indices(va, va);
    WithTableInv(s, d, va);
    if !Present(s.mem[d][DirIdx(va)]) && Alloc(s.frames).1 < s.frames.total { FreshRegion(s, d, va); }
    var pde := s1.mem[d][DirIdx(va)];
    if Present(pde) {
      assert Points(s1, d, DirIdx(va), FrameOf(pde));
      PokeKeepsTables(s1, FrameOf(pde), TblIdx(va), NewEntry(phys, flags));
    }
  }

  lemma UnmapAccounts(s: Space, d: nat, va: u32, f: nat)
    requires Inv(s) && d in s.dirs
    ensures Accounts(s, UnmapPage(s, d, va), f)
  {
    Indices(va, va);
    var pde := s.mem[d][DirIdx(va)];
    if Present(pde) {
      assert Points(s, d, DirIdx(va), FrameOf(pde));
      PokeKeepsTables(s, FrameOf(pde), TblIdx(va), 0);
    }
  }

  lemma SameTables(s: Space, r: Space, f: nat)
    requires r.mem == s.mem && r.dirs == s.dirs
    ensures IsTable(r, f) == IsTable(s, f)
  {
    assert forall d, i: nat :: Points(r, d, i, f) == Points(s, d, i, f);
  }

  lemma StepAccounts(s: Space, op: Op, f: nat)
    requires Inv(s) && Enabled(s, op)
    ensures Accounts(s, Step(s, op), f)
  {
    match op
    case Map(d, va, phys, flags) => MapAccounts(s, d, va, phys, flags, f);
    case Unmap(d, va) => UnmapAccounts(s, d, va, f);
    case NewDirectory => if Alloc(s.frames).1 < s.frames.total { NewDirectoryTables(s, f); }
    case Take => SameTables(s, TakeFrame(s), f);
    case Store(t, i, v) => PokeKeepsTables(s, t, i, v);
    case Give(t) => SameTables(s, GiveFrame(s, t), f);
  }

  lemma {:induction false} RunAccounts(s: Space, ops: seq<Op>, f: nat)
    requires Inv(s) && Legal(s, ops)
    ensures Accounts(s, Run(s, ops), f)
    decreases |ops|
  {
    if ops != [] {
      StepAccounts(s, ops[0], f);
      RunAccounts(Step(s, ops[0]), ops[1..], f);
    }
  }

  /** The three static pages at frames k, p0 and p1 are distinct pages of the kernel image. */
  ghost predicate StaticPages(kstart: u32, kend: u32, k: nat, p0: nat, p1: nat) {
    {k, p0, p1} <= KernelPages(kstart, kend) && k != p0 && k != p1 && p0 != p1
  }

  /** The state that pmm_init and vmm_init leave, in memory that the bitmap covers. */
  ghost function Boot(b: BootInfo, kstart: u32, kend: u32, m: seq<Page>, k: nat, p0: nat, p1: nat): (s: Space)
    requires StaticPages(kstart, kend, k, p0, p1) && PAGES_MAX <= |m| <= 0x10_0000
    ensures Inv(s)
  {
    BootFreeInBitmap(b, kstart, kend);
    assert k in KernelPages(kstart, kend) && p0 in KernelPages(kstart, kend) && p1 in KernelPages(kstart, kend);
    InitInv(m, k, p0, p1, Frames(BootFree(b, kstart, kend), TotalPages(b)));
    InitSpace(m, k, p0, p1, Frames(BootFree(b, kstart, kend), TotalPages(b)))
  }

  lemma BootAccounts(b: BootInfo, kstart: u32, kend: u32, m: seq<Page>, k: nat, p0: nat, p1: nat, f: nat)
    requires StaticPages(kstart, kend, k, p0, p1) && PAGES_MAX <= |m| <= 0x10_0000
    ensures var s := Boot(b, kstart, kend, m, k, p0, p1);
            && (Accounted(s, f) <==> f in BootFree(b, kstart, kend) || f in {k, p0, p1})
            && (InPaging(s, f) <==> f in {k, p0, p1})
  {
    var s := Boot(b, kstart, kend, m, k, p0, p1);
    assert k in KernelPages(kstart, kend) && p0 in KernelPages(kstart, kend) && p1 in KernelPages(kstart, kend);
    InitTables(m, k, p0, p1, s.frames);
    assert Points(s, k, 0, p0) && Points(s, k, 1, p1);
    if IsTable(s, f) {
      var d, i: nat :| Points(s, d, i, f);
      BootPoints(s, k, p0, p1, d, i, f);
    }
  }

  /** From pmm_init and vmm_init on, through every run of the paging code and of the other clients: the
      free frames, the held ones, the directories and the tables are together exactly what boot left
      free and the three static pages, and each frame is only one of these. So whatever the PMM hands
      out next is none of them in use, not page 0, and no page of the kernel image. */
  lemma EveryFrameAccountedFor(b: BootInfo, kstart: u32, kend: u32, m: seq<Page>, k: nat, p0: nat, p1: nat,
                               ops: seq<Op>, f: nat)
    requires StaticPages(kstart, kend, k, p0, p1) && PAGES_MAX <= |m| <= 0x10_0000
    ensures var s := Boot(b, kstart, kend, m, k, p0, p1);
            Legal(s, ops) ==>
              var r := Run(s, ops);
              && (Accounted(r, f) <==> f in BootFree(b, kstart, kend) || f in {k, p0, p1})
              && (f in r.frames.free ==> f !in r.held && f !in r.dirs && !IsTable(r, f))
              && (f in r.held ==> f !in r.dirs && !IsTable(r, f))
              && (f in r.dirs ==> !IsTable(r, f))
              && (f == Alloc(r.frames).1 < r.frames.total ==>
                    f !in r.held && f !in r.dirs && !IsTable(r, f) && f != 0 && f !in KernelPages(kstart, kend))
  {
    var s := Boot(b, kstart, kend, m, k, p0, p1);
    if Legal(s, ops) {
      RunAccounts(s, ops, f);
      BootAccounts(b, kstart, kend, m, k, p0, p1, f);
      BootFreeInBitmap(b, kstart, kend);
      if IsTable(Run(s, ops), f) { TableFacts(Run(s, ops), f); }
    }
  }

  /** By bytes: the page of a byte of the kernel image is never issued. */
  lemma ImageNeverIssued(b: BootInfo, kstart: u32, kend: u32, m: seq<Page>, k: nat, p0: nat, p1: nat,
                         ops: seq<Op>, a: nat)
    requires StaticPages(kstart, kend, k, p0, p1) && PAGES_MAX <= |m| <= 0x10_0000
    requires kstart <= a < kend <= 0xFFFF_F000
    ensures var s := Boot(b, kstart, kend, m, k, p0, p1);
            Legal(s, ops) && Alloc(Run(s, ops).frames).1 < Run(s, ops).frames.total ==>
              Alloc(Run(s, ops).frames).1 != a / 4096
  {
    var s := Boot(b, kstart, kend, m, k, p0, p1);
    if Legal(s, ops) {
      var f := Alloc(Run(s, ops).frames).1;
      EveryFrameAccountedFor(b, kstart, kend, m, k, p0, p1, ops, f);
      KernelPagesByBytes(kstart, kend, f);
      BootFreeInBitmap(b, kstart, kend);
    }
  }
}

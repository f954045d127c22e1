/** On which runs the paging code may rely on the first 8 MB being mapped to themselves, and what it does
    on the others. */
module VmmLow {
  import opened Words
  import PmmModel
  import opened VmmModel
  import opened VmmRuns
  import opened VmmCode

  // ---- the identity below 8 MB ----------------------------------------------------------------------

  predicate ToItself(w: Option<Leaf>, va: u32) {
    w.Some? && w.value.Address(va) == va && w.value.CanWrite() && !w.value.User()
  }

  /** In every directory every address below 8 MB translates to itself, writable and supervisor-only. */
  ghost predicate LowIdentity(s: Space) {
    forall d, va: u32 | d in s.dirs && va < 0x80_0000 :: ToItself(Walk(s, d, va), va)
  }

  /** The operation leaves the pages below 8 MB alone, or maps one of them to itself again, writable. */
  predicate SparesLow(op: Op) {
    match op
    case Map(_, va, phys, flags) => va < 0x80_0000 ==> phys / 4096 == va / 4096 && Writable(flags)
    case Unmap(_, va) => va >= 0x80_0000
    case _ => true
  }

  /** An access below 8 MB reaches the frame it means, whatever directory CR3 names: so a switch of
      directories changes nothing under the code, its data or its stacks. */
  lemma LowIsReached(s: Space, c: nat, f: nat)
    requires LowIdentity(s) && c in s.dirs && f < 2048 && f < |s.mem|
    ensures Reached(s, c, f)
  {
    assert ToItself(Walk(s, c, 4096 * f), 4096 * f);
  }

  lemma LowMapKeeps(s: Space, d: nat, va: u32, phys: u32, flags: u32, e: nat, vb: u32)
    requires Inv(s) && LowIdentity(s) && d in s.dirs && e in s.dirs && vb < 0x80_0000
    requires SparesLow(Map(d, va, phys, flags))
    ensures ToItself(Walk(MapPage(s, d, va, phys, flags), e, vb), vb)
  {
    MapChangesExactly(s, d, va, phys, flags, e, vb);
    assert ToItself(Walk(s, e, vb), vb);
    if vb / 4096 == va / 4096 {
      NewEntrySpec(phys, flags);
      Indices(va, vb);
      LowSlotsStay(s, d, va, phys, flags, e);
    }
  }

  /** A map through a present slot changes no directory. */
  lemma LowSlotsStay(s: Space, d: nat, va: u32, phys: u32, flags: u32, e: nat)
    requires Inv(s) && d in s.dirs && e in s.dirs && Present(s.mem[d][DirIdx(va)])
    ensures MapPage(s, d, va, phys, flags).mem[e] == s.mem[e]
  {
    assert Points(s, d, DirIdx(va), FrameOf(s.mem[d][DirIdx(va)]));
  }

  lemma MapLowIff(s: Space, d: nat, va: u32, phys: u32, flags: u32)
    requires Inv(s) && LowIdentity(s) && d in s.dirs
    ensures LowIdentity(MapPage(s, d, va, phys, flags)) <==> SparesLow(Map(d, va, phys, flags))
  {
    var r := MapPage(s, d, va, phys, flags);
    if SparesLow(Map(d, va, phys, flags)) {
      forall e, vb: u32 | e in r.dirs && vb < 0x80_0000 ensures ToItself(Walk(r, e, vb), vb) {
        LowMapKeeps(s, d, va, phys, flags, e, vb);
      }
    } else {
      MapChangesExactly(s, d, va, phys, flags, d, va);
      assert ToItself(Walk(s, d, va), va);
      assert Points(s, d, DirIdx(va), FrameOf(s.mem[d][DirIdx(va)]));
      NewEntrySpec(phys, flags);
      assert !ToItself(Walk(r, d, va), va);
    }
  }

  lemma UnmapLowIff(s: Space, d: nat, va: u32)
    requires Inv(s) && LowIdentity(s) && d in s.dirs
    ensures LowIdentity(UnmapPage(s, d, va)) <==> va >= 0x80_0000
  {
    var r := UnmapPage(s, d, va);
    if va >= 0x80_0000 {
      forall e, vb: u32 | e in r.dirs && vb < 0x80_0000 ensures ToItself(Walk(r, e, vb), vb) {
        UnmapChangesExactly(s, d, va, e, vb);
        assert ToItself(Walk(s, e, vb), vb);
      }
    } else {
      UnmapChangesExactly(s, d, va, d, va);
      assert ToItself(Walk(s, d, va), va);
      assert Points(s, d, DirIdx(va), FrameOf(s.mem[d][DirIdx(va)]));
      assert !ToItself(Walk(r, d, va), va);
    }
  }

  lemma NewDirectoryLow(s: Space)
    requires Inv(s) && LowIdentity(s)
    ensures LowIdentity(CreateDirectory(s).0)
  {
    var (r, f) := CreateDirectory(s);
    if f < s.frames.total {
      forall e, vb: u32 | e in r.dirs && vb < 0x80_0000 ensures ToItself(Walk(r, e, vb), vb) {
        CreateCopiesKernel(s, if e == f then s.kernel else e, vb);
        assert ToItself(Walk(s, if e == f then s.kernel else e, vb), vb);
      }
    }
  }

  lemma StoreLow(s: Space, f: nat, i: nat, v: u32)
    requires Inv(s) && LowIdentity(s) && f in s.held && i < 1024
    ensures LowIdentity(StoreWord(s, f, i, v))
  {
    var r := StoreWord(s, f, i, v);
    if IsTable(s, f) { TableFacts(s, f); }
    forall e, vb: u32 | e in r.dirs && vb < 0x80_0000 ensures ToItself(Walk(r, e, vb), vb) {
      PageKeepsWalk(s, f, s.mem[f][i := v], e, vb);
      assert ToItself(Walk(s, e, vb), vb);
    }
  }

  lemma SameWalks(s: Space, r: Space)
    requires LowIdentity(s) && r.mem == s.mem && r.dirs == s.dirs
    ensures LowIdentity(r)
  {
    forall e, vb: u32 | e in r.dirs && vb < 0x80_0000 ensures ToItself(Walk(r, e, vb), vb) {
      assert Walk(r, e, vb) == Walk(s, e, vb);
    }
  }

  /** A step keeps the identity below 8 MB exactly when its operation spares those pages. */
  lemma StepKeepsLowIff(s: Space, op: Op)
    requires Inv(s) && Enabled(s, op) && LowIdentity(s)
    ensures LowIdentity(Step(s, op)) <==> SparesLow(op)
  {
    match op
    case Map(d, va, phys, flags) => MapLowIff(s, d, va, phys, flags);
    case Unmap(d, va) => UnmapLowIff(s, d, va);
    case NewDirectory => NewDirectoryLow(s);
    case Store(f, i, v) => StoreLow(s, f, i, v);
    case Take => SameWalks(s, TakeFrame(s));
    case Give(f) => SameWalks(s, GiveFrame(s, f));
  }

  /** The identity holds in every state of the run. */
  ghost predicate AlwaysLow(s: Space, ops: seq<Op>)
    requires Inv(s) && Legal(s, ops)
    decreases |ops|
  {
    LowIdentity(s) && (ops == [] || AlwaysLow(Step(s, ops[0]), ops[1..]))
  }

  /** Over every run: the first 8 MB stay mapped to themselves throughout exactly when every operation
      spares them. */
  lemma {:induction false} AlwaysLowIff(s: Space, ops: seq<Op>)
    requires Inv(s) && Legal(s, ops) && LowIdentity(s)
    ensures AlwaysLow(s, ops) <==> forall op | op in ops :: SparesLow(op)
    ensures AlwaysLow(s, ops) ==> LowIdentity(Run(s, ops))
    decreases |ops|
  {
    if ops != [] {
      StepKeepsLowIff(s, ops[0]);
      if SparesLow(ops[0]) {
        AlwaysLowIff(Step(s, ops[0]), ops[1..]);
        assert ops == [ops[0]] + ops[1..];
      } else {
        assert !AlwaysLow(Step(s, ops[0]), ops[1..]);
      }
    }
  }

  lemma BootIsLow(b: PmmModel.BootInfo, kstart: u32, kend: u32, m: seq<Page>, k: nat, p0: nat, p1: nat)
    requires StaticPages(kstart, kend, k, p0, p1) && PmmModel.PAGES_MAX <= |m| <= 0x10_0000
    ensures LowIdentity(Boot(b, kstart, kend, m, k, p0, p1))
  {
    var s := Boot(b, kstart, kend, m, k, p0, p1);
    assert k in PmmModel.KernelPages(kstart, kend) && p0 in PmmModel.KernelPages(kstart, kend)
           && p1 in PmmModel.KernelPages(kstart, kend);
    forall d, va: u32 | d in s.dirs && va < 0x80_0000 ensures ToItself(Walk(s, d, va), va) {
      InitIsIdentity(m, k, p0, p1, s.frames, va);
    }
  }

  // ---- runs of the code -----------------------------------------------------------------------------

  /** Every step spares the pages below 8 MB, dereferences only frames below 8 MB, and is made under a
      directory there is. */
  ghost predicate Careful(s: Space, cs: seq<nat>, ops: seq<Op>)
    requires Inv(s) && |cs| == |ops|
    decreases |ops|
  {
    ops == [] ||
    (&& Enabled(s, ops[0]) && cs[0] in s.dirs && SparesLow(ops[0])
     && (forall f | f in Derefs(s, ops[0]) :: f < 2048)
     && Careful(Step(s, ops[0]), cs[1..], ops[1..]))
  }

  lemma DerefsInMemory(s: Space, op: Op, f: nat)
    requires Inv(s) && Enabled(s, op) && f in Derefs(s, op)
    ensures f < |s.mem|
  {
    match op
    case Map(d, va, _, _) =>
      Indices(va, va);
      if Present(s.mem[d][DirIdx(va)]) { assert Points(s, d, DirIdx(va), FrameOf(s.mem[d][DirIdx(va)])); }
    case Unmap(d, va) =>
      Indices(va, va);
      if Present(s.mem[d][DirIdx(va)]) { assert Points(s, d, DirIdx(va), FrameOf(s.mem[d][DirIdx(va)])); }
    case _ =>
  }

  lemma LowStep(s: Space, c: nat, op: Op)
    requires Inv(s) && LowIdentity(s) && Enabled(s, op) && c in s.dirs
    requires forall f | f in Derefs(s, op) :: f < 2048
    ensures CodeStep(s, c, op) == Done(Step(s, op))
  {
    forall f | f in Derefs(s, op) ensures Reached(s, c, f) {
      DerefsInMemory(s, op, f);
      LowIsReached(s, c, f);
    }
    CodeMakesStep(s, c, op);
  }

  /** On every careful run the code, with all its accesses translated, does exactly what the run says,
      whatever directory each call is made under. */
  lemma {:induction false} CarefulCodeIsRun(s: Space, cs: seq<nat>, ops: seq<Op>)
    requires Inv(s) && LowIdentity(s) && |cs| == |ops| && Careful(s, cs, ops)
    ensures Legal(s, ops) && CodeRun(s, cs, ops) == Done(Run(s, ops)) && LowIdentity(Run(s, ops))
    decreases |ops|
  {
    if ops != [] {
      LowStep(s, cs[0], ops[0]);
      StepKeepsLowIff(s, ops[0]);
      CarefulCodeIsRun(Step(s, ops[0]), cs[1..], ops[1..]);
    }
  }

  /** From boot on, on every careful run: the code goes through without a fault, and afterwards the walk
      grants, in every directory and at every address, what the flat page maps hold. */
  lemma CodeIsFlatMap(b: PmmModel.BootInfo, kstart: u32, kend: u32, m: seq<Page>, k: nat, p0: nat, p1: nat,
                      cs: seq<nat>, ops: seq<Op>, d: nat, va: u32)
    requires StaticPages(kstart, kend, k, p0, p1) && PmmModel.PAGES_MAX <= |m| <= 0x10_0000 && |cs| == |ops|
    ensures var s := Boot(b, kstart, kend, m, k, p0, p1);
            Careful(s, cs, ops) ==>
              && CodeRun(s, cs, ops).Done?
              && var t := CodeRun(s, cs, ops).after;
                 && LowIdentity(t)
                 && (d in t.dirs ==> Seen(t, d, va) == Lookup(FlatRun(Abs(s), ops), d, va))
  {
    var s := Boot(b, kstart, kend, m, k, p0, p1);
    if Careful(s, cs, ops) {
      BootIsLow(b, kstart, kend, m, k, p0, p1);
      CarefulCodeIsRun(s, cs, ops);
      if d in Run(s, ops).dirs { RunIsFlatMap(s, ops, d, va); }
    }
  }

  // ---- the exact condition ------------------------------------------------------------------------

  /** No directory maps page f. */
  ghost predicate Unmapped(s: Space, f: nat) {
    f < 0x10_0000 && forall c | c in s.dirs :: Walk(s, c, 4096 * f) == None
  }

  predicate Maps(op: Op, f: nat) {
    op.Map? && op.va / 4096 == f
  }

  lemma StepLeavesUnmapped(s: Space, op: Op, f: nat)
    requires Inv(s) && Enabled(s, op) && Unmapped(s, f) && !Maps(op, f)
    ensures Unmapped(Step(s, op), f)
  {
    var r := Step(s, op);
    forall c | c in r.dirs ensures Walk(r, c, 4096 * f) == None {
      match op
      case Map(d, va, phys, flags) => MapChangesExactly(s, d, va, phys, flags, c, 4096 * f);
      case Unmap(d, va) => UnmapChangesExactly(s, d, va, c, 4096 * f);
      case NewDirectory =>
        if PmmModel.Alloc(s.frames).1 < s.frames.total {
          CreateCopiesKernel(s, if c in s.dirs then c else s.kernel, 4096 * f);
        }
      case Store(g, i, v) =>
        if IsTable(s, g) { TableFacts(s, g); }
        PageKeepsWalk(s, g, s.mem[g][i := v], c, 4096 * f);
      case _ => assert Walk(r, c, 4096 * f) == Walk(s, c, 4096 * f);
    }
  }

  lemma {:induction false} RunLeavesUnmapped(s: Space, ops: seq<Op>, f: nat)
    requires Inv(s) && Legal(s, ops) && Unmapped(s, f) && forall op | op in ops :: !Maps(op, f)
    ensures Unmapped(Run(s, ops), f)
    decreases |ops|
  {
    if ops != [] {
      StepLeavesUnmapped(s, ops[0], f);
      RunLeavesUnmapped(Step(s, ops[0]), ops[1..], f);
    }
  }

  lemma HighUnmappedAtBoot(b: PmmModel.BootInfo, kstart: u32, kend: u32, m: seq<Page>, k: nat, p0: nat, p1: nat, f: nat)
    requires StaticPages(kstart, kend, k, p0, p1) && PmmModel.PAGES_MAX <= |m| <= 0x10_0000 && 2048 <= f < 0x10_0000
    ensures Unmapped(Boot(b, kstart, kend, m, k, p0, p1), f)
  {
    var s := Boot(b, kstart, kend, m, k, p0, p1);
    assert k in PmmModel.KernelPages(kstart, kend) && p0 in PmmModel.KernelPages(kstart, kend)
           && p1 in PmmModel.KernelPages(kstart, kend);
    InitIsIdentity(m, k, p0, p1, s.frames, 4096 * f);
  }

  /** After any run from boot that spared the pages below 8 MB, for any next call under any directory: the
      code makes the step exactly when every frame it dereferences lies below 8 MB, and otherwise
      faults, unless someone had mapped such a frame's own address. */
  lemma CodeMakesStepIffLow(b: PmmModel.BootInfo, kstart: u32, kend: u32, m: seq<Page>, k: nat, p0: nat, p1: nat,
                            ops: seq<Op>, c: nat, op: Op)
    requires StaticPages(kstart, kend, k, p0, p1) && PmmModel.PAGES_MAX <= |m| <= 0x10_0000
    requires forall o | o in ops :: SparesLow(o)
    ensures var s := Boot(b, kstart, kend, m, k, p0, p1);
            Legal(s, ops) ==>
              var r := Run(s, ops);
              (&& c in r.dirs && Enabled(r, op)
               && forall f, o | f in Derefs(r, op) && f >= 2048 && o in ops :: !Maps(o, f)) ==>
                CodeStep(r, c, op) ==
                if forall f | f in Derefs(r, op) :: f < 2048 then Done(Step(r, op)) else Fault
  {
    var s := Boot(b, kstart, kend, m, k, p0, p1);
    BootIsLow(b, kstart, kend, m, k, p0, p1);
    if Legal(s, ops) {
      AlwaysLowIff(s, ops);
      var r := Run(s, ops);
      if c in r.dirs && Enabled(r, op) {
        if forall f | f in Derefs(r, op) :: f < 2048 {
          LowStep(r, c, op);
        } else if forall f, o | f in Derefs(r, op) && f >= 2048 && o in ops :: !Maps(o, f) {
          forall f | f in Derefs(r, op) ensures if f < 2048 then Reached(r, c, f) else Target(r, c, f) == None {
            DerefsInMemory(r, op, f);
            if f < 2048 {
              LowIsReached(r, c, f);
            } else {
              HighUnmappedAtBoot(b, kstart, kend, m, k, p0, p1, f);
              RunLeavesUnmapped(s, ops, f);
            }
          }
          var x :| x in Derefs(r, op) && x >= 2048;
          CodeFaults(r, c, op, x);
        }
      }
    }
  }

  // ---- small memory ---------------------------------------------------------------------------------

  lemma DerefsAccounted(s: Space, op: Op, f: nat)
    requires Inv(s) && Enabled(s, op) && f in Derefs(s, op)
    ensures Accounted(s, f)
  {
    match op
    case Map(d, va, _, _) =>
      Indices(va, va);
      if Present(s.mem[d][DirIdx(va)]) { assert Points(s, d, DirIdx(va), FrameOf(s.mem[d][DirIdx(va)])); }
    case Unmap(d, va) =>
      Indices(va, va);
      if Present(s.mem[d][DirIdx(va)]) { assert Points(s, d, DirIdx(va), FrameOf(s.mem[d][DirIdx(va)])); }
    case _ =>
  }

  /** Each call of the run is made under a directory there is. */
  ghost predicate Under(s: Space, cs: seq<nat>, ops: seq<Op>)
    requires Inv(s) && Legal(s, ops) && |cs| == |ops|
    decreases |ops|
  {
    ops == [] || (cs[0] in s.dirs && Under(Step(s, ops[0]), cs[1..], ops[1..]))
  }

  lemma {:induction false} SmallIsCareful(s: Space, cs: seq<nat>, ops: seq<Op>)
    requires Inv(s) && Legal(s, ops) && |cs| == |ops| && Under(s, cs, ops)
    requires (forall op | op in ops :: SparesLow(op)) && forall f: nat | Accounted(s, f) :: f < 2048
    ensures Careful(s, cs, ops)
    decreases |ops|
  {
    if ops != [] {
      var t := Step(s, ops[0]);
      forall f | f in Derefs(s, ops[0]) ensures f < 2048 { DerefsAccounted(s, ops[0], f); }
      forall f: nat | Accounted(t, f) ensures f < 2048 { StepAccounts(s, ops[0], f); }
      SmallIsCareful(t, cs[1..], ops[1..]);
    }
  }

  /** When boot leaves only frames below 8 MB free and the static pages lie there too, every run that
      spares the pages below 8 MB is careful: the code can make all of it. */
  lemma SmallMemoryIsSafe(b: PmmModel.BootInfo, kstart: u32, kend: u32, m: seq<Page>, k: nat, p0: nat, p1: nat,
                          cs: seq<nat>, ops: seq<Op>)
    requires StaticPages(kstart, kend, k, p0, p1) && PmmModel.PAGES_MAX <= |m| <= 0x10_0000 && |cs| == |ops|
    requires k < 2048 && p0 < 2048 && p1 < 2048 && forall f | f in PmmModel.BootFree(b, kstart, kend) :: f < 2048
    requires forall op | op in ops :: SparesLow(op)
    ensures var s := Boot(b, kstart, kend, m, k, p0, p1);
            Legal(s, ops) && Under(s, cs, ops) ==> Careful(s, cs, ops) && CodeRun(s, cs, ops) == Done(Run(s, ops))
  {
    var s := Boot(b, kstart, kend, m, k, p0, p1);
    if Legal(s, ops) && Under(s, cs, ops) {
      forall f: nat | Accounted(s, f) ensures f < 2048 { BootAccounts(b, kstart, kend, m, k, p0, p1, f); }
      SmallIsCareful(s, cs, ops);
      BootIsLow(b, kstart, kend, m, k, p0, p1);
      CarefulCodeIsRun(s, cs, ops);
    }
  }

  // ---- runs on which the code fails -----------------------------------------------------------------

  /** Where the first 8 MB are mapped to themselves, an unmap of the page of the next frame f leaves the
      directories alone and takes away that page only. */
  lemma UnmapNext(s: Space, d: nat, f: nat)
    requires Inv(s) && LowIdentity(s) && d in s.dirs && f < 2048 && d < 2048 && f != d
    ensures var t := UnmapPage(s, d, 4096 * f);
            Target(t, d, f) == None && Reached(t, d, d) && t.mem[d] == s.mem[d] && t.frames == s.frames
  {
    assert ToItself(Walk(s, d, 4096 * f), 4096 * f);
    Indices(4096 * f, 4096 * d);
    assert Points(s, d, DirIdx(4096 * f), FrameOf(s.mem[d][DirIdx(4096 * f)]));
    UnmapChangesExactly(s, d, 4096 * f, d, 4096 * f);
    UnmapChangesExactly(s, d, 4096 * f, d, 4096 * d);
    LowIsReached(s, d, d);
  }

  /** Then a map that needs a table faults. */
  lemma UnmapThenMap(s: Space, d: nat, va: u32, phys: u32, flags: u32)
    requires Inv(s) && LowIdentity(s) && d in s.dirs && d < 2048 && !Present(s.mem[d][DirIdx(va)])
    requires PmmModel.Alloc(s.frames).1 < s.frames.total && PmmModel.Alloc(s.frames).1 < 2048
    ensures var f := PmmModel.Alloc(s.frames).1;
            var t := Step(s, Unmap(d, 4096 * f));
            && d in t.dirs && PmmModel.Alloc(t.frames).1 == f
            && CodeStep(t, d, Map(d, va, phys, flags)) == Fault
  {
    var f := PmmModel.Alloc(s.frames).1;
    FreeIsPlain(s);
    UnmapNext(s, d, f);
    MapFaults(Step(s, Unmap(d, 4096 * f)), d, d, va, phys, flags, f);
  }

  /** From boot, unmap the page of the frame the PMM hands out next, then map any address from 8 MB on:
      the code makes the first step and faults in the second, although all frames lie below 8 MB. */
  lemma UnmapThenMapFaults(b: PmmModel.BootInfo, kstart: u32, kend: u32, m: seq<Page>, k: nat, p0: nat, p1: nat,
                           va: u32, phys: u32, flags: u32)
    requires StaticPages(kstart, kend, k, p0, p1) && PmmModel.PAGES_MAX <= |m| <= 0x10_0000
    requires k < 2048 && p0 < 2048 && p1 < 2048 && va >= 0x80_0000
    ensures var s := Boot(b, kstart, kend, m, k, p0, p1);
            var f := PmmModel.Alloc(s.frames).1;
            f < s.frames.total && f < 2048 ==>
              && k in s.dirs
              && var t := Step(s, Unmap(k, 4096 * f));
                 && CodeStep(s, k, Unmap(k, 4096 * f)) == Done(t)
                 && k in t.dirs && PmmModel.Alloc(t.frames).1 == f
                 && CodeStep(t, k, Map(k, va, phys, flags)) == Fault
  {
    var s := Boot(b, kstart, kend, m, k, p0, p1);
    var f := PmmModel.Alloc(s.frames).1;
    if f < s.frames.total && f < 2048 {
      BootIsLow(b, kstart, kend, m, k, p0, p1);
      BootSlots(b, kstart, kend, m, k, p0, p1, 4096 * f, va);
      LowStep(s, k, Unmap(k, 4096 * f));
      UnmapThenMap(s, k, va, phys, flags);
    }
  }

  /** The slots of the kernel directory at boot: the first two present, the others not. */
  lemma BootSlots(b: PmmModel.BootInfo, kstart: u32, kend: u32, m: seq<Page>, k: nat, p0: nat, p1: nat,
                  low: u32, high: u32)
    requires StaticPages(kstart, kend, k, p0, p1) && PmmModel.PAGES_MAX <= |m| <= 0x10_0000
    requires low < 0x80_0000 <= high
    ensures var s := Boot(b, kstart, kend, m, k, p0, p1);
            && k in s.dirs && k < |s.mem| && !Present(s.mem[k][DirIdx(high)])
            && Present(s.mem[k][DirIdx(low)]) && FrameOf(s.mem[k][DirIdx(low)]) in {p0, p1}
  {
    BootHasTables(b, kstart, kend, m, k, p0, p1);
    TablesHaveSlots(Boot(b, kstart, kend, m, k, p0, p1), k, p0, p1, low, high);
  }

  lemma BootHasTables(b: PmmModel.BootInfo, kstart: u32, kend: u32, m: seq<Page>, k: nat, p0: nat, p1: nat)
    requires StaticPages(kstart, kend, k, p0, p1) && PmmModel.PAGES_MAX <= |m| <= 0x10_0000
    ensures BootTables(Boot(b, kstart, kend, m, k, p0, p1), k, p0, p1)
  {
    assert k in PmmModel.KernelPages(kstart, kend) && p0 in PmmModel.KernelPages(kstart, kend)
           && p1 in PmmModel.KernelPages(kstart, kend);
    InitTables(m, k, p0, p1, Boot(b, kstart, kend, m, k, p0, p1).frames);
  }

  lemma TablesHaveSlots(s: Space, k: nat, p0: nat, p1: nat, low: u32, high: u32)
    requires BootTables(s, k, p0, p1) && low < 0x80_0000 <= high
    ensures k in s.dirs && !Present(s.mem[k][DirIdx(high)])
    ensures Present(s.mem[k][DirIdx(low)]) && FrameOf(s.mem[k][DirIdx(low)]) in {p0, p1}
  {
    Indices(low, high);
    Indices(high, low);
  }

  /** In any state in which the page of the next frame f is mapped to another client's frame g, mapping an
      address of an absent slot clears g instead: the table installed is f, with what f held before. */
  lemma RemappedTableIsLost(s: Space, c: nat, d: nat, va: u32, phys: u32, flags: u32, g: nat)
    requires Inv(s) && c in s.dirs && d in s.dirs && !Present(s.mem[d][DirIdx(va)]) && Reached(s, c, d)
    requires PmmModel.Alloc(s.frames).1 < s.frames.total && PmmModel.Alloc(s.frames).1 < 2048 && va >= 0x80_0000
    requires Target(s, c, PmmModel.Alloc(s.frames).1) == Some(g) && g in s.held
    ensures var f, out := PmmModel.Alloc(s.frames).1, CodeMap(s, c, d, va, phys, flags);
            && out.Done? && f < |s.mem| == |out.after.mem|
            && out.after.mem[f] == s.mem[f] && Points(out.after, d, DirIdx(va), f)
            && (forall i | 0 <= i < 1024 && i != TblIdx(va) :: out.after.mem[g][i] == 0)
  {
    var (frames, f) := PmmModel.Alloc(s.frames);
    if IsTable(s, g) { TableFacts(s, g); }
    FreeIsPlain(s);
    Indices(va, va);
    FreshTable(s, c, d, va, g);
    var t := s.(mem := Poke(s.mem[g := Repeat<u32>(0, 1024)], d, DirIdx(va), TableEntry(f)), frames := frames);
    TableElsewhere(s, c, d, va, g, TableEntry(f), frames, f);
    assert CodeTable(s, c, d, va) == Table(t, f) && Target(t, c, f) == Some(g);
  }

  /** Clearing a plain frame and filling a slot from 8 MB on changes no translation below. */
  lemma TableElsewhere(s: Space, c: nat, d: nat, va: u32, g: nat, v: u32, frames: PmmModel.Frames, f: nat)
    requires Inv(s) && c in s.dirs && d in s.dirs && g in s.held && va >= 0x80_0000 && f < 2048
    ensures d < |s.mem| && g < |s.mem| && DirIdx(va) < 1024
    ensures var t := s.(mem := Poke(s.mem[g := Repeat<u32>(0, 1024)], d, DirIdx(va), v), frames := frames);
            Target(t, c, f) == Target(s, c, f)
  {
    Indices(va, va);
    Indices(4096 * f, 4096 * f);
    var i := DirIdx(4096 * f);
    assert i < 2 <= DirIdx(va);
    if Present(s.mem[c][i]) { assert Points(s, c, i, FrameOf(s.mem[c][i])); }
  }

  /** Such a state is two calls away from boot: a client takes a frame g and the page of the next frame f
      is mapped to it. */
  lemma RemapThenMapLosesTable(b: PmmModel.BootInfo, kstart: u32, kend: u32, m: seq<Page>, k: nat, p0: nat, p1: nat,
                               va: u32, phys: u32, flags: u32)
    requires StaticPages(kstart, kend, k, p0, p1) && PmmModel.PAGES_MAX <= |m| <= 0x10_0000 && k < 2048 && va >= 0x80_0000
    ensures var s := Boot(b, kstart, kend, m, k, p0, p1);
            var g, t := PmmModel.Alloc(s.frames).1, TakeFrame(s);
            var f := PmmModel.Alloc(t.frames).1;
            g < s.frames.total && f < t.frames.total && f < 2048 ==>
              && k in t.dirs
              && var u := Step(t, Map(k, 4096 * f, 4096 * g, 2));
                 && k in u.dirs && f < |u.mem| && PmmModel.Alloc(u.frames).1 == f
                 && var out := CodeStep(u, k, Map(k, va, phys, flags));
                    && out.Done? && |out.after.mem| == |u.mem|
                    && out.after.mem[f] == u.mem[f] && Points(out.after, k, DirIdx(va), f)
  {
    var s := Boot(b, kstart, kend, m, k, p0, p1);
    var g, t := PmmModel.Alloc(s.frames).1, TakeFrame(s);
    var f := PmmModel.Alloc(t.frames).1;
    if g < s.frames.total && f < t.frames.total && f < 2048 {
      BootIsLow(b, kstart, kend, m, k, p0, p1);
      BootSlots(b, kstart, kend, m, k, p0, p1, 4096 * f, va);
      SameWalks(s, t);
      FreeIsPlain(s);
      FreeIsPlain(t);
      RemapNext(t, k, f, g);
      RemappedTableIsLost(MapPage(t, k, 4096 * f, 4096 * g, 2), k, k, va, phys, flags, g);
    }
  }

  lemma RemapNext(s: Space, d: nat, f: nat, g: nat)
    requires Inv(s) && LowIdentity(s) && d in s.dirs && f < 2048 && d < 2048 && f != d && g < |s.mem|
    ensures var t := MapPage(s, d, 4096 * f, 4096 * g, 2);
            && Inv(t) && Target(t, d, f) == Some(g) && Reached(t, d, d) && t.mem[d] == s.mem[d]
            && t.frames == s.frames && t.held == s.held && t.dirs == s.dirs
  {
    assert ToItself(Walk(s, d, 4096 * f), 4096 * f);
    Indices(4096 * f, 4096 * d);
    assert Points(s, d, DirIdx(4096 * f), FrameOf(s.mem[d][DirIdx(4096 * f)]));
    MapPageInv(s, d, 4096 * f, 4096 * g, 2);
    MapChangesExactly(s, d, 4096 * f, 4096 * g, 2, d, 4096 * f);
    MapChangesExactly(s, d, 4096 * f, 4096 * g, 2, d, 4096 * d);
    LowSlotsStay(s, d, 4096 * f, 4096 * g, 2, d);
    NewEntrySpec(4096 * g, 2);
    LowIsReached(s, d, d);
  }
}

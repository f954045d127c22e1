/** kernel/mm/vmm.c with paging on: the code names directories and tables by physical address, but every
    load and store it makes goes through the directory in CR3. Here those accesses are translated, and
    it is shown on which runs the code does what VmmRuns says. */
module VmmCode {
  import opened Words
  import PmmModel
  import opened VmmModel
  import opened VmmRuns

  // ---- accesses through CR3 ---------------------------------------------------------------------

  /** The frame an access to physical address 4096 * f reaches when CR3 names directory c, or None for a
      page fault. The kernel runs in ring 0 and never sets CR0.WP, so presence is all that is needed
      (section 4.6.1 of the Intel SDM, volume 3A). */
  ghost function Target(s: Space, c: nat, f: nat): Option<nat> {
    if f >= 0x10_0000 then None else
      match Walk(s, c, 4096 * f)
      case None => None
      case Some(leaf) => if FrameOf(leaf.pte) < |s.mem| then Some(FrameOf(leaf.pte)) else None
  }

  /** The access reaches the frame it means. */
  ghost predicate Reached(s: Space, c: nat, f: nat) {
    Target(s, c, f) == Some(f)
  }

  datatype Outcome = Fault | Done(after: Space)

  ghost function Load(s: Space, c: nat, f: nat, i: nat): Option<u32>
    requires i < 1024
  {
    match Target(s, c, f)
    case None => None
    case Some(g) => Some(s.mem[g][i])
  }

  ghost function StoreAt(s: Space, c: nat, f: nat, i: nat, v: u32): Outcome
    requires i < 1024
  {
    match Target(s, c, f)
    case None => Fault
    case Some(g) => Done(s.(mem := Poke(s.mem, g, i, v)))
  }

  /** The zeroing loop, from entry i on. */
  ghost function Clear(s: Space, c: nat, f: nat, i: nat): Outcome
    requires i <= 1024
    decreases 1024 - i
  {
    if i == 1024 then Done(s) else
      match StoreAt(s, c, f, i, 0)
      case Fault => Fault
      case Done(t) => Clear(t, c, f, i + 1)
  }

  /** The copying loop, from entry i on. */
  ghost function Copy(s: Space, c: nat, from: nat, f: nat, i: nat): Outcome
    requires i <= 1024
    decreases 1024 - i
  {
    if i == 1024 then Done(s) else
      match Load(s, c, from, i)
      case None => Fault
      case Some(v) =>
        match StoreAt(s, c, f, i, v)
        case Fault => Fault
        case Done(t) => Copy(t, c, from, f, i + 1)
  }

  // ---- the calls ----------------------------------------------------------------------------------

  /** The page table the code goes on with. */
  datatype TableOutcome = TableFault | NoFrame | Table(after: Space, t: nat)

  ghost function CodeTable(s: Space, c: nat, d: nat, va: u32): TableOutcome {
    Indices(va, va);
    match Load(s, c, d, DirIdx(va))
    case None => TableFault
    case Some(e) =>
      if Present(e) then Table(s, FrameOf(e)) else
        var (frames, f) := PmmModel.Alloc(s.frames);
        if f == s.frames.total then NoFrame
        else if f >= 0x10_0000 then TableFault
        else
          match Clear(s.(frames := frames), c, f, 0)
          case Fault => TableFault
          case Done(t) =>
            match StoreAt(t, c, d, DirIdx(va), TableEntry(f))
            case Fault => TableFault
            case Done(u) => Table(u, f)
  }

  ghost function CodeMap(s: Space, c: nat, d: nat, va: u32, phys: u32, flags: u32): Outcome {
    Indices(va, va);
    match CodeTable(s, c, d, va)
    case TableFault => Fault
    case NoFrame => Done(s)
    case Table(t, pt) => StoreAt(t, c, pt, TblIdx(va), NewEntry(phys, flags))
  }

  ghost function CodeUnmap(s: Space, c: nat, d: nat, va: u32): Outcome {
    Indices(va, va);
    match Load(s, c, d, DirIdx(va))
    case None => Fault
    case Some(e) => if Present(e) then StoreAt(s, c, FrameOf(e), TblIdx(va), 0) else Done(s)
  }

  ghost function CodeNewDirectory(s: Space, c: nat): Outcome {
    var (frames, f) := PmmModel.Alloc(s.frames);
    if f == s.frames.total then Done(s) else
      match Copy(s.(frames := frames), c, s.kernel, f, 0)
      case Fault => Fault
      case Done(t) => Done(t.(dirs := t.dirs + {f}))
  }

  /** One call, or one step of another frame client, while CR3 names directory c. */
  ghost function CodeStep(s: Space, c: nat, op: Op): Outcome {
    match op
    case Map(d, va, phys, flags) => CodeMap(s, c, d, va, phys, flags)
    case Unmap(d, va) => CodeUnmap(s, c, d, va)
    case NewDirectory => CodeNewDirectory(s, c)
    case Store(f, i, v) => if i < 1024 then StoreAt(s, c, f, i, v) else Fault
    case Take =>
      var (frames, f) := PmmModel.Alloc(s.frames);
      Done(if f == s.frames.total then s else s.(frames := frames, held := s.held + {f}))
    case Give(f) => Done(s.(frames := PmmModel.Release(s.frames, f), held := s.held - {f}))
  }

  /** A run of the code: before each call the scheduler may have loaded another directory into CR3. */
  ghost function CodeRun(s: Space, cs: seq<nat>, ops: seq<Op>): Outcome
    requires |cs| == |ops|
    decreases |ops|
  {
    if ops == [] then Done(s) else
      match CodeStep(s, cs[0], ops[0])
      case Fault => Fault
      case Done(t) => CodeRun(t, cs[1..], ops[1..])
  }

  /** The frames a step dereferences: the directory, the table it finds or makes, a new directory and the
      kernel's, a client's own frame. */
  ghost function Derefs(s: Space, op: Op): set<nat>
    requires Inv(s) && Enabled(s, op)
  {
    match op
    case Map(d, va, _, _) =>
      if Present(s.mem[d][DirIdx(va)]) then {d, FrameOf(s.mem[d][DirIdx(va)])}
      else if PmmModel.Alloc(s.frames).1 < s.frames.total then {d, PmmModel.Alloc(s.frames).1}
      else {d}
    case Unmap(d, va) =>
      if Present(s.mem[d][DirIdx(va)]) then {d, FrameOf(s.mem[d][DirIdx(va)])} else {d}
    case NewDirectory => if PmmModel.Alloc(s.frames).1 < s.frames.total then {s.kernel, PmmModel.Alloc(s.frames).1} else {}
    case Store(f, _, _) => {f}
    case _ => {}
  }

  // ---- when the code makes the step -----------------------------------------------------------------

  /** What lies in a frame that is neither directory nor table has no say in any translation. */
  lemma PageKeepsWalk(s: Space, g: nat, page: Page, c: nat, va: u32)
    requires g < |s.mem| && g !in s.dirs && !IsTable(s, g) && c in s.dirs
    ensures Walk(s.(mem := s.mem[g := page]), c, va) == Walk(s, c, va)
  {
    Indices(va, va);
    if c < |s.mem| && Present(s.mem[c][DirIdx(va)]) {
      assert Points(s, c, DirIdx(va), FrameOf(s.mem[c][DirIdx(va)]));
    }
  }

  lemma PageKeepsTables(s: Space, g: nat, page: Page, t: nat)
    requires g < |s.mem| && g !in s.dirs
    ensures IsTable(s.(mem := s.mem[g := page]), t) == IsTable(s, t)
  {
    var r := s.(mem := s.mem[g := page]);
    assert forall d, i: nat :: Points(r, d, i, t) == Points(s, d, i, t);
  }

  /** The zeroing loop on an address that reaches frame g, a plain one, clears g. */
  lemma {:induction false} ClearClears(s: Space, c: nat, f: nat, g: nat, i: nat)
    requires i <= 1024 && c in s.dirs && Target(s, c, f) == Some(g) && g !in s.dirs && !IsTable(s, g)
    ensures g < |s.mem| && Clear(s, c, f, i) == Done(s.(mem := s.mem[g := s.mem[g][..i] + Repeat<u32>(0, 1024 - i)]))
    decreases 1024 - i
  {
    if i == 1024 {
      assert s.mem[g][..1024] + Repeat<u32>(0, 0) == s.mem[g];
      assert s.mem[g := s.mem[g]] == s.mem;
    } else {
      var page := s.mem[g][i := 0];
      var t := s.(mem := s.mem[g := page]);
      PageKeepsWalk(s, g, page, c, 4096 * f);
      PageKeepsTables(s, g, page, g);
      ClearClears(t, c, f, g, i + 1);
      assert page[..i + 1] + Repeat<u32>(0, 1024 - i - 1) == s.mem[g][..i] + Repeat<u32>(0, 1024 - i);
      assert t.mem[g := s.mem[g][..i] + Repeat<u32>(0, 1024 - i)] == s.mem[g := s.mem[g][..i] + Repeat<u32>(0, 1024 - i)];
    }
  }

  /** The copying loop, when both addresses reach what they mean. */
  lemma {:induction false} CopyCopies(s: Space, c: nat, from: nat, f: nat, i: nat)
    requires i <= 1024 && c in s.dirs && Reached(s, c, from) && Reached(s, c, f) && f !in s.dirs && !IsTable(s, f) && f != from
    ensures f < |s.mem| && from < |s.mem|
    ensures Copy(s, c, from, f, i) == Done(s.(mem := s.mem[f := s.mem[f][..i] + s.mem[from][i..]]))
    decreases 1024 - i
  {
    if i == 1024 {
      assert s.mem[f][..1024] + s.mem[from][1024..] == s.mem[f];
      assert s.mem[f := s.mem[f]] == s.mem;
    } else {
      var page := s.mem[f][i := s.mem[from][i]];
      var t := s.(mem := s.mem[f := page]);
      PageKeepsWalk(s, f, page, c, 4096 * f);
      PageKeepsWalk(s, f, page, c, 4096 * from);
      PageKeepsTables(s, f, page, f);
      CopyCopies(t, c, from, f, i + 1);
      assert page[..i + 1] + s.mem[from][i + 1..] == s.mem[f][..i] + s.mem[from][i..];
      assert t.mem[f := s.mem[f][..i] + s.mem[from][i..]] == s.mem[f := s.mem[f][..i] + s.mem[from][i..]];
    }
  }

  lemma FreeIsPlain(s: Space)
    requires Inv(s) && PmmModel.Alloc(s.frames).1 < s.frames.total
    ensures var (frames, f) := PmmModel.Alloc(s.frames);
            && 0 < f < |s.mem| <= 0x10_0000 && f in s.frames.free && f !in s.dirs && !IsTable(s, f)
            && frames == s.frames.(free := s.frames.free - {f})
  {
    var f := PmmModel.Alloc(s.frames).1;
    if IsTable(s, f) { TableFacts(s, f); }
  }

  /** Translations and tables do not depend on the PMM. */
  lemma FramesDoNotMatter(s: Space, frames: PmmModel.Frames, c: nat, t: nat)
    ensures var r := s.(frames := frames);
            Target(r, c, t) == Target(s, c, t) && IsTable(r, t) == IsTable(s, t)
  {
    var r := s.(frames := frames);
    assert forall d, i: nat :: Points(r, d, i, t) == Points(s, d, i, t);
  }

  /** Clearing through the address of a fresh frame that reaches frame g leaves the directory reached. */
  lemma FreshCleared(s: Space, c: nat, d: nat, g: nat)
    requires Inv(s) && c in s.dirs && Reached(s, c, d) && g !in s.dirs && !IsTable(s, g)
    requires PmmModel.Alloc(s.frames).1 < s.frames.total && Target(s, c, PmmModel.Alloc(s.frames).1) == Some(g)
    ensures var (frames, f) := PmmModel.Alloc(s.frames);
            && g < |s.mem|
            && var t := s.(mem := s.mem[g := Repeat<u32>(0, 1024)], frames := frames);
               Clear(s.(frames := frames), c, f, 0) == Done(t) && Reached(t, c, d)
  {
    var (frames, f) := PmmModel.Alloc(s.frames);
    var s1 := s.(frames := frames);
    FramesDoNotMatter(s, frames, c, f);
    FramesDoNotMatter(s, frames, c, g);
    FramesDoNotMatter(s, frames, c, d);
    ClearClears(s1, c, f, g, 0);
    assert s.mem[g][..0] + Repeat<u32>(0, 1024) == Repeat<u32>(0, 1024);
    PageKeepsWalk(s1, g, Repeat<u32>(0, 1024), c, 4096 * d);
  }

  /** A fresh table whose address reaches frame g: g is cleared, and the table is installed. With g == f
      this is what WithTable does. */
  lemma FreshTable(s: Space, c: nat, d: nat, va: u32, g: nat)
    requires Inv(s) && c in s.dirs && d in s.dirs && !Present(s.mem[d][DirIdx(va)]) && Reached(s, c, d)
    requires PmmModel.Alloc(s.frames).1 < s.frames.total && Target(s, c, PmmModel.Alloc(s.frames).1) == Some(g)
    requires g !in s.dirs && !IsTable(s, g)
    ensures var (frames, f) := PmmModel.Alloc(s.frames);
            && g < |s.mem| && f < 0x10_0000
            && CodeTable(s, c, d, va) ==
               Table(s.(mem := Poke(s.mem[g := Repeat<u32>(0, 1024)], d, DirIdx(va), TableEntry(f)), frames := frames), f)
  {
    Indices(va, va);
    FreeIsPlain(s);
    FreshCleared(s, c, d, g);
  }

  lemma MapCode(s: Space, c: nat, d: nat, va: u32, phys: u32, flags: u32)
    requires Inv(s) && c in s.dirs && d in s.dirs
    requires forall f | f in Derefs(s, Map(d, va, phys, flags)) :: Reached(s, c, f)
    ensures CodeMap(s, c, d, va, phys, flags) == Done(MapPage(s, d, va, phys, flags))
  {
    var op := Map(d, va, phys, flags);
    Indices(va, va);
    assert d in Derefs(s, op);
    if Present(s.mem[d][DirIdx(va)]) {
      assert FrameOf(s.mem[d][DirIdx(va)]) in Derefs(s, op);
    } else if PmmModel.Alloc(s.frames).1 < s.frames.total {
      var f := PmmModel.Alloc(s.frames).1;
      assert f in Derefs(s, op);
      FreeIsPlain(s);
      FreshTable(s, c, d, va, f);
      WithTableKeepsWalks(s, d, va, c, 4096 * f);
    }
  }

  lemma UnmapCode(s: Space, c: nat, d: nat, va: u32)
    requires Inv(s) && c in s.dirs && d in s.dirs
    requires forall f | f in Derefs(s, Unmap(d, va)) :: Reached(s, c, f)
    ensures CodeUnmap(s, c, d, va) == Done(UnmapPage(s, d, va))
  {
    Indices(va, va);
    assert d in Derefs(s, Unmap(d, va));
    if Present(s.mem[d][DirIdx(va)]) { assert FrameOf(s.mem[d][DirIdx(va)]) in Derefs(s, Unmap(d, va)); }
  }

  lemma NewDirectoryCode(s: Space, c: nat)
    requires Inv(s) && c in s.dirs
    requires forall f | f in Derefs(s, NewDirectory) :: Reached(s, c, f)
    ensures CodeNewDirectory(s, c) == Done(CreateDirectory(s).0)
  {
    var (frames, f) := PmmModel.Alloc(s.frames);
    if f < s.frames.total {
      assert f in Derefs(s, NewDirectory) && s.kernel in Derefs(s, NewDirectory);
      FreeIsPlain(s);
      FramesDoNotMatter(s, frames, c, f);
      FramesDoNotMatter(s, frames, c, s.kernel);
      CopyCopies(s.(frames := frames), c, s.kernel, f, 0);
      assert s.mem[f][..0] + s.mem[s.kernel][0..] == s.mem[s.kernel];
    }
  }

  /** The code makes the step whenever every frame it dereferences is reached at its physical address. */
  lemma CodeMakesStep(s: Space, c: nat, op: Op)
    requires Inv(s) && Enabled(s, op) && c in s.dirs && forall f | f in Derefs(s, op) :: Reached(s, c, f)
    ensures CodeStep(s, c, op) == Done(Step(s, op))
  {
    match op
    case Map(d, va, phys, flags) => MapCode(s, c, d, va, phys, flags);
    case Unmap(d, va) => UnmapCode(s, c, d, va);
    case NewDirectory => NewDirectoryCode(s, c);
    case Store(f, _, _) => assert f in Derefs(s, op);
    case _ =>
  }

  /** It faults when some frame is not mapped and the others are reached. */
  lemma CodeFaults(s: Space, c: nat, op: Op, x: nat)
    requires Inv(s) && Enabled(s, op) && c in s.dirs && x in Derefs(s, op) && Target(s, c, x) == None
    requires forall f | f in Derefs(s, op) :: Reached(s, c, f) || Target(s, c, f) == None
    ensures CodeStep(s, c, op) == Fault
  {
    match op
    case Map(d, va, phys, flags) => MapFaults(s, c, d, va, phys, flags, x);
    case Unmap(d, va) =>
      Indices(va, va);
      assert d in Derefs(s, op);
    case NewDirectory =>
      var (frames, f) := PmmModel.Alloc(s.frames);
      FramesDoNotMatter(s, frames, c, f);
      FramesDoNotMatter(s, frames, c, s.kernel);
    case Store(f, _, _) =>
    case _ =>
  }

  lemma MapFaults(s: Space, c: nat, d: nat, va: u32, phys: u32, flags: u32, x: nat)
    requires Inv(s) && c in s.dirs && d in s.dirs
    requires x in Derefs(s, Map(d, va, phys, flags)) && Target(s, c, x) == None
    requires forall f | f in Derefs(s, Map(d, va, phys, flags)) :: Reached(s, c, f) || Target(s, c, f) == None
    ensures CodeMap(s, c, d, va, phys, flags) == Fault
  {
    Indices(va, va);
    assert d in Derefs(s, Map(d, va, phys, flags));
    var (frames, f) := PmmModel.Alloc(s.frames);
    FramesDoNotMatter(s, frames, c, f);
    assert Target(s.(frames := frames), c, f) == None ==> Clear(s.(frames := frames), c, f, 0) == Fault;
  }
}

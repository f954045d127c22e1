/** The file calls over whole runs: a table of slots and tables of descriptors behave, in what they answer
    and in what they leave, as a directory of named byte sequences with independent cursors. */
module FdRuns {
  import opened Words
  import opened RamfsModel
  import opened FdModel

  // ---- the plain machine ------------------------------------------------------------------------------

  /** Descriptor d of process p. */
  datatype Spot = Spot(p: nat, d: nat)

  /** What a call returns and, for a read, copies out. */
  datatype Answer = Answer(value: int, bytes: seq<u8>)

  datatype Files = Files(dir: map<Name, seq<u8>>, cursors: imap<Spot, Cursor>, procs: nat, cur: nat)

  ghost function LeastFree(m: Files, d: nat): (r: nat)
    requires d <= 32
    ensures d <= r <= 32 && (r < 32 ==> Spot(m.cur, r) !in m.cursors)
    ensures forall e | d <= e < r :: Spot(m.cur, e) in m.cursors
    decreases 32 - d
  {
    if d == 32 || Spot(m.cur, d) !in m.cursors then d else LeastFree(m, d + 1)
  }

  ghost function OpenFlat(m: Files, path: Name): (Files, Answer) {
    var d := LeastFree(m, 3);
    var name: Name := if path != [] && path[0] == 47 then path[1..] else path;
    if d == 32 || name !in m.dir then (m, Answer(-1, []))
    else (m.(cursors := m.cursors[Spot(m.cur, d) := At(name, 0)]), Answer(d, []))
  }

  ghost function Dropped(cursors: imap<Spot, Cursor>, k: Spot): imap<Spot, Cursor> {
    imap x: Spot | x in cursors && x != k :: cursors[x]
  }

  ghost function CloseFlat(m: Files, fd: nat): (Files, Answer) {
    if fd < 3 || Spot(m.cur, fd) !in m.cursors then (m, Answer(-1, []))
    else (m.(cursors := Dropped(m.cursors, Spot(m.cur, fd))), Answer(0, []))
  }

  /** The cursor stands in a file. */
  ghost predicate Standing(m: Files, fd: nat) {
    && Spot(m.cur, fd) in m.cursors
    && var c := m.cursors[Spot(m.cur, fd)];
       c.At? && c.name in m.dir && c.offset <= |m.dir[c.name]|
  }

  ghost function ReadFlat(m: Files, fd: nat, len: nat): (Files, Answer) {
    if !Standing(m, fd) then (m, Answer(-1, [])) else
      var c := m.cursors[Spot(m.cur, fd)];
      var rest := m.dir[c.name][c.offset..];
      var got := if len < |rest| then rest[..len] else rest;
      (m.(cursors := m.cursors[Spot(m.cur, fd) := At(c.name, c.offset + |got|)]), Answer(|got|, got))
  }

  ghost function WriteFlat(m: Files, fd: nat, bytes: seq<u8>): (Files, Answer) {
    if !Standing(m, fd) then (m, Answer(-1, [])) else
      var c := m.cursors[Spot(m.cur, fd)];
      var n: int := if c.offset + |bytes| > 32768 then 32768 - c.offset else |bytes|;
      if n < 0 then (m, Answer(-1, [])) else
        (m.(dir := m.dir[c.name := Overwritten(m.dir[c.name], c.offset, bytes[..n])],
            cursors := m.cursors[Spot(m.cur, fd) := At(c.name, c.offset + n)]),
         Answer(n, []))
  }

  ghost function CreateFlat(m: Files, name: Name): (Files, Answer) {
    if name in m.dir || |m.dir| >= 64 then (m, Answer(-1, []))
    else (m.(dir := m.dir[if |name| <= 63 then name else name[..63] := []]), Answer(0, []))
  }

  ghost function FlatStep(m: Files, op: Op): (Files, Answer) {
    match op
    case OpenOp(path) => OpenFlat(m, path)
    case CloseOp(fd) => CloseFlat(m, fd)
    case ReadOp(fd, len) => ReadFlat(m, fd, len)
    case WriteOp(fd, bytes) => WriteFlat(m, fd, bytes)
    case CreateOp(name) => CreateFlat(m, name)
    case SwitchOp(p) => (m.(cur := p), Answer(0, []))
  }

  ghost function FlatRun(m: Files, ops: seq<Op>): (Files, seq<Answer>)
    decreases |ops|
  {
    if ops == [] then (m, []) else
      var (n, a) := FlatStep(m, ops[0]);
      var (t, more) := FlatRun(n, ops[1..]);
      (t, [a] + more)
  }

  // ---- what the kernel's tables stand for ---------------------------------------------------------------

  ghost predicate Open(s: Sys, k: Spot)
    requires Inv(s)
  {
    CursorOf(s, k.p, k.d).At?
  }

  ghost function Cursors(s: Sys): imap<Spot, Cursor>
    requires Inv(s)
  {
    imap k: Spot | Open(s, k) :: CursorOf(s, k.p, k.d)
  }

  ghost function Abs(s: Sys): Files
    requires Inv(s)
  {
    Files(Dir(s.fs), Cursors(s), |s.tables|, s.cur)
  }

  /** What the call answers; a creation answers 0 for any slot. */
  ghost function AnswerOf(s: Sys, op: Op): Answer
    requires Inv(s) && Enabled(s, op)
  {
    match op
    case OpenOp(path) => Answer(SysOpen(s, path).value, [])
    case CloseOp(fd) => Answer(SysClose(s, fd).value, [])
    case ReadOp(fd, len) => Answer(SysRead(s, fd, len).value, SysRead(s, fd, len).bytes)
    case WriteOp(fd, bytes) => Answer(SysWrite(s, fd, bytes).value, [])
    case CreateOp(name) => Answer(if Create(s.fs, name).1 < 0 then -1 else 0, [])
    case SwitchOp(p) => Answer(0, [])
  }

  ghost function Answers(s: Sys, ops: seq<Op>): seq<Answer>
    requires Inv(s) && Legal(s, ops)
    decreases |ops|
  {
    if ops == [] then [] else
      StepKeepsInv(s, ops[0]);
      [AnswerOf(s, ops[0])] + Answers(Step(s, ops[0]), ops[1..])
  }

  // ---- every call refines a plain call --------------------------------------------------------------------

  /** At most the cursor at `k` differs between s and t: it becomes c. */
  lemma OneCursor(s: Sys, t: Sys, k: Spot, c: Cursor)
    requires Inv(s) && Inv(t) && CursorOf(t, k.p, k.d) == c
    requires forall p: nat, d: nat | !(p == k.p && d == k.d) :: CursorOf(t, p, d) == CursorOf(s, p, d)
    ensures Cursors(t) == if c.At? then Cursors(s)[k := c] else Dropped(Cursors(s), k)
  {
    forall x: Spot | x != k ensures CursorOf(t, x.p, x.d) == CursorOf(s, x.p, x.d) {}
    assert forall x: Spot :: Open(t, x) <==> if x == k then c.At? else Open(s, x);
    if c.At? { assert Cursors(t) == Cursors(s)[k := c]; } else { assert Cursors(t) == Dropped(Cursors(s), k); }
  }

  lemma OpenAbs(s: Sys, path: Name)
    requires Inv(s)
    ensures Inv(SysOpen(s, path).after)
    ensures OpenFlat(Abs(s), path) == (Abs(SysOpen(s, path).after), Answer(SysOpen(s, path).value, []))
  {
    OpenSpec(s, path);
    var r, d := SysOpen(s, path), LeastFree(Abs(s), 3);
    assert forall e: nat :: Spot(s.cur, e) in Cursors(s) <==> CursorOf(s, s.cur, e).At?;
    if r.value != -1 {
      assert d == r.value;
      OneCursor(s, r.after, Spot(s.cur, d), At(Strip(path), 0));
    }
  }

  lemma CloseAbs(s: Sys, fd: nat)
    requires Inv(s)
    ensures Inv(SysClose(s, fd).after)
    ensures CloseFlat(Abs(s), fd) == (Abs(SysClose(s, fd).after), Answer(SysClose(s, fd).value, []))
  {
    CloseSpec(s, fd);
    assert Spot(s.cur, fd) in Cursors(s) <==> Open(s, Spot(s.cur, fd));
    if SysClose(s, fd).value == 0 { OneCursor(s, SysClose(s, fd).after, Spot(s.cur, fd), Closed); }
  }

  lemma StandingIsOpen(s: Sys, fd: nat)
    requires Inv(s)
    ensures Standing(Abs(s), fd) <==> CursorOf(s, s.cur, fd).At?
    ensures CursorOf(s, s.cur, fd).At? ==> Cursors(s)[Spot(s.cur, fd)] == CursorOf(s, s.cur, fd)
  {
    assert Spot(s.cur, fd) in Cursors(s) <==> Open(s, Spot(s.cur, fd));
    if CursorOf(s, s.cur, fd).At? { CursorInFile(s, s.cur, fd); }
  }

  /** What ReadFlat does, in terms of the file and the cursor. */
  lemma ReadFlatIs(m: Files, fd: nat, len: nat, c: Cursor, got: seq<u8>)
    requires Standing(m, fd) && m.cursors[Spot(m.cur, fd)] == c
    requires var rest := m.dir[c.name][c.offset..]; got == if len < |rest| then rest[..len] else rest
    ensures ReadFlat(m, fd, len) ==
            (m.(cursors := m.cursors[Spot(m.cur, fd) := At(c.name, c.offset + |got|)]), Answer(|got|, got))
  {
  }

  lemma ReadAbs(s: Sys, fd: nat, len: nat)
    requires Inv(s) && fd != 0
    ensures Inv(SysRead(s, fd, len).after)
    ensures var r := SysRead(s, fd, len);
            ReadFlat(Abs(s), fd, len) == (Abs(r.after), Answer(r.value, r.bytes))
  {
    var r := SysRead(s, fd, len);
    ReadCallSpec(s, fd, len);
    if CursorOf(s, s.cur, fd).At? {
      CursorInFile(s, s.cur, fd);
      ReadRefines(s, r.after, fd, len, r.bytes);
    } else {
      StandingIsOpen(s, fd);
    }
  }

  lemma ReadRefines(s: Sys, t: Sys, fd: nat, len: nat, got: seq<u8>)
    requires Inv(s) && Inv(t) && t.fs == s.fs && t.cur == s.cur && |t.tables| == |s.tables|
    requires var c := CursorOf(s, s.cur, fd);
             && c.At? && c.name in Dir(s.fs) && c.offset <= |Dir(s.fs)[c.name]|
             && CursorOf(t, s.cur, fd) == At(c.name, c.offset + |got|)
             && var rest := Dir(s.fs)[c.name][c.offset..];
                got == if len < |rest| then rest[..len] else rest
    requires forall p: nat, d: nat | !(p == s.cur && d == fd) :: CursorOf(t, p, d) == CursorOf(s, p, d)
    ensures ReadFlat(Abs(s), fd, len) == (Abs(t), Answer(|got|, got))
  {
    var c := CursorOf(s, s.cur, fd);
    StandingIsOpen(s, fd);
    ReadFlatIs(Abs(s), fd, len, c, got);
    OneCursor(s, t, Spot(s.cur, fd), At(c.name, c.offset + |got|));
  }

  lemma WriteFlatIs(m: Files, fd: nat, bytes: seq<u8>, c: Cursor, n: int)
    requires Standing(m, fd) && m.cursors[Spot(m.cur, fd)] == c
    requires 0 <= n <= |bytes| && n == if c.offset + |bytes| > FILE_MAX then FILE_MAX - c.offset else |bytes|
    ensures WriteFlat(m, fd, bytes) ==
            (m.(dir := m.dir[c.name := Overwritten(m.dir[c.name], c.offset, bytes[..n])],
                cursors := m.cursors[Spot(m.cur, fd) := At(c.name, c.offset + n)]), Answer(n, []))
  {
  }

  lemma WriteAbs(s: Sys, fd: nat, bytes: seq<u8>)
    requires Inv(s) && fd != 1 && fd != 2 && LengthOk(s, fd, |bytes|)
    ensures Inv(SysWrite(s, fd, bytes).after)
    ensures WriteFlat(Abs(s), fd, bytes) == (Abs(SysWrite(s, fd, bytes).after), Answer(SysWrite(s, fd, bytes).value, []))
  {
    var r, c := SysWrite(s, fd, bytes), CursorOf(s, s.cur, fd);
    WriteCallSpec(s, fd, bytes);
    StandingIsOpen(s, fd);
    if c.At? {
      WriteFlatIs(Abs(s), fd, bytes, c, r.value);
      OneCursor(s, r.after, Spot(s.cur, fd), At(c.name, c.offset + r.value));
    }
  }

  /** Creating a file moves no cursor. */
  lemma CreateKeepsCursors(s: Sys, name: Name)
    requires Inv(s) && NameOk(s.fs, name)
    ensures Inv(s.(fs := Create(s.fs, name).0))
    ensures forall p: nat, d: nat :: CursorOf(s.(fs := Create(s.fs, name).0), p, d) == CursorOf(s, p, d)
  {
    CreateKeepsInv(s, name);
    var t := s.(fs := Create(s.fs, name).0);
    forall p: nat, d: nat ensures CursorOf(t, p, d) == CursorOf(s, p, d) {
      if p < |s.tables| && d < MAX_FDS { assert FdOk(s.fs, d, s.tables[p][d]); }
    }
  }

  lemma SameCursors(s: Sys, t: Sys)
    requires Inv(s) && Inv(t) && forall p: nat, d: nat :: CursorOf(t, p, d) == CursorOf(s, p, d)
    ensures Cursors(t) == Cursors(s)
  {
    assert forall k: Spot :: Open(t, k) == Open(s, k);
  }

  lemma CreateDir(s: Sys, name: Name)
    requires Inv(s) && NameOk(s.fs, name)
    ensures var (g, i) := Create(s.fs, name);
            && FsOk(g) && (i < 0 <==> name in Dir(s.fs) || |Dir(s.fs)| >= SLOTS)
            && Dir(g) == if i < 0 then Dir(s.fs) else Dir(s.fs)[Truncated(name) := []]
  {
    CreateSpec(s.fs, name);
    FreeSlotIffRoom(s.fs);
  }

  lemma CreateAbs(s: Sys, name: Name)
    requires Inv(s) && NameOk(s.fs, name)
    ensures Inv(s.(fs := Create(s.fs, name).0))
    ensures CreateFlat(Abs(s), name) ==
            (Abs(s.(fs := Create(s.fs, name).0)), Answer(if Create(s.fs, name).1 < 0 then -1 else 0, []))
  {
    CreateDir(s, name);
    CreateKeepsCursors(s, name);
    var (g, i) := Create(s.fs, name);
    CreateRefines(s, s.(fs := g), name, i < 0);
  }

  lemma CreateRefines(s: Sys, t: Sys, name: Name, failed: bool)
    requires Inv(s) && Inv(t) && |t.tables| == |s.tables| && t.cur == s.cur
    requires failed <==> name in Dir(s.fs) || |Dir(s.fs)| >= SLOTS
    requires Dir(t.fs) == if failed then Dir(s.fs) else Dir(s.fs)[Truncated(name) := []]
    requires forall p: nat, d: nat :: CursorOf(t, p, d) == CursorOf(s, p, d)
    ensures CreateFlat(Abs(s), name) == (Abs(t), Answer(if failed then -1 else 0, []))
  {
    SameCursors(s, t);
    CreateFlatIs(Abs(s), Abs(t), name, failed);
  }

  lemma CreateFlatIs(m: Files, n: Files, name: Name, failed: bool)
    requires failed <==> name in m.dir || |m.dir| >= SLOTS
    requires n == m.(dir := if failed then m.dir else m.dir[Truncated(name) := []])
    ensures CreateFlat(m, name) == (n, Answer(if failed then -1 else 0, []))
  {
  }

  lemma SwitchAbs(s: Sys, p: nat)
    requires Inv(s) && p < |s.tables|
    ensures Inv(s.(cur := p)) && Abs(s.(cur := p)) == Abs(s).(cur := p)
  {
    SameCursors(s, s.(cur := p));
  }

  lemma StepAbs(s: Sys, op: Op)
    requires Inv(s) && Enabled(s, op)
    ensures Inv(Step(s, op)) && FlatStep(Abs(s), op) == (Abs(Step(s, op)), AnswerOf(s, op))
  {
    match op
    case OpenOp(path) => OpenAbs(s, path);
    case CloseOp(fd) => CloseAbs(s, fd);
    case ReadOp(fd, len) => ReadAbs(s, fd, len);
    case WriteOp(fd, bytes) => WriteAbs(s, fd, bytes);
    case CreateOp(name) => CreateAbs(s, name);
    case SwitchOp(p) => SwitchAbs(s, p);
  }

  /** Over every run of file calls, creations and process switches, the kernel answers every call as the
      plain machine does and leaves what it leaves. */
  lemma {:induction false} RunIsFlat(s: Sys, ops: seq<Op>)
    requires Inv(s) && Legal(s, ops)
    ensures FlatRun(Abs(s), ops) == (Abs(Run(s, ops)), Answers(s, ops))
    decreases |ops|
  {
    if ops != [] {
      StepAbs(s, ops[0]);
      RunIsFlat(Step(s, ops[0]), ops[1..]);
    }
  }

  // ---- a write that leaves its file -----------------------------------------------------------------------

  /** Create a file, open it, write one byte, then ask for a write of 2^32 - 1 bytes: offset plus length
      wraps to 0, the clamp in ramfs_write does not apply, and the copy goes past the 32 KB of the file. */
  lemma WrappingWriteLeavesFile(s: Sys, name: Name, x: u8)
    requires Inv(s) && |name| <= NAME_MAX && Strip(name) == name && name !in Dir(s.fs) && |Dir(s.fs)| < SLOTS
    requires !Table(s)[3].open
    ensures var ops := [CreateOp(name), OpenOp(name), WriteOp(3, [x])];
            && Legal(s, ops)
            && var t := Run(s, ops);
               && CursorOf(t, t.cur, 3) == At(name, 1) && Dir(t.fs)[name] == [x]
               && !LengthOk(t, 3, TWO32 - 1) && 1 + WriteLength(1, TWO32 - 1) > FILE_MAX
  {
    var s1 := s.(fs := Create(s.fs, name).0);
    ShortNameOk(s.fs, name);
    CreateDir(s, name);
    CreateKeepsInv(s, name);
    var s2 := SysOpen(s1, name).after;
    FirstOpened(s1, name);
    FirstWritten(s2, name, x);
    RunOfThree(s, CreateOp(name), OpenOp(name), WriteOp(3, [x]), s1, s2);
  }

  lemma FirstOpened(s: Sys, name: Name)
    requires Inv(s) && !Table(s)[3].open && name in Dir(s.fs) && Strip(name) == name
    ensures var t := SysOpen(s, name).after;
            Inv(t) && t.fs == s.fs && t.cur == s.cur && CursorOf(t, t.cur, 3) == At(name, 0)
  {
    OpenSpec(s, name);
    assert FreeFd(Table(s), 3) == 3;
    assert CursorOf(s, s.cur, 3) == Closed;
  }

  lemma FirstWritten(s: Sys, name: Name, x: u8)
    requires Inv(s) && CursorOf(s, s.cur, 3) == At(name, 0) && name in Dir(s.fs) && Dir(s.fs)[name] == []
    ensures LengthOk(s, 3, 1)
    ensures var t := SysWrite(s, 3, [x]).after;
            && Inv(t) && t.cur == s.cur && CursorOf(t, t.cur, 3) == At(name, 1)
            && name in Dir(t.fs) && Dir(t.fs)[name] == [x] && !LengthOk(t, 3, TWO32 - 1)
  {
    WriteCallSpec(s, 3, [x]);
    assert Overwritten([], 0, [x][..1]) == [x];
  }

  lemma RunOfThree(s: Sys, a: Op, b: Op, c: Op, s1: Sys, s2: Sys)
    requires Inv(s) && Enabled(s, a) && s1 == Step(s, a) && Inv(s1) && Enabled(s1, b) && s2 == Step(s1, b)
    requires Inv(s2) && Enabled(s2, c)
    ensures Legal(s, [a, b, c]) && Run(s, [a, b, c]) == Step(s2, c)
  {
    StepKeepsInv(s2, c);
    RunOfMore(s2, c, []);
    RunOfMore(s1, b, [c]);
    RunOfMore(s, a, [b, c]);
    assert [a] + [b, c] == [a, b, c] && [b] + [c] == [b, c] && [c] + [] == [c];
  }

  lemma RunOfMore(s: Sys, op: Op, ops: seq<Op>)
    requires Inv(s) && Enabled(s, op) && Inv(Step(s, op)) && Legal(Step(s, op), ops)
    ensures Legal(s, [op] + ops) && Run(s, [op] + ops) == Run(Step(s, op), ops)
  {
    assert ([op] + ops)[1..] == ops;
  }
}

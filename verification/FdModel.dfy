/** The file half of kernel/syscall/syscall.c: per-process descriptors with offsets over the ramfs, seen
    as independent cursors into named byte sequences. */
module FdModel {
  import opened Words
  import opened RamfsModel

  const MAX_FDS: nat := 32

  datatype Fd = Fd(file: int, offset: nat, open: bool)

  /** One descriptor table per process, and the running process. */
  datatype Sys = Sys(fs: seq<File>, tables: seq<seq<Fd>>, cur: nat)

  /** A descriptor of a file: the slot exists and the offset is at most the file's size. */
  ghost predicate FdOk(fs: seq<File>, d: nat, f: Fd) {
    && (f.open && f.file >= 0 ==> f.file < |fs| && fs[f.file].used && f.offset <= fs[f.file].size)
    && (d >= 3 && f.open ==> f.file >= 0)
  }

  ghost predicate Inv(s: Sys) {
    && FsOk(s.fs) && Unique(s.fs) && s.cur < |s.tables|
    && (forall p | 0 <= p < |s.tables| :: |s.tables[p]| == MAX_FDS)
    && (forall p, d | 0 <= p < |s.tables| && 0 <= d < MAX_FDS :: FdOk(s.fs, d, s.tables[p][d]))
  }

  function Table(s: Sys): seq<Fd>
    requires s.cur < |s.tables|
  {
    s.tables[s.cur]
  }

  /** The state with descriptor `fd` of the running process replaced. */
  function SetFd(s: Sys, fd: nat, f: Fd): Sys
    requires s.cur < |s.tables| && fd < |s.tables[s.cur]|
  {
    s.(tables := s.tables[s.cur := s.tables[s.cur][fd := f]])
  }

  // ---- the calls ----------------------------------------------------------------------------------

  /** What a call leaves, returns and, for a read, copies out. */
  datatype Result = Result(after: Sys, value: int, bytes: seq<u8>)

  /** The first closed descriptor from i on, or 32. */
  function FreeFd(t: seq<Fd>, i: nat): (r: nat)
    requires i <= |t|
    ensures i <= r <= |t| && (r < |t| ==> !t[r].open) && forall j | i <= j < r :: t[j].open
    decreases |t| - i
  {
    if i == |t| || !t[i].open then i else FreeFd(t, i + 1)
  }

  /** The descriptor names a file. */
  predicate IsFile(t: seq<Fd>, fd: nat) {
    fd < |t| && t[fd].open && t[fd].file >= 0
  }

  ghost function SysOpen(s: Sys, path: Name): Result
    requires Inv(s)
  {
    var fd := FreeFd(Table(s), 3);
    var i := Open(s.fs, path);
    if fd == MAX_FDS || i < 0 then Result(s, -1, []) else Result(SetFd(s, fd, Fd(i, 0, true)), fd, [])
  }

  ghost function SysClose(s: Sys, fd: nat): Result
    requires Inv(s)
  {
    if fd < 3 || fd >= MAX_FDS || !Table(s)[fd].open then Result(s, -1, [])
    else Result(SetFd(s, fd, Fd(-1, 0, false)), 0, [])
  }

  /** sys_read, except on descriptor 0, which is the keyboard. */
  ghost function SysRead(s: Sys, fd: nat, len: nat): Result
    requires Inv(s) && fd != 0
  {
    if !IsFile(Table(s), fd) then Result(s, -1, []) else
      var f := Table(s)[fd];
      var b := ReadBytes(s.fs[f.file], f.offset, len);
      Result(SetFd(s, fd, f.(offset := f.offset + |b|)), |b|, b)
  }

  /** The sum of offset and length stays below 2^32, as the clamp in ramfs_write needs. */
  ghost predicate LengthOk(s: Sys, fd: nat, len: nat)
    requires Inv(s)
  {
    IsFile(Table(s), fd) ==> Table(s)[fd].offset + len < TWO32
  }

  /** sys_write, except on descriptors 1 and 2, which are the screen. */
  ghost function SysWrite(s: Sys, fd: nat, bytes: seq<u8>): Result
    requires Inv(s) && fd != 1 && fd != 2 && LengthOk(s, fd, |bytes|)
  {
    if !IsFile(Table(s), fd) then Result(s, -1, []) else
      var f := Table(s)[fd];
      var n := WriteLength(f.offset, |bytes|);
      var g := s.fs[f.file := WriteFile(s.fs[f.file], f.offset, bytes[..n])];
      Result(SetFd(s.(fs := g), fd, f.(offset := f.offset + n)), n, [])
  }

  // ---- cursors --------------------------------------------------------------------------------------

  datatype Cursor = Closed | At(name: Name, offset: nat)

  /** Descriptor d of process p as a position in a named file. */
  ghost function CursorOf(s: Sys, p: nat, d: nat): Cursor
    requires Inv(s)
  {
    if p < |s.tables| && d < MAX_FDS && s.tables[p][d].open && s.tables[p][d].file >= 0
    then At(s.fs[s.tables[p][d].file].name, s.tables[p][d].offset) else Closed
  }

  /** An open cursor names an existing file and is at most at its end, within 32 KB. */
  lemma CursorInFile(s: Sys, p: nat, d: nat)
    requires Inv(s) && CursorOf(s, p, d).At?
    ensures var c := CursorOf(s, p, d);
            c.name in Dir(s.fs) && c.offset <= |Dir(s.fs)[c.name]| <= 32768
  {
    DirAt(s.fs, s.tables[p][d].file);
  }

  lemma SetFdInv(s: Sys, fd: nat, f: Fd)
    requires Inv(s) && fd < MAX_FDS && FdOk(s.fs, fd, f)
    ensures Inv(SetFd(s, fd, f))
    ensures forall p, d: nat | !(p == s.cur && d == fd) :: CursorOf(SetFd(s, fd, f), p, d) == CursorOf(s, p, d)
  {
  }

  /** sys_open returns the least free descriptor from 3 on, with a cursor at the start of the named file,
      and fails, changing nothing, exactly when there is no such descriptor or no such file. */
  lemma OpenSpec(s: Sys, path: Name)
    requires Inv(s)
    ensures var r := SysOpen(s, path);
            var name: Name := if path != [] && path[0] == 47 then path[1..] else path;
            && Inv(r.after) && r.after.fs == s.fs
            && (r.value == -1 <==> name !in Dir(s.fs) || forall d | 3 <= d < 32 :: CursorOf(s, s.cur, d).At?)
            && (r.value == -1 ==> r.after == s)
            && (r.value != -1 ==>
                  && 3 <= r.value < 32 && CursorOf(s, s.cur, r.value) == Closed
                  && (forall d | 3 <= d < r.value :: CursorOf(s, s.cur, d).At?)
                  && CursorOf(r.after, s.cur, r.value) == At(name, 0)
                  && forall p, d: nat | !(p == s.cur && d == r.value) :: CursorOf(r.after, p, d) == CursorOf(s, p, d))
  {
    NamesFind(s.fs, Strip(path));
    var fd, i := FreeFd(Table(s), 3), Open(s.fs, path);
    forall d | 3 <= d < MAX_FDS ensures CursorOf(s, s.cur, d).At? <==> Table(s)[d].open {
      assert FdOk(s.fs, d, s.tables[s.cur][d]);
    }
    if fd < MAX_FDS && i >= 0 { SetFdInv(s, fd, Fd(i, 0, true)); }
  }

  /** sys_close closes one cursor from 3 on and nothing else. */
  lemma CloseSpec(s: Sys, fd: nat)
    requires Inv(s)
    ensures var r := SysClose(s, fd);
            && Inv(r.after) && r.after.fs == s.fs
            && (r.value == 0 <==> 3 <= fd && CursorOf(s, s.cur, fd).At?)
            && (r.value != 0 ==> r.value == -1 && r.after == s)
            && (r.value == 0 ==> CursorOf(r.after, s.cur, fd) == Closed)
            && forall p, d: nat | !(p == s.cur && d == fd) :: CursorOf(r.after, p, d) == CursorOf(s, p, d)
  {
    if 3 <= fd < MAX_FDS {
      assert FdOk(s.fs, fd, s.tables[s.cur][fd]);
      if Table(s)[fd].open { SetFdInv(s, fd, Fd(-1, 0, false)); }
    }
  }

  /** sys_read copies out the file's bytes at the cursor, as many as remain up to `len`, moves that
      cursor by as much, and changes no file and no other cursor. */
  lemma ReadCallSpec(s: Sys, fd: nat, len: nat)
    requires Inv(s) && fd != 0
    ensures var r := SysRead(s, fd, len);
            && Inv(r.after) && r.after.fs == s.fs && r.after.cur == s.cur
            && (CursorOf(s, s.cur, fd) == Closed ==> r.value == -1 && r.after == s)
            && (CursorOf(s, s.cur, fd).At? ==>
                  var At(name, offset) := CursorOf(s, s.cur, fd);
                  && name in Dir(s.fs) && offset <= |Dir(s.fs)[name]|
                  && var rest := Dir(s.fs)[name][offset..];
                     && r.bytes == (if len < |rest| then rest[..len] else rest) && r.value == |r.bytes|
                     && CursorOf(r.after, s.cur, fd) == At(name, offset + |r.bytes|))
            && forall p, d: nat | !(p == s.cur && d == fd) :: CursorOf(r.after, p, d) == CursorOf(s, p, d)
  {
    if IsFile(Table(s), fd) {
      var f := Table(s)[fd];
      assert FdOk(s.fs, fd, s.tables[s.cur][fd]);
      DirAt(s.fs, f.file);
      ReadSpec(s.fs[f.file], f.offset, len);
      SetFdInv(s, fd, f.(offset := f.offset + |ReadBytes(s.fs[f.file], f.offset, len)|));
    }
  }

  lemma GrowKeepsInv(s: Sys, i: nat, f: File)
    requires Inv(s) && i < |s.fs| && s.fs[i].used && f.Ok() && f.used && f.name == s.fs[i].name && s.fs[i].size <= f.size
    ensures Inv(s.(fs := s.fs[i := f]))
    ensures forall p, d: nat :: CursorOf(s.(fs := s.fs[i := f]), p, d) == CursorOf(s, p, d)
  {
    UpdateUnique(s.fs, i, f);
    var t := s.(fs := s.fs[i := f]);
    forall p, d | 0 <= p < |t.tables| && 0 <= d < MAX_FDS ensures FdOk(t.fs, d, t.tables[p][d]) {
      assert FdOk(s.fs, d, s.tables[p][d]);
    }
  }

  /** sys_write lays the bytes, as many as fit below 32 KB, over the file at the cursor, moves that
      cursor past them, and changes no other file and no other cursor. */
  lemma WriteCallSpec(s: Sys, fd: nat, bytes: seq<u8>)
    requires Inv(s) && fd != 1 && fd != 2 && LengthOk(s, fd, |bytes|)
    ensures var r := SysWrite(s, fd, bytes);
            && Inv(r.after) && r.after.cur == s.cur
            && (CursorOf(s, s.cur, fd) == Closed ==> r.value == -1 && r.after == s)
            && (CursorOf(s, s.cur, fd).At? ==>
                  var At(name, offset) := CursorOf(s, s.cur, fd);
                  && name in Dir(s.fs) && offset <= |Dir(s.fs)[name]|
                  && r.value == (if offset + |bytes| > 32768 then 32768 - offset else |bytes|)
                  && 0 <= r.value <= |bytes|
                  && Dir(r.after.fs) == Dir(s.fs)[name := Overwritten(Dir(s.fs)[name], offset, bytes[..r.value])]
                  && CursorOf(r.after, s.cur, fd) == At(name, offset + r.value))
            && forall p, d: nat | !(p == s.cur && d == fd) :: CursorOf(r.after, p, d) == CursorOf(s, p, d)
  {
    if IsFile(Table(s), fd) {
      var f := Table(s)[fd];
      assert FdOk(s.fs, fd, s.tables[s.cur][fd]);
      ClampWorksIffNoWrap(f.offset, |bytes|);
      var n := WriteLength(f.offset, |bytes|);
      DirAt(s.fs, f.file);
      WriteSpec(s.fs, f.file, f.offset, bytes[..n]);
      var g := WriteFile(s.fs[f.file], f.offset, bytes[..n]);
      GrowKeepsInv(s, f.file, g);
      SetFdInv(s.(fs := s.fs[f.file := g]), fd, f.(offset := f.offset + n));
    }
  }

  // ---- runs -----------------------------------------------------------------------------------------

  datatype Op = OpenOp(path: Name) | CloseOp(fd: nat) | ReadOp(fd: nat, len: nat) | WriteOp(fd: nat, bytes: seq<u8>)
              | CreateOp(name: Name) | SwitchOp(p: nat)

  /** Creating `name` keeps names unique: it fails, or the name cut at 63 bytes is new. Names of at most 63
      bytes always are so. */
  ghost predicate NameOk(fs: seq<File>, name: Name) {
    Create(fs, name).1 >= 0 ==> Truncated(name) !in Names(fs)
  }

  lemma ShortNameOk(fs: seq<File>, name: Name)
    requires FsOk(fs) && Unique(fs) && |name| <= NAME_MAX
    ensures NameOk(fs, name)
  {
    if Create(fs, name).1 >= 0 { CreateKeepsUniqueIff(fs, name); }
  }

  ghost predicate Enabled(s: Sys, op: Op)
    requires Inv(s)
  {
    match op
    case ReadOp(fd, len) => fd != 0
    case WriteOp(fd, bytes) => fd != 1 && fd != 2 && LengthOk(s, fd, |bytes|)
    case CreateOp(name) => NameOk(s.fs, name)
    case SwitchOp(p) => p < |s.tables|
    case _ => true
  }

  ghost function Step(s: Sys, op: Op): Sys
    requires Inv(s) && Enabled(s, op)
  {
    match op
    case OpenOp(path) => SysOpen(s, path).after
    case CloseOp(fd) => SysClose(s, fd).after
    case ReadOp(fd, len) => SysRead(s, fd, len).after
    case WriteOp(fd, bytes) => SysWrite(s, fd, bytes).after
    case CreateOp(name) => s.(fs := Create(s.fs, name).0)
    case SwitchOp(p) => s.(cur := p)
  }

  lemma CreateKeepsInv(s: Sys, name: Name)
    requires Inv(s) && NameOk(s.fs, name)
    ensures Inv(s.(fs := Create(s.fs, name).0))
  {
    CreateSpec(s.fs, name);
    var t := s.(fs := Create(s.fs, name).0);
    forall p, d | 0 <= p < |t.tables| && 0 <= d < MAX_FDS ensures FdOk(t.fs, d, t.tables[p][d]) {
      assert FdOk(s.fs, d, s.tables[p][d]);
    }
  }

  lemma StepKeepsInv(s: Sys, op: Op)
    requires Inv(s) && Enabled(s, op)
    ensures Inv(Step(s, op))
  {
    match op
    case OpenOp(path) => OpenSpec(s, path);
    case CloseOp(fd) => CloseSpec(s, fd);
    case ReadOp(fd, len) => ReadCallSpec(s, fd, len);
    case WriteOp(fd, bytes) => WriteCallSpec(s, fd, bytes);
    case CreateOp(name) => CreateKeepsInv(s, name);
    case SwitchOp(p) =>
  }

  ghost predicate Legal(s: Sys, ops: seq<Op>)
    requires Inv(s)
    decreases |ops|
  {
    ops == [] || (Enabled(s, ops[0]) && (StepKeepsInv(s, ops[0]); Legal(Step(s, ops[0]), ops[1..])))
  }

  ghost function Run(s: Sys, ops: seq<Op>): (t: Sys)
    requires Inv(s) && Legal(s, ops)
    ensures Inv(t)
    decreases |ops|
  {
    if ops == [] then s else
      StepKeepsInv(s, ops[0]);
      Run(Step(s, ops[0]), ops[1..])
  }

  /** After every run, every open cursor stands inside an existing file of at most 32 KB. */
  lemma EveryCursorInFile(s: Sys, ops: seq<Op>, p: nat, d: nat)
    requires Inv(s) && Legal(s, ops) && CursorOf(Run(s, ops), p, d).At?
    ensures var t := Run(s, ops);
            var c := CursorOf(t, p, d);
            c.name in Dir(t.fs) && c.offset <= |Dir(t.fs)[c.name]| <= 32768
  {
    CursorInFile(Run(s, ops), p, d);
  }

  // ---- reading a file to its end ----------------------------------------------------------------------

  /** Calling sys_read with the same length until it returns 0. */
  ghost function Drain(s: Sys, fd: nat, len: nat): (Sys, seq<u8>)
    requires Inv(s) && 3 <= fd < MAX_FDS && 0 < len && IsFile(Table(s), fd)
    decreases FILE_MAX - Table(s)[fd].offset
  {
    var r := SysRead(s, fd, len);
    ReadCallSpec(s, fd, len);
    assert FdOk(s.fs, fd, s.tables[s.cur][fd]);
    if r.value == 0 then (r.after, []) else
      assert FdOk(r.after.fs, fd, r.after.tables[r.after.cur][fd]);
      var (t, more) := Drain(r.after, fd, len);
      (t, r.bytes + more)
  }

  /** With any positive length, repeated sys_read returns exactly the rest of the file and then 0. */
  lemma {:induction false} DrainReturnsTheRest(s: Sys, fd: nat, len: nat)
    requires Inv(s) && 3 <= fd < MAX_FDS && 0 < len && CursorOf(s, s.cur, fd).At?
    ensures var At(name, offset) := CursorOf(s, s.cur, fd);
            var (t, got) := Drain(s, fd, len);
            && name in Dir(s.fs) && offset <= |Dir(s.fs)[name]|
            && got == Dir(s.fs)[name][offset..]
            && Inv(t) && t.cur == s.cur && t.fs == s.fs
            && CursorOf(t, s.cur, fd) == At(name, |Dir(s.fs)[name]|) && SysRead(t, fd, len).value == 0
    decreases FILE_MAX - Table(s)[fd].offset
  {
    var r, c := SysRead(s, fd, len), CursorOf(s, s.cur, fd);
    ReadCallSpec(s, fd, len);
    CursorInFile(s, s.cur, fd);
    var whole := Dir(s.fs)[c.name];
    if r.value == 0 {
      ReadCallSpec(r.after, fd, len);
    } else {
      CursorInFile(r.after, s.cur, fd);
      DrainReturnsTheRest(r.after, fd, len);
      PrefixAndRest(whole, c.offset, r.bytes);
    }
  }

  lemma PrefixAndRest(whole: seq<u8>, o: nat, got: seq<u8>)
    requires o + |got| <= |whole| && whole[o..][..|got|] == got
    ensures whole[o..] == got + whole[o + |got|..]
  {
    assert whole[o..][|got|..] == whole[o + |got|..];
  }
}

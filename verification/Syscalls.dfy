/** The file calls of kernel/syscall/syscall.c for a running process. */
module Syscalls {
  import opened Words
  import opened RamfsModel
  import opened FdModel
  import opened Ramfs

  class FileCalls {
    const ramfs: Ramfs
    var tables: seq<seq<Fd>>
    var cur: nat

    ghost function State(): Sys
      reads this, ramfs.files
    {
      Sys(ramfs.files[..], tables, cur)
    }

    ghost predicate Valid()
      reads this, ramfs.files
    {
      Inv(State())
    }

    /** `n` processes with the descriptor table exec gives a new process: 0, 1 and 2 open, no files. */
    constructor (ramfs: Ramfs, n: nat)
      requires ramfs.Valid() && Unique(ramfs.files[..]) && 0 < n
      ensures Valid() && this.ramfs == ramfs && |tables| == n && cur == 0
      ensures forall p, d | 0 <= p < n && 0 <= d < MAX_FDS :: |tables[p]| == MAX_FDS && tables[p][d] == Fd(-1, 0, d < 3)
    {
      this.ramfs := ramfs;
      cur := 0;
      var std, off := Fd(-1, 0, true), Fd(-1, 0, false);
      var table := [std, std, std] + seq(MAX_FDS - 3, _ => off);
      tables := seq(n, _ => table);
    }

    method Open(path: Name) returns (fd: int)
      requires Valid()
      modifies `tables
      ensures Valid() && Result(State(), fd, []) == SysOpen(old(State()), path)
    {
      StepKeepsInv(State(), OpenOp(path));
      var i := 3;
      while i < MAX_FDS && tables[cur][i].open
        invariant 3 <= i <= MAX_FDS && FreeFd(tables[cur], 3) == FreeFd(tables[cur], i)
      {
        i := i + 1;
      }
      if i == MAX_FDS { return -1; }
      var idx := ramfs.OpenFile(path);
      if idx < 0 { return -1; }
      tables := tables[cur := tables[cur][i := Fd(idx, 0, true)]];
      fd := i;
    }

    method Close(fd: u32) returns (r: int)
      requires Valid()
      modifies `tables
      ensures Valid() && Result(State(), r, []) == SysClose(old(State()), fd)
    {
      StepKeepsInv(State(), CloseOp(fd));
      if fd < 3 || fd >= MAX_FDS { return -1; }
      if !tables[cur][fd].open { return -1; }
      tables := tables[cur := tables[cur][fd := Fd(-1, 0, false)]];
      r := 0;
    }

    /** Move the offset past what was transferred. */
    method Advance(fd: nat, r: int)
      requires cur < |tables| && fd < |tables[cur]| && r >= 0
      modifies `tables
      ensures var f := old(tables)[cur][fd];
              tables == old(tables)[cur := old(tables)[cur][fd := f.(offset := f.offset + r)]]
    {
      if r > 0 {
        tables := tables[cur := tables[cur][fd := tables[cur][fd].(offset := tables[cur][fd].offset + r)]];
      } else {
        assert tables[cur][fd := tables[cur][fd]] == tables[cur];
      }
    }

    method Read(fd: u32, len: u32) returns (r: int, bytes: seq<u8>)
      requires Valid() && fd != 0
      modifies `tables
      ensures Valid() && Result(State(), r, bytes) == SysRead(old(State()), fd, len)
    {
      StepKeepsInv(State(), ReadOp(fd, len));
      bytes := [];
      if fd >= MAX_FDS || !tables[cur][fd].open { return -1, bytes; }
      var f := tables[cur][fd];
      if f.file < 0 { return -1, bytes; }
      assert FdOk(ramfs.files[..], fd, tables[cur][fd]);
      r, bytes := ramfs.ReadFile(f.file, f.offset, len);
      Advance(fd, r);
    }

    method Write(fd: u32, bytes: seq<u8>) returns (r: int)
      requires Valid() && fd != 1 && fd != 2 && LengthOk(State(), fd, |bytes|)
      modifies `tables, ramfs.files
      ensures Valid() && Result(State(), r, []) == SysWrite(old(State()), fd, bytes)
    {
      StepKeepsInv(State(), WriteOp(fd, bytes));
      if fd >= MAX_FDS || !tables[cur][fd].open { return -1; }
      var f := tables[cur][fd];
      if f.file < 0 { return -1; }
      assert FdOk(ramfs.files[..], fd, tables[cur][fd]);
      r := ramfs.WriteFileAt(f.file, bytes, f.offset);
      Advance(fd, r);
    }
  }
}

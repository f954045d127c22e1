/** kernel/fs/ramfs.c itself: the slot table changed in place. */
module Ramfs {
  import opened Words
  import opened RamfsModel

  /** One entry of a directory listing. */
  datatype Dirent = Dirent(name: Name, size: nat)

  /** str_eq: byte by byte up to the first terminator. */
  method StrEq(a: Name, b: Name) returns (eq: bool)
    ensures eq <==> a == b
  {
    var i := 0;
    while i < |a| && i < |b|
      invariant i <= |a| && i <= |b| && a[..i] == b[..i]
    {
      if a[i] != b[i] { return false; }
      i := i + 1;
    }
    eq := i == |a| && i == |b|;
  }

  /** mem_copy into `dst` at `at`. */
  method MemCopy(dst: seq<u8>, at: nat, src: seq<u8>, n: nat) returns (r: seq<u8>)
    requires n <= |src| && at + n <= |dst|
    ensures r == Splice(dst, at, src[..n])
  {
    r := dst;
    for i := 0 to n
      invariant r == Splice(dst, at, src[..i])
    {
      r := r[at + i := src[i]];
    }
  }

  class Ramfs {
    const files: array<File>

    ghost predicate Valid()
      reads files
    {
      FsOk(files[..])
    }

    /** ramfs_init on any table of 64 slots. */
    constructor Init(table: array<File>)
      requires table.Length == SLOTS && forall i | 0 <= i < SLOTS :: table[i].Ok()
      modifies table
      ensures Valid() && files == table && Names(files[..]) == {} && Unique(files[..])
    {
      files := table;
      new;
      for i := 0 to SLOTS
        invariant forall j | 0 <= j < SLOTS :: files[j].Ok()
        invariant forall j | 0 <= j < i :: !files[j].used
      {
        files[i] := files[i].(used := false, size := 0, name := []);
      }
    }

    method FindFile(name: Name) returns (r: int)
      requires Valid()
      ensures r == if Find(files[..], name, 0) < SLOTS then Find(files[..], name, 0) else -1
    {
      for i := 0 to SLOTS
        invariant Find(files[..], name, 0) == Find(files[..], name, i)
      {
        var eq := StrEq(files[i].name, name);
        if files[i].used && eq { return i; }
      }
      r := -1;
    }

    method FindFreeSlot() returns (r: int)
      requires Valid()
      ensures r == if FindFree(files[..], 0) < SLOTS then FindFree(files[..], 0) else -1
    {
      for i := 0 to SLOTS
        invariant FindFree(files[..], 0) == FindFree(files[..], i)
      {
        if !files[i].used { return i; }
      }
      r := -1;
    }

    /** The name-copying loop of ramfs_create. */
    static method CopyName(name: Name) returns (r: Name)
      ensures r == Truncated(name)
    {
      r := [];
      var i := 0;
      while i < NAME_MAX && i < |name|
        invariant i <= |name| && i <= NAME_MAX && r == name[..i]
      {
        r := r + [name[i]];
        i := i + 1;
      }
    }

    method CreateFile(name: Name) returns (idx: int)
      requires Valid()
      modifies files
      ensures Valid() && files[..] == Create(old(files[..]), name).0 && idx == Create(old(files[..]), name).1
    {
      var found := FindFile(name);
      if found >= 0 { return -1; }
      idx := FindFreeSlot();
      if idx < 0 { return -1; }
      var short := CopyName(name);
      files[idx] := files[idx].(name := short);
      files[idx] := files[idx].(size := 0);
      files[idx] := files[idx].(used := true);
      assert files[..] == old(files[..])[idx := old(files[..])[idx].(name := short, size := 0, used := true)];
    }

    method OpenFile(path: Name) returns (idx: int)
      requires Valid()
      ensures idx == Open(files[..], path)
    {
      var p := path;
      if p != [] && p[0] == SLASH { p := p[1..]; }
      idx := FindFile(p);
    }

    /** ramfs_read: -1 for no such file, else the bytes copied out and their number. */
    method ReadFile(idx: int, offset: nat, len: nat) returns (r: int, bytes: seq<u8>)
      requires Valid()
      ensures if 0 <= idx < SLOTS && files[idx].used
              then bytes == ReadBytes(files[idx], offset, len) && r == |bytes| else r == -1 && bytes == []
    {
      bytes := [];
      if idx < 0 || idx >= SLOTS { return -1, bytes; }
      if !files[idx].used { return -1, bytes; }
      var f := files[idx];
      if offset >= f.size { return 0, bytes; }
      var available := f.size - offset;
      var n := if len > available then available else len;
      var i := 0;
      while i < n
        invariant i <= n && bytes == f.data[offset..offset + i]
      {
        bytes := bytes + [f.data[offset + i]];
        i := i + 1;
      }
      r := n;
    }

    /** ramfs_write, for lengths whose sum with the offset does not wrap. */
    method WriteFileAt(idx: int, bytes: seq<u8>, offset: nat) returns (r: int)
      requires Valid() && offset <= FILE_MAX && offset + |bytes| < TWO32
      modifies files
      ensures Valid()
      ensures if 0 <= idx < SLOTS && old(files[idx].used)
              then var n := WriteLength(offset, |bytes|);
                   && r == n && 0 <= n <= |bytes| && offset + n <= FILE_MAX && |old(files[idx].data)| == FILE_MAX
                   && files[..] == old(files[..])[idx := WriteFile(old(files[idx]), offset, bytes[..n])]
              else r == -1 && files[..] == old(files[..])
    {
      if idx < 0 || idx >= SLOTS { return -1; }
      if !files[idx].used { return -1; }
      ClampWorksIffNoWrap(offset, |bytes|);
      var n := WriteLength(offset, |bytes|);
      var f := files[idx];
      var data := MemCopy(f.data, offset, bytes, n);
      files[idx] := f.(data := data);
      if offset + n > files[idx].size { files[idx] := files[idx].(size := offset + n); }
      r := n;
    }

    /** ramfs_readdir: name and size of the used slots, in slot order, at most `max` of them. */
    method ReadDirectory(max: int) returns (entries: seq<Dirent>)
      requires Valid()
      ensures entries == Listed(files[..], SLOTS, max)
    {
      entries := [];
      var i := 0;
      while i < SLOTS && |entries| < max
        invariant i <= SLOTS && entries == Listed(files[..], i, max)
      {
        if files[i].used {
          var name := CopyName(files[i].name);
          entries := entries + [Dirent(name, files[i].size)];
        }
        i := i + 1;
      }
      ListedStops(files[..], i, SLOTS, max);
    }
  }

  /** The first `max` used slots below n. */
  function Listed(fs: seq<File>, n: nat, max: int): (r: seq<Dirent>)
    requires n <= |fs|
    ensures |r| <= n && (|r| <= max || r == [])
  {
    if n == 0 then [] else
      var r := Listed(fs, n - 1, max);
      if fs[n - 1].used && |r| < max then r + [Dirent(fs[n - 1].name, fs[n - 1].size)] else r
  }

  lemma {:induction false} ListedStops(fs: seq<File>, i: nat, n: nat, max: int)
    requires i <= n <= |fs| && (i == n || |Listed(fs, i, max)| >= max)
    ensures Listed(fs, n, max) == Listed(fs, i, max)
  {
    if i < n { ListedStops(fs, i, n - 1, max); }
  }

  /** The slot that holds `name`. */
  function SlotOf(fs: seq<File>, name: Name): nat {
    Find(fs, name, 0)
  }

  lemma SlotOfUsed(fs: seq<File>, i: nat)
    requires Unique(fs) && i < |fs| && fs[i].used
    ensures SlotOf(fs, fs[i].name) == i
  {
    FindUnique(fs, i);
  }

  /** Entries come from distinct slots below n, in slot order, each with its file's size. */
  ghost predicate InSlotOrder(fs: seq<File>, n: nat, r: seq<Dirent>)
    requires FsOk(fs) && n <= SLOTS
  {
    && (forall k | 0 <= k < |r| :: SlotOf(fs, r[k].name) < n && r[k].size == fs[SlotOf(fs, r[k].name)].size)
    && (forall j, k | 0 <= j < k < |r| :: SlotOf(fs, r[j].name) < SlotOf(fs, r[k].name))
  }

  lemma {:induction false} ListedIsSound(fs: seq<File>, n: nat, max: int)
    requires FsOk(fs) && Unique(fs) && n <= SLOTS
    ensures InSlotOrder(fs, n, Listed(fs, n, max))
  {
    if n > 0 {
      ListedIsSound(fs, n - 1, max);
      if fs[n - 1].used { SlotOfUsed(fs, n - 1); }
    }
  }

  /** With room for every slot, every file is listed. */
  lemma {:induction false} ListedIsComplete(fs: seq<File>, n: nat, max: int, i: nat) returns (k: nat)
    requires n <= |fs| <= max && i < n && fs[i].used
    ensures k < |Listed(fs, n, max)| && Listed(fs, n, max)[k] == Dirent(fs[i].name, fs[i].size)
  {
    if i == n - 1 {
      k := |Listed(fs, n - 1, max)|;
    } else {
      k := ListedIsComplete(fs, n - 1, max, i);
    }
  }
}

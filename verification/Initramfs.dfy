/** The packing half of tools/mkramfs.c and initramfs_load of kernel/fs/ramfs.c themselves. */
module Initramfs {
  import opened Words
  import opened RamfsModel
  import opened InitramfsModel
  import opened Ramfs

  /** The name field as mkramfs fills it: zeroed, then at most 63 bytes copied. */
  method FillName(name: Name) returns (f: seq<u8>)
    ensures f == NameField(name)
  {
    var zero := Repeat<u8>(0, 64);
    f := zero;
    var i := 0;
    while i < NAME_MAX && i < |name|
      invariant i <= NAME_MAX && i <= |name| && |f| == 64 && f[..i] == name[..i]
      invariant forall j | i <= j < 64 :: f[j] == 0
    {
      f := f[i := name[i]];
      i := i + 1;
    }
    assert Truncated(name) == name[..i];
  }

  /** The offset loop: every file's data follows the previous one's, the first follows the table. */
  method Offsets(es: seq<Input>) returns (os: seq<u32>)
    requires Packable(es)
    ensures |os| == |es| && forall i | 0 <= i < |es| :: os[i] == DataOffset(es, i)
  {
    os := [];
    var dataOffset := HEADER + ENTRY * |es|;
    for i := 0 to |es|
      invariant dataOffset == DataOffset(es, i)
      invariant |os| == i && forall j | 0 <= j < i :: os[j] == DataOffset(es, j)
    {
      PackableAt(es, i);
      os := os + [dataOffset];
      dataOffset := dataOffset + |es[i].data|;
    }
  }

  method WriteTable(es: seq<Input>, os: seq<u32>) returns (out: seq<u8>)
    requires Packable(es) && |os| == |es| && forall i | 0 <= i < |es| :: os[i] == DataOffset(es, i)
    ensures out == TableBytes(es, |es|)
  {
    out := [];
    for i := 0 to |es|
      invariant out == TableBytes(es, i)
    {
      PackableAt(es, i);
      var name := FillName(es[i].name);
      var entry := name + Le32(os[i]) + Le32(|es[i].data|);
      out := out + entry;
    }
  }

  method WriteData(es: seq<Input>) returns (out: seq<u8>)
    ensures out == DataBytes(es, |es|)
  {
    out := [];
    for i := 0 to |es|
      invariant out == DataBytes(es, i)
    {
      out := out + es[i].data;
    }
  }

  /** mkramfs, from the collected files on: header, entry table, data, written in turn. */
  method MakeImage(es: seq<Input>) returns (out: seq<u8>)
    requires Packable(es)
    ensures out == Pack(es)
  {
    var os := Offsets(es);
    out := Le32(MAGIC) + Le32(|es|);
    var table := WriteTable(es, os);
    var data := WriteData(es);
    out := out + table + data;
  }

  /** Copy `bytes` into a file's buffer and make them its contents. */
  method FillFile(fs: Ramfs, idx: nat, bytes: seq<u8>)
    requires fs.Valid() && idx < SLOTS && |bytes| <= FILE_MAX
    modifies fs.files
    ensures fs.Valid()
    ensures var f := old(fs.files[idx]);
            && |f.data| == FILE_MAX
            && fs.files[..] == old(fs.files[..])[idx := f.(data := Splice(f.data, 0, bytes), size := |bytes|)]
  {
    var data := MemCopy(fs.files[idx].data, 0, bytes, |bytes|);
    assert bytes[..|bytes|] == bytes;
    fs.files[idx] := fs.files[idx].(data := data);
    fs.files[idx] := fs.files[idx].(size := |bytes|);
  }

  /** One turn of the loader's loop. */
  method LoadOne(fs: Ramfs, m: seq<u8>, i: nat)
    requires fs.Valid() && EntryOk(m, i)
    modifies fs.files
    ensures fs.Valid() && fs.files[..] == LoadEntry(m, old(fs.files[..]), i)
  {
    var at := HEADER + ENTRY * i;
    var name := CString(m, at);
    var offset := Read32(m, at + 64);
    var size := Read32(m, at + 68);
    var idx := fs.CreateFile(name);
    if idx >= 0 && size > 0 {
      var n := if size > FILE_MAX then FILE_MAX else size;
      FillFile(fs, idx, m[offset..offset + n]);
    }
  }

  lemma NextEntry(m: seq<u8>, before: seq<File>, i: nat, now: seq<File>, next: seq<File>)
    requires FsOk(before) && FsOk(now) && forall j | 0 <= j <= i :: EntryOk(m, j)
    requires now == LoadEntries(m, before, i) && next == LoadEntry(m, now, i)
    ensures next == LoadEntries(m, before, i + 1)
  {
  }

  method LoadAll(fs: Ramfs, m: seq<u8>, count: nat)
    requires fs.Valid() && forall i | 0 <= i < count :: EntryOk(m, i)
    modifies fs.files
    ensures fs.Valid() && fs.files[..] == LoadEntries(m, old(fs.files[..]), count)
  {
    ghost var before := fs.files[..];
    ghost var now := before;
    var i := 0;
    while i < count
      invariant i <= count && fs.Valid() && fs.files[..] == now && now == LoadEntries(m, before, i)
    {
      LoadOne(fs, m, i);
      NextEntry(m, before, i, now, fs.files[..]);
      now := fs.files[..];
      i := i + 1;
    }
  }

  /** initramfs_load: a bad magic is ignored, otherwise every entry is loaded in turn. */
  method LoadImage(fs: Ramfs, m: seq<u8>)
    requires fs.Valid() && ImageOk(m)
    modifies fs.files
    ensures fs.Valid() && fs.files[..] == Load(m, old(fs.files[..]))
  {
    if Read32(m, 0) != MAGIC { return; }
    LoadAll(fs, m, Read32(m, 4));
  }
}

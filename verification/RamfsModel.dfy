/** The slot table of kernel/fs/ramfs.c, read as a directory from names to contents. */
module RamfsModel {
  import opened Words

  const SLOTS: nat := 64
  const NAME_MAX: nat := 63        // VFS_MAX_FILENAME less the terminator
  const FILE_MAX: nat := 32768
  const SLASH: u8 := 47

  /** A C string, without its terminator. */
  type Name = n: seq<u8> | 0 !in n

  /** One slot: the bytes beyond `size` are left over from earlier use. */
  datatype File = File(name: Name, data: seq<u8>, size: nat, used: bool) {
    ghost predicate Ok() { |data| == FILE_MAX && size <= FILE_MAX && |name| <= NAME_MAX }
    function Contents(): seq<u8>
      requires size <= |data|
    {
      data[..size]
    }
  }

  ghost predicate FsOk(fs: seq<File>) {
    |fs| == SLOTS && forall i | 0 <= i < SLOTS :: fs[i].Ok()
  }

  ghost predicate Unique(fs: seq<File>) {
    forall i, j | 0 <= i < j < |fs| && fs[i].used && fs[j].used :: fs[i].name != fs[j].name
  }

  // ---- searching --------------------------------------------------------------------------------

  predicate Match(f: File, name: Name) {
    f.used && f.name == name
  }

  /** The first slot from i on that holds `name`, or |fs|. */
  function Find(fs: seq<File>, name: Name, i: nat): (r: nat)
    requires i <= |fs|
    ensures i <= r <= |fs| && (r < |fs| ==> Match(fs[r], name)) && forall j | i <= j < r :: !Match(fs[j], name)
    decreases |fs| - i
  {
    if i == |fs| || Match(fs[i], name) then i else Find(fs, name, i + 1)
  }

  /** The first free slot from i on, or |fs|. */
  function FindFree(fs: seq<File>, i: nat): (r: nat)
    requires i <= |fs|
    ensures i <= r <= |fs| && (r < |fs| ==> !fs[r].used) && forall j | i <= j < r :: fs[j].used
    decreases |fs| - i
  {
    if i == |fs| || !fs[i].used then i else FindFree(fs, i + 1)
  }

  function Strip(path: Name): Name {
    if path != [] && path[0] == SLASH then path[1..] else path
  }

  function Truncated(name: Name): (r: Name)
    ensures |r| <= NAME_MAX
  {
    if |name| <= NAME_MAX then name else name[..NAME_MAX]
  }

  // ---- the operations ---------------------------------------------------------------------------

  /** ramfs_create: the new table and the slot taken, or -1. */
  function Create(fs: seq<File>, name: Name): (r: (seq<File>, int))
    ensures |r.0| == |fs|
  {
    var i: int := FindFree(fs, 0);
    if Find(fs, name, 0) < |fs| || i == |fs| then (fs, -1)
    else (fs[i := fs[i].(name := Truncated(name), size := 0, used := true)], i)
  }

  /** ramfs_open */
  function Open(fs: seq<File>, path: Name): int {
    var i := Find(fs, Strip(path), 0);
    if i == |fs| then -1 else i
  }

  /** The bytes ramfs_read copies out. */
  function ReadBytes(f: File, offset: nat, len: nat): seq<u8>
    requires f.size <= |f.data|
  {
    if offset >= f.size then []
    else if len > f.size - offset then f.data[offset..f.size] else f.data[offset..offset + len]
  }

  /** How many bytes ramfs_write copies, with the 32-bit sum the code compares. */
  function WriteLength(offset: nat, len: nat): int {
    if Wrap(offset + len) > FILE_MAX then FILE_MAX - offset else len
  }

  /** `data` with `bytes` laid over it from `offset` on. */
  function Splice(data: seq<u8>, offset: nat, bytes: seq<u8>): (r: seq<u8>)
    requires offset + |bytes| <= |data|
    ensures |r| == |data|
  {
    data[..offset] + bytes + data[offset + |bytes|..]
  }

  function WriteFile(f: File, offset: nat, bytes: seq<u8>): File
    requires |f.data| == FILE_MAX && offset + |bytes| <= FILE_MAX
  {
    f.(data := Splice(f.data, offset, bytes), size := if offset + |bytes| > f.size then offset + |bytes| else f.size)
  }

  /** The clamp in ramfs_write keeps the copy inside the file exactly when offset + len does not wrap
      around 32 bits. */
  lemma ClampWorksIffNoWrap(offset: nat, len: u32)
    requires offset <= 32768
    ensures 0 <= WriteLength(offset, len) && offset + WriteLength(offset, len) <= 32768 <==> offset + len < 0x1_0000_0000
    ensures offset + len < 0x1_0000_0000 ==> WriteLength(offset, len) == if offset + len > 32768 then 32768 - offset else len
  {
  }

  // ---- the directory ------------------------------------------------------------------------------

  ghost function Names(fs: seq<File>): set<Name> {
    set i | 0 <= i < |fs| && fs[i].used :: fs[i].name
  }

  ghost function Dir(fs: seq<File>): map<Name, seq<u8>>
    requires FsOk(fs)
  {
    map n | n in Names(fs) :: Lookup(fs, n)
  }

  ghost function Lookup(fs: seq<File>, n: Name): seq<u8>
    requires FsOk(fs)
  {
    var i := Find(fs, n, 0);
    if i < |fs| then fs[i].Contents() else []
  }

  lemma NamesFind(fs: seq<File>, n: Name)
    ensures n in Names(fs) <==> Find(fs, n, 0) < |fs|
  {
    var i := Find(fs, n, 0);
    if i < |fs| { assert fs[i].name in Names(fs); }
  }

  /** With unique names, the slot found for a used slot's name is that slot. */
  lemma FindUnique(fs: seq<File>, i: nat)
    requires Unique(fs) && i < |fs| && fs[i].used
    ensures Find(fs, fs[i].name, 0) == i && fs[i].name in Names(fs)
  {
    var j := Find(fs, fs[i].name, 0);
    assert Match(fs[i], fs[i].name);
  }

  lemma DirAt(fs: seq<File>, i: nat)
    requires FsOk(fs) && Unique(fs) && i < |fs| && fs[i].used
    ensures fs[i].name in Dir(fs) && Dir(fs)[fs[i].name] == fs[i].Contents()
  {
    FindUnique(fs, i);
  }

  /** Slot i may be given to file `f`: it keeps its name, or is free and the name is new. */
  ghost predicate Fits(fs: seq<File>, i: nat, f: File) {
    && i < |fs| && f.Ok() && f.used
    && if fs[i].used then f.name == fs[i].name else f.name !in Names(fs)
  }

  lemma UpdateUnique(fs: seq<File>, i: nat, f: File)
    requires Unique(fs) && Fits(fs, i, f)
    ensures Unique(fs[i := f])
    ensures forall j | 0 <= j < |fs| && j != i && fs[j].used :: fs[j].name != f.name
  {
    forall j | 0 <= j < |fs| && j != i && fs[j].used ensures fs[j].name != f.name {
      assert fs[j].name in Names(fs);
      if fs[i].used { assert fs[if i < j then i else j].name != fs[if i < j then j else i].name; }
    }
  }

  lemma UpdateNames(fs: seq<File>, i: nat, f: File)
    requires Unique(fs) && Fits(fs, i, f)
    ensures Names(fs[i := f]) == Names(fs) + {f.name}
  {
    var g := fs[i := f];
    assert g[i].name in Names(g);
    forall n | n in Names(g) ensures n in Names(fs) + {f.name} {
      var j :| 0 <= j < |g| && g[j].used && g[j].name == n;
      if j != i { assert fs[j].name in Names(fs); }
    }
    forall n | n in Names(fs) ensures n in Names(g) {
      var j :| 0 <= j < |fs| && fs[j].used && fs[j].name == n;
      assert g[j].name == n && g[j].used;
    }
  }

  lemma UpdateLookup(fs: seq<File>, i: nat, f: File, n: Name)
    requires FsOk(fs) && Unique(fs) && Fits(fs, i, f) && FsOk(fs[i := f]) && n in Names(fs[i := f])
    ensures Lookup(fs[i := f], n) == if n == f.name then f.Contents() else Lookup(fs, n)
  {
    var g := fs[i := f];
    UpdateUnique(fs, i, f);
    var j :| 0 <= j < |g| && g[j].used && g[j].name == n;
    FindUnique(g, j);
    if j != i { FindUnique(fs, j); }
  }

  /** Changing one used slot's bytes, or filling one free slot, changes that name's contents and no
      other. */
  lemma DirUpdate(fs: seq<File>, i: nat, f: File)
    requires FsOk(fs) && Unique(fs) && Fits(fs, i, f)
    ensures FsOk(fs[i := f]) && Unique(fs[i := f]) && Dir(fs[i := f]) == Dir(fs)[f.name := f.Contents()]
  {
    var g := fs[i := f];
    UpdateUnique(fs, i, f);
    UpdateNames(fs, i, f);
    forall n | n in Names(g) ensures Lookup(g, n) == if n == f.name then f.Contents() else Lookup(fs, n) {
      UpdateLookup(fs, i, f, n);
    }
  }

  // ---- room in the slot table -----------------------------------------------------------------------

  ghost function NamesUpTo(fs: seq<File>, n: nat): set<Name>
    requires n <= |fs|
  {
    if n == 0 then {} else NamesUpTo(fs, n - 1) + if fs[n - 1].used then {fs[n - 1].name} else {}
  }

  lemma {:induction false} NamesUpToIs(fs: seq<File>, n: nat, x: Name)
    requires n <= |fs|
    ensures x in NamesUpTo(fs, n) <==> exists i | 0 <= i < n :: fs[i].used && fs[i].name == x
  {
    if n > 0 { NamesUpToIs(fs, n - 1, x); }
  }

  function UsedCount(fs: seq<File>, n: nat): (c: nat)
    requires n <= |fs|
    ensures c <= n && (c == n <==> forall i | 0 <= i < n :: fs[i].used)
  {
    if n == 0 then 0 else UsedCount(fs, n - 1) + if fs[n - 1].used then 1 else 0
  }

  lemma {:induction false} CountNames(fs: seq<File>, n: nat)
    requires Unique(fs) && n <= |fs|
    ensures |NamesUpTo(fs, n)| == UsedCount(fs, n)
  {
    if n > 0 {
      CountNames(fs, n - 1);
      if fs[n - 1].used {
        NewName(fs, n - 1);
        OneMore(NamesUpTo(fs, n - 1), fs[n - 1].name);
      }
    }
  }

  lemma OneMore(names: set<Name>, x: Name)
    requires x !in names
    ensures |names + {x}| == |names| + 1
  {
  }

  lemma NewName(fs: seq<File>, n: nat)
    requires Unique(fs) && n < |fs| && fs[n].used
    ensures fs[n].name !in NamesUpTo(fs, n)
  {
    NamesUpToIs(fs, n, fs[n].name);
  }

  /** A slot is free exactly while there are fewer than 64 files. */
  lemma FreeSlotIffRoom(fs: seq<File>)
    requires FsOk(fs) && Unique(fs)
    ensures FindFree(fs, 0) < |fs| <==> |Dir(fs)| < 64
    ensures |Dir(fs)| <= 64
  {
    CountNames(fs, SLOTS);
    forall x: Name ensures x in NamesUpTo(fs, SLOTS) <==> x in Names(fs) { NamesUpToIs(fs, SLOTS, x); }
    assert Dir(fs).Keys == NamesUpTo(fs, SLOTS);
  }

  // ---- what the operations do to the directory ------------------------------------------------------

  /** ramfs_create, for every name: it fails, changing nothing, exactly when the name exists or no slot is
      free; otherwise, unless the name cut to 63 bytes was there already, it adds an empty file of that
      name and nothing else. */
  lemma CreateSpec(fs: seq<File>, name: Name)
    requires FsOk(fs) && Unique(fs)
    ensures var (g, i) := Create(fs, name);
            && (i < 0 <==> name in Dir(fs) || |Dir(fs)| == 64)
            && (i < 0 ==> i == -1 && g == fs)
            && FsOk(g)
            && (i >= 0 ==> i < 64 && Match(g[i], if |name| <= 63 then name else name[..63]))
            && (i >= 0 && Truncated(name) !in Dir(fs) ==> Unique(g) && Dir(g) == Dir(fs)[Truncated(name) := []])
  {
    NamesFind(fs, name);
    NamesFind(fs, Truncated(name));
    FreeSlotIffRoom(fs);
    var (g, i) := Create(fs, name);
    if i >= 0 {
      assert g == fs[i := g[i]];
      if Truncated(name) !in Dir(fs) { DirUpdate(fs, i, g[i]); }
    }
  }

  /** A longer name is cut to 63 bytes after the existence test. Creation then keeps names unique
      exactly when the cut name was not there yet. */
  lemma CreateKeepsUniqueIff(fs: seq<File>, name: Name)
    requires FsOk(fs) && Unique(fs) && Create(fs, name).1 >= 0
    ensures Unique(Create(fs, name).0) <==> Truncated(name) !in Names(fs)
    ensures |name| <= NAME_MAX ==> Truncated(name) !in Names(fs)
  {
    NamesFind(fs, name);
    NamesFind(fs, Truncated(name));
    var (g, i) := Create(fs, name);
    if Truncated(name) in Names(fs) {
      var j := Find(fs, Truncated(name), 0);
      assert g[j] == fs[j] && g[if i < j then i else j].name == g[if i < j then j else i].name;
    } else {
      DirUpdate(fs, i, g[i]);
      assert g == fs[i := g[i]];
    }
  }

  /** Two names that differ only after their first 63 bytes: both can be created, and then two files
      have the same name. */
  lemma LongNamesCollide(fs: seq<File>, stem: Name, x: u8, y: u8)
    requires FsOk(fs) && Names(fs) == {} && |stem| == NAME_MAX && x != 0 && y != 0 && x != y
    ensures var (g, i) := Create(fs, stem + [x]);
            var (h, j) := Create(g, stem + [y]);
            0 <= i < j < SLOTS && Match(h[i], stem) && Match(h[j], stem) && !Unique(h)
  {
    assert forall k | 0 <= k < SLOTS :: fs[k].used ==> fs[k].name in Names(fs);
    var (g, i) := Create(fs, stem + [x]);
    assert i == 0 && g[0].name == stem && !g[1].used;
    assert forall k | 0 <= k < SLOTS :: !Match(g[k], stem + [y]);
    var (h, j) := Create(g, stem + [y]);
    assert j == 1 && (stem + [y])[..NAME_MAX] == stem;
  }

  /** The name survives truncation and the stripping of a leading slash alike: it is short and has none,
      or is 64 slashes. */
  lemma StripIsTruncation(name: Name)
    ensures Strip(name) == Truncated(name) <==>
              || (|name| <= NAME_MAX && (name == [] || name[0] != SLASH))
              || (|name| == NAME_MAX + 1 && forall k | 0 <= k < |name| :: name[k] == SLASH)
  {
    if name != [] && name[0] == SLASH && Strip(name) == Truncated(name) {
      assert |name| == NAME_MAX + 1;
      forall k | 0 <= k < |name| ensures name[k] == SLASH { LikeFirst(name, NAME_MAX, k); }
    }
  }

  lemma {:induction false} LikeFirst(s: seq<u8>, n: nat, k: nat)
    requires k <= n < |s| && s[1..n + 1] == s[..n]
    ensures s[k] == s[0]
  {
    if k > 0 {
      LikeFirst(s, n, k - 1);
      assert s[1..n + 1][k - 1] == s[..n][k - 1];
    }
  }

  /** Opening the path just created finds that file exactly when the path is not changed differently by
      the two calls, which by StripIsTruncation leaves short names without a leading slash and one odd
      case, and no earlier slot has the stored name. */
  lemma OpenAfterCreateIff(fs: seq<File>, name: Name)
    requires FsOk(fs) && Unique(fs) && Create(fs, name).1 >= 0
    ensures Open(Create(fs, name).0, name) == Create(fs, name).1 <==>
              Strip(name) == Truncated(name) && FindFree(fs, 0) < Find(fs, Truncated(name), 0)
    ensures |name| <= NAME_MAX ==>
              (Open(Create(fs, name).0, name) == Create(fs, name).1 <==> name == [] || name[0] != SLASH)
  {
    CreateSpec(fs, name);
    StripIsTruncation(name);
    var (g, i) := Create(fs, name);
    assert forall k | 0 <= k < SLOTS && k != i :: g[k] == fs[k];
  }

  /** ramfs_open finds a file by its name, and by its name behind one slash. A path that begins with a slash
      finds nothing else. */
  lemma OpenFinds(fs: seq<File>, n: Name)
    requires FsOk(fs) && Unique(fs)
    ensures var i := Open(fs, [47] + n);
            (i >= 0 <==> n in Dir(fs)) && (i >= 0 ==> i < |fs| && fs[i].used && fs[i].name == n)
    ensures n == [] || n[0] != 47 ==>
              var i := Open(fs, n);
              (i >= 0 <==> n in Dir(fs)) && (i >= 0 ==> i < |fs| && fs[i].used && fs[i].name == n)
  {
    NamesFind(fs, n);
    assert ([47] + n)[1..] == n;
  }

  /** ramfs_read returns the bytes of the contents from `offset`, as many as there are up to `len`. */
  lemma ReadSpec(f: File, offset: nat, len: nat)
    requires f.Ok()
    ensures var r := ReadBytes(f, offset, len);
            && |r| == (if offset >= f.size then 0 else if len < f.size - offset then len else f.size - offset)
            && (offset <= f.size ==> f.Contents()[offset..][..|r|] == r)
  {
    if offset <= f.size {
      var r := ReadBytes(f, offset, len);
      assert f.Contents()[offset..][..|r|] == r;
    }
  }

  /** The contents after `bytes` are written at `offset`. */
  function Overwritten(was: seq<u8>, offset: nat, bytes: seq<u8>): seq<u8>
    requires offset <= |was|
  {
    was[..offset] + bytes + if offset + |bytes| < |was| then was[offset + |bytes|..] else []
  }

  /** Byte by byte: the new bytes from `offset` on, the old ones elsewhere, and as long as the longer of the
      two. */
  lemma OverwrittenAt(was: seq<u8>, offset: nat, bytes: seq<u8>, k: nat)
    requires offset <= |was|
    ensures var r := Overwritten(was, offset, bytes);
            && |r| == (if offset + |bytes| > |was| then offset + |bytes| else |was|)
            && (k < |r| ==> r[k] == if offset <= k < offset + |bytes| then bytes[k - offset] else was[k])
  {
  }

  /** ramfs_write at or before the end: the file's contents are overwritten, or extended, and no other
      file changes. */
  lemma WriteSpec(fs: seq<File>, i: nat, offset: nat, bytes: seq<u8>)
    requires FsOk(fs) && Unique(fs) && i < SLOTS && fs[i].used
    requires offset <= fs[i].size && offset + |bytes| <= 32768
    ensures var g := fs[i := WriteFile(fs[i], offset, bytes)];
            && FsOk(g) && Unique(g) && fs[i].size <= g[i].size
            && Dir(g) == Dir(fs)[fs[i].name := Overwritten(fs[i].Contents(), offset, bytes)]
  {
    var f := WriteFile(fs[i], offset, bytes);
    DirUpdate(fs, i, f);
    assert f.Contents() == Overwritten(fs[i].Contents(), offset, bytes);
  }
}

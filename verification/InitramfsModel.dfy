/** The RAMF image: what tools/mkramfs.c writes and what initramfs_load in kernel/fs/ramfs.c reads. */
module InitramfsModel {
  import opened Words
  import opened RamfsModel

  const MAGIC: u32 := 0x52414D46
  const HEADER: nat := 8
  const ENTRY: nat := 72

  /** One input file. */
  datatype Input = Input(name: Name, data: seq<u8>)

  // ---- bytes --------------------------------------------------------------------------------------

  function Le32(w: u32): (b: seq<u8>)
    ensures |b| == 4
  {
    [Lane(w, 0), Lane(w, 1), Lane(w, 2), Lane(w, 3)]
  }

  function Read32(m: seq<u8>, at: nat): u32
    requires at + 4 <= |m|
  {
    Join(m[at], m[at + 1], m[at + 2], m[at + 3])
  }

  lemma ReadLe32(m: seq<u8>, at: nat, w: u32)
    requires at + 4 <= |m| && m[at..at + 4] == Le32(w)
    ensures Read32(m, at) == w
  {
    JoinOfLanes(w);
    assert m[at] == m[at..at + 4][0] && m[at + 1] == m[at..at + 4][1];
    assert m[at + 2] == m[at..at + 4][2] && m[at + 3] == m[at..at + 4][3];
  }

  /** The C string at `at`, up to its terminator or the end of memory. */
  function CString(m: seq<u8>, at: nat): (s: Name)
    decreases |m| - at
  {
    if at >= |m| || m[at] == 0 then [] else [m[at]] + CString(m, at + 1)
  }

  lemma {:induction false} CStringIs(m: seq<u8>, at: nat, s: Name)
    requires at + |s| < |m| && m[at..at + |s|] == s && m[at + |s|] == 0
    ensures CString(m, at) == s
    decreases |s|
  {
    if s != [] {
      assert m[at] == s[0];
      assert m[at + 1..at + 1 + |s[1..]|] == s[1..];
      CStringIs(m, at + 1, s[1..]);
    }
  }

  // ---- packing ------------------------------------------------------------------------------------

  /** The name field: at most 63 bytes, padded with zeros to 64. */
  function NameField(name: Name): (f: seq<u8>)
    ensures |f| == 64
  {
    Truncated(name) + Repeat<u8>(0, 64 - |Truncated(name)|)
  }

  /** Where the data of file i starts. */
  function DataOffset(es: seq<Input>, i: nat): nat
    requires i <= |es|
  {
    if i == 0 then HEADER + ENTRY * |es| else DataOffset(es, i - 1) + |es[i - 1].data|
  }

  lemma {:induction false} OffsetsGrow(es: seq<Input>, i: nat, j: nat)
    requires i <= j <= |es|
    ensures HEADER + ENTRY * |es| <= DataOffset(es, i) <= DataOffset(es, j)
    decreases j
  {
    if i < j { OffsetsGrow(es, i, j - 1); }
    else if i > 0 { OffsetsGrow(es, i - 1, i - 1); }
  }

  /** At most 64 files, an image below 4 GB. */
  ghost predicate Packable(es: seq<Input>) {
    |es| <= 64 && DataOffset(es, |es|) < TWO32
  }

  function EntryBytes(es: seq<Input>, i: nat): (b: seq<u8>)
    requires i < |es| && DataOffset(es, i) < TWO32 && |es[i].data| < TWO32
    ensures |b| == ENTRY
  {
    NameField(es[i].name) + Le32(DataOffset(es, i)) + Le32(|es[i].data|)
  }

  lemma PackableAt(es: seq<Input>, i: nat)
    requires Packable(es) && i < |es|
    ensures DataOffset(es, i) < TWO32 && |es[i].data| < TWO32 && DataOffset(es, i + 1) <= DataOffset(es, |es|)
  {
    OffsetsGrow(es, i, |es|);
    OffsetsGrow(es, i + 1, |es|);
    OffsetsGrow(es, 0, i);
  }

  /** The first i table entries. */
  ghost function TableBytes(es: seq<Input>, i: nat): (b: seq<u8>)
    requires Packable(es) && i <= |es|
    ensures |b| == ENTRY * i
  {
    if i == 0 then [] else
      PackableAt(es, i - 1);
      TableBytes(es, i - 1) + EntryBytes(es, i - 1)
  }

  /** The data of the first i files. */
  ghost function DataBytes(es: seq<Input>, i: nat): (b: seq<u8>)
    requires i <= |es|
    ensures |b| == DataOffset(es, i) - DataOffset(es, 0)
  {
    if i == 0 then [] else DataBytes(es, i - 1) + es[i - 1].data
  }

  ghost function Pack(es: seq<Input>): (m: seq<u8>)
    requires Packable(es)
    ensures |m| == DataOffset(es, |es|)
  {
    Le32(MAGIC) + Le32(|es|) + TableBytes(es, |es|) + DataBytes(es, |es|)
  }

  // ---- where everything is in the image -----------------------------------------------------------------

  lemma PrefixSlice(a: seq<u8>, b: seq<u8>, x: nat, y: nat)
    requires x <= y <= |a|
    ensures (a + b)[x..y] == a[x..y]
  {
    assert forall k | 0 <= k < y - x :: (a + b)[x..y][k] == a[x..y][k];
  }

  lemma {:induction false} TableAt(es: seq<Input>, i: nat, j: nat)
    requires Packable(es) && j < i <= |es|
    ensures DataOffset(es, j) < TWO32 && |es[j].data| < TWO32
    ensures TableBytes(es, i)[ENTRY * j..ENTRY * j + ENTRY] == EntryBytes(es, j)
  {
    PackableAt(es, j);
    PackableAt(es, i - 1);
    if j < i - 1 {
      TableAt(es, i - 1, j);
      PrefixSlice(TableBytes(es, i - 1), EntryBytes(es, i - 1), ENTRY * j, ENTRY * j + ENTRY);
    }
  }

  predicate PartAt(whole: seq<u8>, a: nat, part: seq<u8>) {
    a + |part| <= |whole| && whole[a..a + |part|] == part
  }

  lemma {:induction false} DataAt(es: seq<Input>, i: nat, j: nat)
    requires j < i <= |es|
    ensures DataOffset(es, 0) <= DataOffset(es, j) && DataOffset(es, j) + |es[j].data| <= DataOffset(es, i)
    ensures PartAt(DataBytes(es, i), DataOffset(es, j) - DataOffset(es, 0), es[j].data)
  {
    OffsetsGrow(es, 0, j);
    OffsetsGrow(es, j + 1, i);
    var a := DataOffset(es, j) - DataOffset(es, 0);
    if j < i - 1 {
      DataAt(es, i - 1, j);
      PrefixSlice(DataBytes(es, i - 1), es[i - 1].data, a, a + |es[j].data|);
    }
  }

  lemma FourParts(a: seq<u8>, b: seq<u8>, c: seq<u8>, d: seq<u8>)
    ensures var m := a + b + c + d;
            var x, y, z := |a|, |a| + |b|, |a| + |b| + |c|;
            m[..x] == a && m[x..y] == b && m[y..z] == c && m[z..] == d
  {
  }

  /** The parts of the image: two header words, the table, the data. */
  ghost predicate HasParts(m: seq<u8>, es: seq<Input>)
    requires Packable(es)
  {
    var t := HEADER + ENTRY * |es|;
    && t <= |m| == DataOffset(es, |es|)
    && m[..4] == Le32(MAGIC) && m[4..8] == Le32(|es|)
    && m[HEADER..t] == TableBytes(es, |es|) && m[t..|m|] == DataBytes(es, |es|)
  }

  lemma PackParts(es: seq<Input>)
    requires Packable(es)
    ensures HasParts(Pack(es), es)
  {
    OffsetsGrow(es, 0, |es|);
    FourParts(Le32(MAGIC), Le32(|es|), TableBytes(es, |es|), DataBytes(es, |es|));
  }

  lemma SliceOfSlice(m: seq<u8>, a: nat, b: nat, x: nat, y: nat)
    requires a <= b <= |m| && x <= y <= b - a
    ensures m[a..b][x..y] == m[a + x..a + y]
  {
    assert forall k | 0 <= k < y - x :: m[a..b][x..y][k] == m[a + x..a + y][k];
  }

  /** A part of a part of memory is a part of memory. */
  lemma PartOfPart(m: seq<u8>, a: nat, whole: seq<u8>, x: nat, part: seq<u8>)
    requires a + |whole| <= |m| && m[a..a + |whole|] == whole
    requires x + |part| <= |whole| && whole[x..x + |part|] == part
    ensures m[a + x..a + x + |part|] == part
  {
    SliceOfSlice(m, a, a + |whole|, x, x + |part|);
  }

  lemma EntryAt(m: seq<u8>, es: seq<Input>, i: nat)
    requires Packable(es) && i < |es| && HasParts(m, es)
    ensures DataOffset(es, i) < TWO32 && |es[i].data| < TWO32
    ensures var at := HEADER + ENTRY * i; at + ENTRY <= |m| && m[at..at + ENTRY] == EntryBytes(es, i)
  {
    TableAt(es, |es|, i);
    EntryIn(m, TableBytes(es, |es|), |es|, EntryBytes(es, i), i);
  }

  lemma EntryIn(m: seq<u8>, table: seq<u8>, n: nat, e: seq<u8>, i: nat)
    requires |table| == ENTRY * n && HEADER + ENTRY * n <= |m| && m[HEADER..HEADER + ENTRY * n] == table
    requires i < n && |e| == ENTRY && table[ENTRY * i..ENTRY * i + ENTRY] == e
    ensures HEADER + ENTRY * i + ENTRY <= |m| && m[HEADER + ENTRY * i..HEADER + ENTRY * i + ENTRY] == e
  {
    PartOfPart(m, HEADER, table, ENTRY * i, e);
  }

  /** The three fields inside one table entry. */
  lemma EntryFields(name: Name, offset: u32, size: u32)
    ensures var e, n := NameField(name) + Le32(offset) + Le32(size), Truncated(name);
            |e| == ENTRY && e[..|n|] == n && e[|n|] == 0 && e[64..68] == Le32(offset) && e[68..72] == Le32(size)
  {
  }

  /** A table entry anywhere in memory reads back as what was packed. */
  lemma EntryReadsBack(m: seq<u8>, at: nat, name: Name, offset: u32, size: u32)
    requires at + ENTRY <= |m| && m[at..at + ENTRY] == NameField(name) + Le32(offset) + Le32(size)
    ensures CString(m, at) == Truncated(name)
    ensures Read32(m, at + 64) == offset && Read32(m, at + 68) == size
  {
    var n := Truncated(name);
    EntryFields(name, offset, size);
    SliceOfSlice(m, at, at + ENTRY, 0, |n|);
    assert m[at + |n|] == m[at..at + ENTRY][|n|];
    CStringIs(m, at, n);
    SliceOfSlice(m, at, at + ENTRY, 64, 68);
    SliceOfSlice(m, at, at + ENTRY, 68, 72);
    ReadLe32(m, at + 64, offset);
    ReadLe32(m, at + 68, size);
  }

  /** Reading back: for every file its name, offset, size and data. The data extents follow one another
      without gap from the end of the table to the end of the image. */
  lemma PackReadsBack(es: seq<Input>, i: nat)
    requires Packable(es) && i < |es|
    ensures var m, at := Pack(es), 8 + 72 * i;
            && at + 72 <= |m| == DataOffset(es, |es|)
            && CString(m, at) == Truncated(es[i].name)
            && Read32(m, at + 64) == DataOffset(es, i) && Read32(m, at + 68) == |es[i].data|
            && DataOffset(es, 0) == 8 + 72 * |es|
            && DataOffset(es, i + 1) == DataOffset(es, i) + |es[i].data| <= |m|
            && m[DataOffset(es, i)..DataOffset(es, i + 1)] == es[i].data
  {
    PackedAt(es, i);
    ImageReadsBack(Pack(es), es, i);
  }

  lemma ImageReadsBack(m: seq<u8>, es: seq<Input>, i: nat)
    requires i < |es| && DataOffset(es, i) < TWO32 && |es[i].data| < TWO32 && |m| == DataOffset(es, |es|)
    requires PartAt(m, HEADER + ENTRY * i, EntryBytes(es, i)) && PartAt(m, DataOffset(es, i), es[i].data)
    ensures var at := HEADER + ENTRY * i;
            && at + ENTRY <= |m| && CString(m, at) == Truncated(es[i].name)
            && Read32(m, at + 64) == DataOffset(es, i) && Read32(m, at + 68) == |es[i].data|
            && DataOffset(es, i + 1) == DataOffset(es, i) + |es[i].data| <= |m|
            && m[DataOffset(es, i)..DataOffset(es, i + 1)] == es[i].data
  {
    FieldsReadBack(m, HEADER + ENTRY * i, es, i);
  }

  /** Where the table entry and the data of a file lie in the image. */
  lemma PackedAt(es: seq<Input>, i: nat)
    requires Packable(es) && i < |es|
    ensures DataOffset(es, i) < TWO32 && |es[i].data| < TWO32
    ensures PartAt(Pack(es), HEADER + ENTRY * i, EntryBytes(es, i))
    ensures PartAt(Pack(es), DataOffset(es, i), es[i].data)
  {
    PackParts(es);
    EntryAt(Pack(es), es, i);
    DataReadsBack(Pack(es), es, HEADER + ENTRY * |es|, i);
  }

  lemma FieldsReadBack(m: seq<u8>, at: nat, es: seq<Input>, i: nat)
    requires i < |es| && DataOffset(es, i) < TWO32 && |es[i].data| < TWO32
    requires PartAt(m, at, EntryBytes(es, i))
    ensures at + ENTRY <= |m| && CString(m, at) == Truncated(es[i].name)
    ensures Read32(m, at + 64) == DataOffset(es, i) && Read32(m, at + 68) == |es[i].data|
  {
    EntryReadsBack(m, at, es[i].name, DataOffset(es, i), |es[i].data|);
  }

  lemma DataReadsBack(m: seq<u8>, es: seq<Input>, t: nat, i: nat)
    requires i < |es| && t == DataOffset(es, 0) <= |m| == DataOffset(es, |es|) && m[t..|m|] == DataBytes(es, |es|)
    ensures PartAt(m, DataOffset(es, i), es[i].data)
  {
    DataAt(es, |es|, i);
    DataIn(m, t, DataBytes(es, |es|), DataOffset(es, i), es[i].data);
  }

  lemma DataIn(m: seq<u8>, t: nat, data: seq<u8>, o: nat, part: seq<u8>)
    requires t + |data| == |m| && m[t..|m|] == data
    requires t <= o && PartAt(data, o - t, part)
    ensures PartAt(m, o, part)
  {
    PartOfPart(m, t, data, o - t, part);
  }

  /** The header: the magic number and the number of files. */
  lemma PackHeader(es: seq<Input>)
    requires Packable(es)
    ensures |Pack(es)| >= 8 && Read32(Pack(es), 0) == 0x5241_4D46 && Read32(Pack(es), 4) == |es|
  {
    PackParts(es);
    ReadLe32(Pack(es), 0, MAGIC);
    ReadLe32(Pack(es), 4, |es|);
  }

  /** The four bytes of a word, low byte first. */
  lemma WordBytes(m: seq<u8>, at: nat, w: nat)
    requires at + 4 <= |m| && Read32(m, at) == w
    ensures m[at] == w % 0x100 && m[at + 1] == w / 0x100 % 0x100
    ensures m[at + 2] == w / 0x1_0000 % 0x100 && m[at + 3] == w / 0x100_0000
  {
    LanesOfJoin(m[at], m[at + 1], m[at + 2], m[at + 3]);
  }

  /** The eight bytes of the header. */
  lemma HeaderBytes(es: seq<Input>)
    requires Packable(es)
    ensures var m := Pack(es);
            && |m| >= 8 && m[0] == 0x46 && m[1] == 0x4D && m[2] == 0x41 && m[3] == 0x52
            && m[4] == |es| && m[5] == m[6] == m[7] == 0
  {
    PackHeader(es);
    HeaderWords(Pack(es), |es|);
  }

  lemma HeaderWords(m: seq<u8>, n: nat)
    requires |m| >= 8 && Read32(m, 0) == 0x5241_4D46 && Read32(m, 4) == n <= 64
    ensures m[0] == 0x46 && m[1] == 0x4D && m[2] == 0x41 && m[3] == 0x52
    ensures m[4] == n && m[5] == m[6] == m[7] == 0
  {
    WordBytes(m, 0, 0x5241_4D46);
    WordBytes(m, 4, n);
  }

  /** The 72 bytes of a file's entry: 64 for the name, cut at 63 bytes and padded with zeros, and four each
      for the offset and the size of its data, low byte first. */
  lemma EntryLayout(es: seq<Input>, i: nat, k: nat)
    requires Packable(es) && i < |es| && k < 64
    ensures var m, at, o, n := Pack(es), 8 + 72 * i, DataOffset(es, i), |es[i].data|;
            && at + 72 <= |m|
            && m[at + k] == (if k < |es[i].name| && k < 63 then es[i].name[k] else 0)
            && m[at + 64] == o % 0x100 && m[at + 65] == o / 0x100 % 0x100
            && m[at + 66] == o / 0x1_0000 % 0x100 && m[at + 67] == o / 0x100_0000
            && m[at + 68] == n % 0x100 && m[at + 69] == n / 0x100 % 0x100
            && m[at + 70] == n / 0x1_0000 % 0x100 && m[at + 71] == n / 0x100_0000
  {
    PackedAt(es, i);
    EntryBytesAt(Pack(es), HEADER + ENTRY * i, es, i, k);
  }

  lemma EntryBytesAt(m: seq<u8>, at: nat, es: seq<Input>, i: nat, k: nat)
    requires i < |es| && k < 64 && DataOffset(es, i) < TWO32 && |es[i].data| < TWO32
    requires PartAt(m, at, EntryBytes(es, i))
    ensures at + 72 <= |m| && m[at + k] == if k < |es[i].name| && k < 63 then es[i].name[k] else 0
    ensures var o := DataOffset(es, i);
            && m[at + 64] == o % 0x100 && m[at + 65] == o / 0x100 % 0x100
            && m[at + 66] == o / 0x1_0000 % 0x100 && m[at + 67] == o / 0x100_0000
    ensures var n := |es[i].data|;
            && m[at + 68] == n % 0x100 && m[at + 69] == n / 0x100 % 0x100
            && m[at + 70] == n / 0x1_0000 % 0x100 && m[at + 71] == n / 0x100_0000
  {
    FieldsReadBack(m, at, es, i);
    WordBytes(m, at + 64, DataOffset(es, i));
    WordBytes(m, at + 68, |es[i].data|);
    assert m[at + k] == m[at..at + ENTRY][k] == NameField(es[i].name)[k];
  }

  // ---- loading ------------------------------------------------------------------------------------------

  function Clip(n: nat): nat {
    if n > FILE_MAX then FILE_MAX else n
  }

  /** Entry i of the table and the data it names lie in memory. */
  ghost predicate EntryOk(m: seq<u8>, i: nat) {
    && HEADER + ENTRY * i + ENTRY <= |m|
    && Read32(m, HEADER + ENTRY * i + 64) + Clip(Read32(m, HEADER + ENTRY * i + 68)) <= |m|
  }

  /** Create `name` and, if that succeeds and there are bytes, make them its contents. */
  ghost function LoadFile(fs: seq<File>, name: Name, bytes: seq<u8>): (g: seq<File>)
    requires FsOk(fs) && |bytes| <= FILE_MAX
    ensures FsOk(g)
  {
    var (g, idx) := Create(fs, name);
    if idx >= 0 && |bytes| > 0
    then g[idx := g[idx].(data := Splice(g[idx].data, 0, bytes), size := |bytes|)]
    else g
  }

  /** The bytes entry i asks to copy. */
  ghost function EntryData(m: seq<u8>, i: nat): (b: seq<u8>)
    requires EntryOk(m, i)
    ensures |b| <= FILE_MAX
  {
    var o := Read32(m, HEADER + ENTRY * i + 64);
    m[o..o + Clip(Read32(m, HEADER + ENTRY * i + 68))]
  }

  /** One turn of the loop in initramfs_load. */
  ghost function LoadEntry(m: seq<u8>, fs: seq<File>, i: nat): (g: seq<File>)
    requires FsOk(fs) && EntryOk(m, i)
    ensures FsOk(g)
  {
    LoadFile(fs, CString(m, HEADER + ENTRY * i), EntryData(m, i))
  }

  ghost function LoadEntries(m: seq<u8>, fs: seq<File>, n: nat): (g: seq<File>)
    requires FsOk(fs) && forall i | 0 <= i < n :: EntryOk(m, i)
    ensures FsOk(g)
  {
    if n == 0 then fs else LoadEntry(m, LoadEntries(m, fs, n - 1), n - 1)
  }

  ghost predicate ImageOk(m: seq<u8>) {
    HEADER <= |m| && (Read32(m, 0) == MAGIC ==> forall i | 0 <= i < Read32(m, 4) :: EntryOk(m, i))
  }

  /** initramfs_load: an image with the wrong magic is ignored. */
  ghost function Load(m: seq<u8>, fs: seq<File>): seq<File>
    requires FsOk(fs) && ImageOk(m)
  {
    if Read32(m, 0) != MAGIC then fs else LoadEntries(m, fs, Read32(m, 4))
  }

  /** An image that does not start with the four bytes of the magic number, low byte first, is ignored. */
  lemma OtherImageIsIgnored(m: seq<u8>, fs: seq<File>)
    requires FsOk(fs) && ImageOk(m) && m[..4] != [0x46, 0x4D, 0x41, 0x52]
    ensures Load(m, fs) == fs
  {
    LanesOfJoin(m[0], m[1], m[2], m[3]);
    LanesOfJoin(0x46, 0x4D, 0x41, 0x52);
    assert m[..4] == [m[0], m[1], m[2], m[3]];
  }
}

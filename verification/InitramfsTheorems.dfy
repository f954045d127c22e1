/** Packing and loading undo each other, on an empty and on a populated file system. */
module InitramfsTheorems {
  import opened Words
  import opened RamfsModel
  import opened InitramfsModel

  // ---- loading, file by file ----------------------------------------------------------------------

  /** What the packer keeps of a file: its name cut at 63 bytes; what the loader keeps: its data cut at
      32 KB. */
  function NameOf(e: Input): Name { if |e.name| <= 63 then e.name else e.name[..63] }
  function DataOf(e: Input): (b: seq<u8>)
    ensures |b| <= 32768
  {
    if |e.data| <= 32768 then e.data else e.data[..32768]
  }

  /** What loading one file does to a directory: an existing name or a full table leaves it alone. */
  ghost function MergeOne(d: map<Name, seq<u8>>, e: Input): map<Name, seq<u8>> {
    if NameOf(e) in d || |d| >= 64 then d else d[NameOf(e) := DataOf(e)]
  }

  ghost function Merge(d: map<Name, seq<u8>>, es: seq<Input>, k: nat): map<Name, seq<u8>>
    requires k <= |es|
  {
    if k == 0 then d else MergeOne(Merge(d, es, k - 1), es[k - 1])
  }

  lemma UpdatedTwice(d: map<Name, seq<u8>>, n: Name, a: seq<u8>, b: seq<u8>)
    ensures d[n := a][n := b] == d[n := b]
  {
  }

  lemma LoadFileMerges(fs: seq<File>, name: Name, bytes: seq<u8>)
    requires FsOk(fs) && Unique(fs) && |name| <= NAME_MAX && |bytes| <= FILE_MAX
    ensures Unique(LoadFile(fs, name, bytes))
    ensures Dir(LoadFile(fs, name, bytes)) == if name in Dir(fs) || |Dir(fs)| >= 64 then Dir(fs) else Dir(fs)[name := bytes]
  {
    FreeSlotIffRoom(fs);
    CreateSpec(fs, name);
    var r := Create(fs, name);
    if r.1 >= 0 {
      assert r.0[r.1].name == name && r.0[r.1].size == 0;
      FillSlot(r.0, r.1, bytes);
      UpdatedTwice(Dir(fs), name, [], bytes);
    }
  }

  /** Entry i of the image reads as `e`. */
  ghost predicate EntryIs(m: seq<u8>, i: nat, e: Input) {
    EntryOk(m, i) && CString(m, HEADER + ENTRY * i) == NameOf(e) && EntryData(m, i) == DataOf(e)
  }

  lemma LoadEntryMerges(m: seq<u8>, fs: seq<File>, i: nat, e: Input)
    requires FsOk(fs) && Unique(fs) && EntryIs(m, i, e)
    ensures Unique(LoadEntry(m, fs, i)) && Dir(LoadEntry(m, fs, i)) == MergeOne(Dir(fs), e)
  {
    LoadFileMerges(fs, NameOf(e), DataOf(e));
  }

  /** Filling a just-created, empty slot. */
  lemma FillSlot(g: seq<File>, idx: nat, bytes: seq<u8>)
    requires FsOk(g) && Unique(g) && idx < SLOTS && g[idx].used && g[idx].size == 0 && |bytes| <= FILE_MAX
    ensures var f := g[idx].(data := Splice(g[idx].data, 0, bytes), size := |bytes|);
            && Unique(g[idx := f]) && FsOk(g[idx := f])
            && Dir(g[idx := f]) == Dir(g)[g[idx].name := bytes]
    ensures bytes == [] ==> Dir(g) == Dir(g)[g[idx].name := bytes]
  {
    var f := g[idx].(data := Splice(g[idx].data, 0, bytes), size := |bytes|);
    DirUpdate(g, idx, f);
    assert f.Contents() == bytes;
    DirAt(g, idx);
  }

  lemma PackedEntryIs(es: seq<Input>, i: nat)
    requires Packable(es) && i < |es|
    ensures EntryIs(Pack(es), i, es[i])
  {
    PackReadsBack(es, i);
    ReadsAs(Pack(es), i, es[i], DataOffset(es, i));
  }

  lemma ReadsAs(m: seq<u8>, i: nat, e: Input, o: nat)
    requires 8 + 72 * i + 72 <= |m| && CString(m, 8 + 72 * i) == Truncated(e.name)
    requires Read32(m, 8 + 72 * i + 64) == o && Read32(m, 8 + 72 * i + 68) == |e.data|
    requires o + |e.data| <= |m| && m[o..o + |e.data|] == e.data
    ensures EntryIs(m, i, e)
  {
    SliceOfSlice(m, o, o + |e.data|, 0, Clip(|e.data|));
  }

  /** `g` is `fs` with the first k inputs merged in. */
  ghost predicate Loaded(fs: seq<File>, g: seq<File>, es: seq<Input>, k: nat) {
    k <= |es| && FsOk(fs) && FsOk(g) && Unique(g) && Dir(g) == Merge(Dir(fs), es, k)
  }

  lemma LoadedStep(m: seq<u8>, fs: seq<File>, g: seq<File>, es: seq<Input>, k: nat)
    requires Loaded(fs, g, es, k) && k < |es| && EntryIs(m, k, es[k])
    ensures Loaded(fs, LoadEntry(m, g, k), es, k + 1)
  {
    LoadEntryMerges(m, g, k, es[k]);
  }

  lemma {:induction false} LoadEntriesMerge(m: seq<u8>, es: seq<Input>, fs: seq<File>, k: nat, g: seq<File>)
    requires FsOk(fs) && Unique(fs) && k <= |es|
    requires forall i | 0 <= i < k :: EntryOk(m, i) && EntryIs(m, i, es[i])
    requires g == LoadEntries(m, fs, k)
    ensures Loaded(fs, g, es, k)
    decreases k
  {
    if k > 0 {
      var h := LoadEntries(m, fs, k - 1);
      LoadEntriesMerge(m, es, fs, k - 1, h);
      LoadedStep(m, fs, h, es, k - 1);
      LastEntry(m, fs, k, h);
    }
  }

  lemma LastEntry(m: seq<u8>, fs: seq<File>, k: nat, g: seq<File>)
    requires FsOk(fs) && 0 < k && (forall i | 0 <= i < k :: EntryOk(m, i)) && g == LoadEntries(m, fs, k - 1)
    ensures LoadEntries(m, fs, k) == LoadEntry(m, g, k - 1)
  {
  }

  /** Loading a packed image, into any file system: every packed file is added in order, unless its name
      is taken or the 64 slots are. */
  lemma LoadPacked(es: seq<Input>, fs: seq<File>)
    requires Packable(es) && FsOk(fs) && Unique(fs)
    ensures ImageOk(Pack(es)) && Unique(Load(Pack(es), fs)) && Dir(Load(Pack(es), fs)) == Merge(Dir(fs), es, |es|)
  {
    PackHeader(es);
    var m := Pack(es);
    forall i | 0 <= i < |es| ensures EntryIs(m, i, es[i]) && EntryOk(m, i) { PackedEntryIs(es, i); }
    LoadEntriesMerge(m, es, fs, |es|, LoadEntries(m, fs, |es|));
  }

  // ---- what that means ------------------------------------------------------------------------------

  lemma {:induction false} MergeKeeps(d: map<Name, seq<u8>>, es: seq<Input>, k: nat, x: Name)
    requires k <= |es| && x in d
    ensures x in Merge(d, es, k) && Merge(d, es, k)[x] == d[x]
  {
    if k > 0 { MergeKeeps(d, es, k - 1, x); }
  }

  /** Loading never changes a file that is already there. */
  lemma LoadKeepsExisting(es: seq<Input>, fs: seq<File>, x: Name)
    requires Packable(es) && FsOk(fs) && Unique(fs) && x in Dir(fs)
    ensures ImageOk(Pack(es)) && x in Dir(Load(Pack(es), fs)) && Dir(Load(Pack(es), fs))[x] == Dir(fs)[x]
  {
    LoadPacked(es, fs);
    MergeKeeps(Dir(fs), es, |es|, x);
  }

  /** Whatever a load leaves is a file that was there, unchanged, or a packed one: its name cut at 63 bytes,
      its data whole up to 32768 bytes and cut there beyond. */
  lemma LoadedIsOldOrPacked(es: seq<Input>, fs: seq<File>, x: Name)
    requires Packable(es) && FsOk(fs) && Unique(fs)
    ensures ImageOk(Pack(es))
    ensures var d := Dir(Load(Pack(es), fs));
            x in d ==>
              || (x in Dir(fs) && d[x] == Dir(fs)[x])
              || exists i | 0 <= i < |es| ::
                   && x == (if |es[i].name| <= 63 then es[i].name else es[i].name[..63])
                   && d[x] == if |es[i].data| <= 32768 then es[i].data else es[i].data[..32768]
  {
    LoadPacked(es, fs);
    if x in Merge(Dir(fs), es, |es|) { MergedFrom(Dir(fs), es, |es|, x); }
  }

  lemma {:induction false} MergedFrom(d: map<Name, seq<u8>>, es: seq<Input>, k: nat, x: Name)
    requires k <= |es| && x in Merge(d, es, k)
    ensures || (x in d && Merge(d, es, k)[x] == d[x])
            || exists i | 0 <= i < k :: x == NameOf(es[i]) && Merge(d, es, k)[x] == DataOf(es[i])
  {
    if k > 0 {
      if x in Merge(d, es, k - 1) { MergedFrom(d, es, k - 1, x); } else { assert x == NameOf(es[k - 1]); }
    }
  }

  ghost predicate DistinctNames(es: seq<Input>) {
    forall i, j | 0 <= i < j < |es| :: NameOf(es[i]) != NameOf(es[j])
  }

  ghost function NameSet(es: seq<Input>, k: nat): (r: set<Name>)
    requires k <= |es|
  {
    if k == 0 then {} else NameSet(es, k - 1) + {NameOf(es[k - 1])}
  }

  /** Distinct names stay apart: the set of the first k has k elements and not the next one. */
  lemma {:induction false} NameSetFacts(es: seq<Input>, k: nat, j: nat)
    requires DistinctNames(es) && k <= |es|
    ensures |NameSet(es, k)| == k
    ensures j < k ==> NameOf(es[j]) in NameSet(es, k)
    ensures k <= j < |es| ==> NameOf(es[j]) !in NameSet(es, k)
  {
    if k > 0 {
      NameSetFacts(es, k - 1, k - 1);
      NameSetFacts(es, k - 1, j);
    }
  }

  /** The directory holds the first k inputs and nothing else. */
  ghost predicate Exactly(d: map<Name, seq<u8>>, es: seq<Input>, k: nat)
    requires k <= |es|
  {
    d.Keys == NameSet(es, k) && forall i | 0 <= i < k :: NameOf(es[i]) in d && d[NameOf(es[i])] == DataOf(es[i])
  }

  lemma {:induction false} MergeFromEmpty(es: seq<Input>, k: nat)
    requires DistinctNames(es) && k <= |es| <= 64
    ensures Exactly(Merge(map[], es, k), es, k) && |Merge(map[], es, k)| == k
  {
    if k > 0 {
      MergeFromEmpty(es, k - 1);
      MergeOneMore(Merge(map[], es, k - 1), es, k);
    }
  }

  lemma MergeOneMore(d: map<Name, seq<u8>>, es: seq<Input>, k: nat)
    requires DistinctNames(es) && 0 < k <= |es| <= 64 && Exactly(d, es, k - 1) && |d| == k - 1
    ensures Exactly(MergeOne(d, es[k - 1]), es, k) && |MergeOne(d, es[k - 1])| == k
  {
    var n := NameOf(es[k - 1]);
    NameSetFacts(es, k - 1, k - 1);
    var e := d[n := DataOf(es[k - 1])];
    assert e.Keys == d.Keys + {n} && |e| == |e.Keys|;
    forall i | 0 <= i < k - 1 ensures NameOf(es[i]) != n { NameSetFacts(es, k - 1, i); }
  }

  /** The round trip: pack up to 64 files with distinct names, load the image into an empty file system,
      and it holds exactly those names and contents, each cut at 32 KB. */
  lemma RoundTrip(es: seq<Input>, fs: seq<File>)
    requires Packable(es) && DistinctNames(es) && FsOk(fs) && Unique(fs) && Names(fs) == {}
    ensures ImageOk(Pack(es)) && Exactly(Dir(Load(Pack(es), fs)), es, |es|)
  {
    LoadPacked(es, fs);
    assert Dir(fs) == map[];
    MergeFromEmpty(es, |es|);
  }

  /** The same, file by file: under its name, cut at 63 bytes, stand all its bytes, or the first 32768 of
      them when there are more. */
  lemma RoundTripOfFile(es: seq<Input>, fs: seq<File>, i: nat)
    requires Packable(es) && DistinctNames(es) && FsOk(fs) && Unique(fs) && Names(fs) == {} && i < |es|
    ensures ImageOk(Pack(es))
    ensures var d, e := Dir(Load(Pack(es), fs)), es[i];
            && |d| == |es|
            && (|e.name| <= 63 && |e.data| <= 32768 ==> e.name in d && d[e.name] == e.data)
            && (|e.name| <= 63 && |e.data| > 32768 ==> e.name in d && d[e.name] == e.data[..32768])
            && (|e.name| > 63 ==>
                  e.name[..63] in d && d[e.name[..63]] == if |e.data| <= 32768 then e.data else e.data[..32768])
  {
    RoundTrip(es, fs);
    LoadPacked(es, fs);
    assert Dir(fs) == map[];
    MergeFromEmpty(es, |es|);
    assert NameOf(es[i]) in Dir(Load(Pack(es), fs));
  }
}

/** A volume of the kernel's FAT32 as a value: its invariant, and what adding, growing, writing and clearing a file do.
    */
module KernelVolume {
  import opened Arith
  import opened Basics
  import opened Bytes
  import opened KernelChain
  import opened KernelFs
  import opened KernelVfs
  import D = KernelData

  /** Table, hint, count, data and files of one volume. */
  datatype Vol = Vol(g: D.Geometry, fat: Table, hint: nat, free: nat, data: D.Disk, files: Files, chains: Chains)

  /** Room for every cluster, every file its own chain, and the stored count is the number of zero entries. */
  ghost predicate VolumeOk(v: Vol) {
    && 2 <= |v.fat| <= MAX_CLUSTER && v.g.spc > 0 && v.g.root + (|v.fat| - 2) * v.g.spc <= |v.data|
    && FilesOk(v.g, v.fat, v.files, v.chains)
    && v.free == ZeroCount(v.fat, 2)
  }

  lemma {:induction false} FileFacts(v: Vol, f: nat)
    requires VolumeOk(v) && f in v.files
    ensures v.g.spc > 0 && f in v.chains && IsChain(v.fat, v.chains[f])
    ensures |v.chains[f]| == CeilDiv(v.files[f].size, v.g.spc * 512)
    ensures v.files[f].first == (if |v.chains[f]| == 0 then 0 else v.chains[f][0])
    ensures forall i :: 0 <= i < |v.chains[f]| ==> 2 <= v.chains[f][i] < |v.fat|
    ensures 2 <= |v.fat| <= MAX_CLUSTER && v.g.root + (|v.fat| - 2) * v.g.spc <= |v.data|
    ensures NoDup(v.chains[f])
  {
    assert FileOk(v.g, v.fat, v.files[f], v.chains[f]);
  }

  /** All bytes of the clusters of a file. */
  ghost function CellsIn(v: Vol, h: nat): seq<Byte>
    requires VolumeOk(v) && h in v.files
  {
    FileFacts(v, h);
    ChainOnDisk(v.g, v.data, v.fat, v.chains[h]);
    Cells(v.g, v.data, v.chains[h])
  }

  lemma {:induction false} SizeInCells(v: Vol, h: nat)
    requires VolumeOk(v) && h in v.files
    ensures h in v.chains && |CellsIn(v, h)| == |v.chains[h]| * (v.g.spc * 512)
    ensures v.files[h].size <= |CellsIn(v, h)| < v.files[h].size + v.g.spc * 512
  {
    FileFacts(v, h);
    ChainOnDisk(v.g, v.data, v.fat, v.chains[h]);
    CellAt(v.g, v.data, v.chains[h], 0);
    CeilBounds(v.files[h].size, v.g.spc * 512);
  }

  /** The bytes of a file. */
  ghost function ContentIn(v: Vol, h: nat): (c: seq<Byte>)
    requires VolumeOk(v) && h in v.files
    ensures |c| == v.files[h].size
  {
    SizeInCells(v, h);
    CellsIn(v, h)[..v.files[h].size]
  }

  /** Only `f` may differ: every other file keeps its entry, its chain and all bytes of its clusters. */
  ghost predicate OnlyFile(v: Vol, w: Vol, f: nat) {
    && VolumeOk(v) && VolumeOk(w) && w.g == v.g && w.files.Keys == v.files.Keys
    && forall h :: h in v.files && h != f ==> Kept(v, w, h)
  }

  ghost predicate Kept(v: Vol, w: Vol, h: nat)
    requires VolumeOk(v) && VolumeOk(w)
  {
    && h in v.files && h in w.files && h in v.chains && h in w.chains
    && w.files[h] == v.files[h] && w.chains[h] == v.chains[h] && CellsIn(w, h) == CellsIn(v, h)
  }

  /** `f` has grown to `more` bytes: its chain is extended, and its clusters by zeros. */
  ghost predicate Extended(v: Vol, w: Vol, f: nat, more: nat) {
    && OnlyFile(v, w, f) && f in v.files && f in v.chains && f in w.chains
    && v.files[f].size <= more && w.files[f].size == more && v.chains[f] <= w.chains[f]
    && |CellsIn(v, f)| <= |CellsIn(w, f)| && CellsIn(w, f) == CellsIn(v, f) + Zeros(|CellsIn(w, f)| - |CellsIn(v, f)|)
  }

  lemma {:induction false} ExtendedOk(v: Vol, w: Vol, f: nat, more: nat)
    requires Extended(v, w, f, more)
    ensures OnlyFile(v, w, f) && VolumeOk(w) && f in w.files
  {
  }

  lemma {:induction false} SameFiles(v: Vol, w: Vol, f: nat)
    requires OnlyFile(v, w, f)
    ensures w.files.Keys == v.files.Keys && w.g == v.g && VolumeOk(v) && VolumeOk(w)
  {
  }

  lemma {:induction false} OnlyTrans(v: Vol, w: Vol, z: Vol, f: nat)
    requires OnlyFile(v, w, f) && OnlyFile(w, z, f)
    ensures OnlyFile(v, z, f)
  {
    hide CellsIn, VolumeOk;
    forall h | h in v.files && h != f ensures Kept(v, z, h) { assert Kept(v, w, h) && Kept(w, z, h); }
  }

  lemma {:induction false} Unchanged(v: Vol, f: nat)
    requires VolumeOk(v)
    ensures OnlyFile(v, v, f)
    ensures f in v.files ==> Extended(v, v, f, v.files[f].size)
  {
    hide CellsIn, VolumeOk;
    forall h | h in v.files ensures Kept(v, v, h) { FileFacts(v, h); }
    if f in v.files { FileFacts(v, f); }
  }

  /** A file whose clusters keep their bytes is kept. */
  lemma {:induction false} KeepsCells(v: Vol, w: Vol, h: nat)
    requires VolumeOk(v) && VolumeOk(w) && w.g == v.g && h in v.files && h in w.files && h in v.chains && h in w.chains
    requires w.files[h] == v.files[h] && w.chains[h] == v.chains[h]
    requires D.OnDisk(v.g, v.data, v.chains[h]) && D.OnDisk(v.g, w.data, v.chains[h])
    requires forall i: nat :: D.InChain(v.g, v.chains[h], i) ==>
               D.ByteAt(v.g, w.data, v.chains[h], i) == D.ByteAt(v.g, v.data, v.chains[h], i)
    ensures Kept(v, w, h)
  {
    hide D.ByteAt, D.InChain, D.OnDisk, VolumeOk, Cells;
    SameCells(v.g, v.data, w.data, v.chains[h]);
  }

  lemma {:induction false} FileOnDisk(v: Vol, h: nat)
    requires VolumeOk(v) && h in v.files
    ensures h in v.chains && D.OnDisk(v.g, v.data, v.chains[h])
  {
    hide VolumeOk;
    FileFacts(v, h);
    ChainOnDisk(v.g, v.data, v.fat, v.chains[h]);
  }

  // ---------- adding ----------

  function WithNew(v: Vol, f: nat): Vol {
    v.(files := v.files[f := DirEntry(0, 0)], chains := v.chains[f := []])
  }

  /** A new file has no clusters and no bytes; all others are as they were. */
  lemma {:induction false} NewVolume(v: Vol, f: nat)
    requires VolumeOk(v) && f !in v.files
    ensures VolumeOk(WithNew(v, f)) && CellsIn(WithNew(v, f), f) == []
    ensures forall h :: h in v.files ==> Kept(v, WithNew(v, f), h)
  {
    hide ZeroCount, IsChain, CeilDiv, CellsIn, Apart;
    var w := WithNew(v, f);
    NewFileOk(v.g, v.fat);
    forall h, k | h in w.files && k in w.files && h != k ensures Apart(w.chains[h], w.chains[k]) {
      if h in v.files && k in v.files { assert Apart(v.chains[h], v.chains[k]); }
      NothingApart(w.chains[h], w.chains[k]);
    }
    forall h | h in v.files ensures FileOk(w.g, w.fat, w.files[h], w.chains[h]) {
      assert FileOk(v.g, v.fat, v.files[h], v.chains[h]);
    }
    assert VolumeOk(w);
    NoCells(w, f);
    forall h | h in v.files ensures Kept(v, w, h) { SameKept(v, w, h); }
  }

  lemma {:induction false} NewFileOk(g: D.Geometry, fat: Table)
    requires g.spc > 0
    ensures FileOk(g, fat, DirEntry(0, 0), [])
  {
    CeilBounds(0, g.spc * 512);
  }

  lemma {:induction false} NoCells(v: Vol, f: nat)
    requires VolumeOk(v) && f in v.files && f in v.chains && |v.chains[f]| == 0
    ensures CellsIn(v, f) == []
  {
  }

  lemma {:induction false} SameKept(v: Vol, w: Vol, h: nat)
    requires VolumeOk(v) && VolumeOk(w) && w.g == v.g && w.data == v.data && h in v.files && h in w.files
    requires h in v.chains && h in w.chains && w.files[h] == v.files[h] && w.chains[h] == v.chains[h]
    ensures Kept(v, w, h)
  {
    hide VolumeOk, Cells;
  }

  // ---------- growing ----------

  function GrownVol(v: Vol, f: nat, more: nat, s: seq<nat>, data': D.Disk): Vol
    requires f in v.files && f in v.chains && 0 < |s| <= v.free
    requires (forall i :: 0 <= i < |s| ==> s[i] < |v.fat|) &&
             (forall i :: 0 <= i < |v.chains[f]| ==> v.chains[f][i] < |v.fat|)
  {
    var c := v.chains[f];
    Vol(v.g, Grown(v.fat, c, s), s[|s| - 1], v.free - |s|, data',
        v.files[f := DirEntry(if |c| == 0 then s[0] else v.files[f].first, more)], v.chains[f := c + s])
  }

  lemma {:induction false} GrowOk(v: Vol, f: nat, more: nat, s: seq<nat>, data': D.Disk)
    requires VolumeOk(v) && f in v.files && f in v.chains
    requires FreeAscending(v.fat, v.hint, s) && v.hint >= 1 && 0 < |s| <= v.free
    requires |v.chains[f]| + |s| == CeilDiv(more, v.g.spc * 512) && |data'| == |v.data|
    ensures forall i :: 0 <= i < |v.chains[f]| ==> v.chains[f][i] < |v.fat|
    ensures VolumeOk(GrownVol(v, f, more, s, data'))
  {
    hide FilesOk, ZeroCount, IsChain, CeilDiv, Grown;
    FileFacts(v, f);
    var c := v.chains[f];
    GrowKeeps(v.g, v.fat, v.files, v.chains, f, more, s, v.hint);
    GrownZeros(v.fat, c, s, v.hint);
    GrownSize(v.fat, c, s);
  }

  lemma {:induction false} GrownSize(fat: Table, c: seq<nat>, s: seq<nat>)
    requires (forall i :: 0 <= i < |s| ==> s[i] < |fat|) && (forall i :: 0 <= i < |c| ==> c[i] < |fat|) && |s| > 0
    ensures |Grown(fat, c, s)| == |fat|
  {
  }

  lemma {:induction false} ClearedElsewhere(g: D.Geometry, before: D.Disk, after: D.Disk, s: seq<nat>, o: seq<nat>)
    requires D.OnDisk(g, before, o) && |after| == |before| && Apart(o, s)
    requires forall t :: 0 <= t < |after| && !InClusters(g, s, t) ==> after[t] == before[t]
    requires forall j :: 0 <= j < |s| ==> s[j] >= 2
    ensures D.OnDisk(g, after, o)
    ensures forall i: nat :: D.InChain(g, o, i) ==> D.ByteAt(g, after, o, i) == D.ByteAt(g, before, o, i)
  {
    hide InClusters, D.ByteAt, D.InChain;
    forall i: nat | D.InChain(g, o, i) ensures D.ByteAt(g, after, o, i) == D.ByteAt(g, before, o, i) {
      ClearingApart(g, before, after, s, o, i);
    }
  }

  /** Growing onto new clusters keeps the invariant and every byte of every file, and appends zeros. */
  lemma {:induction false} GrowVolume(v: Vol, f: nat, more: nat, s: seq<nat>)
    requires VolumeOk(v) && f in v.files && f in v.chains && v.files[f].size <= more
    requires FreeAscending(v.fat, v.hint, s) && v.hint >= 1 && 0 < |s| <= v.free
    requires |v.chains[f]| + |s| == CeilDiv(more, v.g.spc * 512)
    ensures forall i :: 0 <= i < |v.chains[f]| ==> v.chains[f][i] < |v.fat|
    ensures Extended(v, GrownVol(v, f, more, s, Zeroed(v.g, v.data, s)), f, more)
  {
    hide D.ByteAt, D.InChain, D.OnDisk, ZeroCount, IsChain, CeilDiv, CellsIn, Grown, FilesOk, Zeroed, InClusters;
    var data' := Zeroed(v.g, v.data, s);
    GrowOk(v, f, more, s, data');
    var w := GrownVol(v, f, more, s, data');
    GrowSelf(v, w, f, s);
    forall h | h in v.files && h != f ensures Kept(v, w, h) {
      FileFacts(v, h);
      FileFacts(w, h);
      GrowOther(v, w, s, h);
    }
  }

  lemma {:induction false} GrowSelf(v: Vol, w: Vol, f: nat, s: seq<nat>)
    requires VolumeOk(v) && VolumeOk(w) && w.g == v.g && f in v.files && f in w.files && f in v.chains && f in w.chains
    requires w.chains[f] == v.chains[f] + s && FreeAscending(v.fat, v.hint, s) && v.hint >= 1
    requires w.data == Zeroed(v.g, v.data, s)
    ensures |CellsIn(v, f)| <= |CellsIn(w, f)| &&
            CellsIn(w, f) == CellsIn(v, f) + Zeros(|CellsIn(w, f)| - |CellsIn(v, f)|)
  {
    hide D.ByteAt, D.InChain, D.OnDisk, ZeroCount, IsChain, CeilDiv, Cells, InClusters, FilesOk;
    var c := v.chains[f];
    FileFacts(v, f);
    FileOnDisk(v, f);
    FileOnDisk(w, f);
    FreeApart(v.fat, c, s, v.hint);
    ClearedElsewhere(v.g, v.data, w.data, s, c);
    GrownCells(v.g, v.data, w.data, c, s);
  }

  lemma {:induction false} GrowOther(v: Vol, w: Vol, s: seq<nat>, h: nat)
    requires VolumeOk(v) && VolumeOk(w) && w.g == v.g && h in v.files && h in w.files && h in v.chains && h in w.chains
    requires w.files[h] == v.files[h] && w.chains[h] == v.chains[h]
    requires FreeAscending(v.fat, v.hint, s) && v.hint >= 1 && w.data == Zeroed(v.g, v.data, s)
    ensures Kept(v, w, h)
  {
    hide D.ByteAt, D.InChain, D.OnDisk, ZeroCount, IsChain, CeilDiv, CellsIn, InClusters, FilesOk;
    FileFacts(v, h);
    FileOnDisk(v, h);
    FreeApart(v.fat, v.chains[h], s, v.hint);
    ClearedElsewhere(v.g, v.data, w.data, s, v.chains[h]);
    KeepsCells(v, w, h);
  }

  function Resized(v: Vol, f: nat, more: nat): Vol
    requires f in v.files
  {
    v.(files := v.files[f := DirEntry(v.files[f].first, more)])
  }

  /** A file may grow within its last cluster. */
  lemma {:induction false} ResizeVolume(v: Vol, f: nat, more: nat)
    requires VolumeOk(v) && f in v.files && f in v.chains && v.files[f].size <= more
    requires |v.chains[f]| == CeilDiv(more, v.g.spc * 512)
    ensures Extended(v, Resized(v, f, more), f, more)
  {
    hide ZeroCount, IsChain, CeilDiv, Cells, Apart;
    var w := Resized(v, f, more);
    assert FileOk(v.g, v.fat, v.files[f], v.chains[f]);
    assert VolumeOk(w);
    forall h | h in v.files && h != f ensures Kept(v, w, h) { SameKept(v, w, h); }
  }

  // ---------- writing ----------

  /** Writing within a file changes these bytes of this file, and nothing else. */
  lemma {:induction false} WriteVolume(v: Vol, f: nat, off: nat, buf: seq<Byte>)
    requires VolumeOk(v) && f in v.files && |buf| > 0 && off + |buf| <= v.files[f].size
    ensures f in v.chains && D.OnDisk(v.g, v.data, v.chains[f]) && D.InChain(v.g, v.chains[f], off + |buf| - 1)
    ensures off + |buf| <= |CellsIn(v, f)|
    ensures var w := v.(data := D.WriteSpec(v.g, v.data, v.chains[f], off, buf));
            OnlyFile(v, w, f) && CellsIn(w, f) == Overwrite(CellsIn(v, f), off, buf)
  {
    hide D.ByteAt, D.InChain, D.OnDisk, ZeroCount, IsChain, CeilDiv, Cells, D.WriteSpec, Overwrite, FilesOk;
    FileFacts(v, f);
    FileOnDisk(v, f);
    SizeInCells(v, f);
    var c := v.chains[f];
    CellAt(v.g, v.data, c, off + |buf| - 1);
    WrittenCells(v.g, v.data, c, off, buf);
    var w := v.(data := D.WriteSpec(v.g, v.data, c, off, buf));
    assert VolumeOk(w);
    forall h | h in v.files && h != f ensures Kept(v, w, h) {
      WriteOtherFile(v, f, off, buf, h);
    }
  }

  lemma {:induction false} WriteOtherFile(v: Vol, f: nat, off: nat, buf: seq<Byte>, h: nat)
    requires VolumeOk(v) && f in v.files && h in v.files && h != f && |buf| > 0 && f in v.chains
    requires D.OnDisk(v.g, v.data, v.chains[f]) && D.InChain(v.g, v.chains[f], off + |buf| - 1)
    ensures var w := v.(data := D.WriteSpec(v.g, v.data, v.chains[f], off, buf));
            VolumeOk(w) && Kept(v, w, h)
  {
    hide D.ByteAt, D.InChain, D.OnDisk, ZeroCount, IsChain, CeilDiv, CellsIn, D.WriteSpec;
    var w := v.(data := D.WriteSpec(v.g, v.data, v.chains[f], off, buf));
    FileOnDisk(v, h);
    FileOnDisk(w, h);
    var c, o := v.chains[f], v.chains[h];
    assert Apart(c, o);
    forall i: nat | D.InChain(v.g, o, i) ensures D.ByteAt(v.g, w.data, o, i) == D.ByteAt(v.g, v.data, o, i) {
      D.WriteOther(v.g, v.data, c, off, buf, o, i);
    }
    KeepsCells(v, w, h);
  }

  // ---------- clearing ----------

  function ClearedVol(v: Vol, f: nat): Vol
    requires f in v.files && f in v.chains && forall i :: 0 <= i < |v.chains[f]| ==> v.chains[f][i] < |v.fat|
  {
    v.(fat := Unlink(v.fat, v.chains[f]), hint := NewHint(v.chains[f], v.hint), free := v.free + |v.chains[f]|,
       files := v.files[f := DirEntry(0, 0)], chains := v.chains[f := []])
  }

  ghost predicate Emptied(v: Vol, w: Vol, f: nat) {
    OnlyFile(v, w, f) && f in w.files && f in w.chains && w.files[f] == DirEntry(0, 0) && |w.chains[f]| == 0 &&
        CellsIn(w, f) == []
  }

  /** Clearing a file frees exactly its chain. */
  lemma {:induction false} ClearVolume(v: Vol, f: nat)
    requires VolumeOk(v) && f in v.files
    ensures f in v.chains && forall i :: 0 <= i < |v.chains[f]| ==> v.chains[f][i] < |v.fat|
    ensures Emptied(v, ClearedVol(v, f), f)
    ensures v.chains[f] == [] ==> ClearedVol(v, f) == v
  {
    hide ZeroCount, IsChain, CeilDiv, FilesOk, CellsIn, FileOk, NewHint;
    FileFacts(v, f);
    ClearKeeps(v.g, v.fat, v.files, v.chains, f);
    var w := ClearedVol(v, f);
    NoCells(w, f);
    forall h | h in v.files && h != f ensures Kept(v, w, h) {
      FileFacts(v, h);
      SameKept(v, w, h);
    }
    ClearNothing(v, f);
  }

  lemma {:induction false} ClearNothing(v: Vol, f: nat)
    requires VolumeOk(v) && f in v.files && f in v.chains && forall i :: 0 <= i < |v.chains[f]| ==>
             v.chains[f][i] < |v.fat|
    ensures v.chains[f] == [] ==> ClearedVol(v, f) == v
  {
    hide IsChain, ZeroCount;
    FileFacts(v, f);
    CeilBounds(v.files[f].size, v.g.spc * 512);
  }
}

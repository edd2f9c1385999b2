/** Regular files of the kernel's FAT32: growth, writing, reading and clearing, and what each leaves of every file. */
module KernelVfs {
  import opened Arith
  import opened Bytes
  import opened KernelChain
  import opened Basics
  import opened KernelFs
  import D = KernelData

  type Files = map<nat, DirEntry>
  type Chains = map<nat, seq<nat>>

  /** The entry starts the chain, and the chain has exactly the clusters the size needs. */
  ghost predicate FileOk(g: D.Geometry, fat: Table, e: DirEntry, s: seq<nat>)
    requires g.spc > 0
  {
    && IsChain(fat, s)
    && e.first == (if |s| == 0 then 0 else s[0])
    && |s| == CeilDiv(e.size, g.spc * 512)
  }

  /** Every file has its own chain; chains are acyclic and share no cluster. */
  ghost predicate FilesOk(g: D.Geometry, fat: Table, files: Files, chains: Chains) {
    && g.spc > 0
    && files.Keys == chains.Keys
    && (forall f :: f in files ==> FileOk(g, fat, files[f], chains[f]))
    && (forall f, h :: f in files && h in files && f != h ==> Apart(chains[f], chains[h]))
  }

  // ---------- growth ----------

  function Grown(fat: Table, c: seq<nat>, s: seq<nat>): Table
    requires (forall i :: 0 <= i < |s| ==> s[i] < |fat|) && (forall i :: 0 <= i < |c| ==> c[i] < |fat|) && |s| > 0
  {
    if |c| == 0 then Link(fat, s) else Link(fat, s)[c[|c| - 1] := s[0]]
  }

  lemma {:induction false} FreeApart(fat: Table, c: seq<nat>, s: seq<nat>, hint: nat)
    requires IsChain(fat, c) && FreeAscending(fat, hint, s)
    ensures Apart(s, c) && Apart(c, s) && NoDup(s)
  {
    ChainUsed(fat, c);
    forall i | 0 <= i < |c| ensures c[i] !in s {
      assert fat[c[i]] != FREE;
    }
  }

  /** The grown chain is the old one followed by the new clusters. */
  lemma {:induction false} GrownChain(fat: Table, c: seq<nat>, s: seq<nat>, hint: nat)
    requires IsChain(fat, c) && FreeAscending(fat, hint, s) && hint >= 1 && |s| > 0
    ensures (forall i :: 0 <= i < |s| ==> s[i] < |fat|) && (forall i :: 0 <= i < |c| ==> c[i] < |fat|)
    ensures IsChain(Grown(fat, c, s), c + s)
  {
    hide Link;
    FreeApart(fat, c, s, hint);
    LinkFacts(fat, s);
    ChainFrame(fat, Link(fat, s), c);
    if |c| == 0 {
      assert c + s == s;
    } else {
      JoinChains(Link(fat, s), c, s);
    }
  }

  lemma {:induction false} GrownOther(fat: Table, c: seq<nat>, s: seq<nat>, hint: nat, o: seq<nat>)
    requires IsChain(fat, c) && IsChain(fat, o) && Apart(c, o) && Apart(o, c) && FreeAscending(fat, hint, s) &&
             hint >= 1 && |s| > 0
    ensures IsChain(Grown(fat, c, s), o) && Apart(c + s, o) && Apart(o, c + s)
  {
    FreeApart(fat, o, s, hint);
    FreeApart(fat, c, s, hint);
    LinkFacts(fat, s);
    ChainFrame(fat, Link(fat, s), o);
    forall i | 0 <= i < |c + s| ensures (c + s)[i] !in o { }
    if |c| > 0 {
      assert c[|c| - 1] !in o;
      ChainFrame(Link(fat, s), Grown(fat, c, s), o);
    }
  }

  lemma {:induction false} GrownZeros(fat: Table, c: seq<nat>, s: seq<nat>, hint: nat)
    requires IsChain(fat, c) && FreeAscending(fat, hint, s) && hint >= 1 && |s| > 0 && |fat| >= 2
    ensures ZeroCount(Grown(fat, c, s), 2) == ZeroCount(fat, 2) - |s|
  {
    FreeApart(fat, c, s, hint);
    LinkZeros(fat, s);
    LinkFacts(fat, s);
    if |c| > 0 {
      ChainUsed(fat, c);
      ZeroCountUpdate(Link(fat, s), 2, c[|c| - 1], s[0]);
    }
  }

  lemma {:induction false} GrowKeeps(g: D.Geometry, fat: Table, files: Files, chains: Chains, f: nat, size: nat,
                                     s: seq<nat>, hint: nat)
    requires FilesOk(g, fat, files, chains) && f in files && hint >= 1
    requires FreeAscending(fat, hint, s) && |s| > 0 && |chains[f]| + |s| == CeilDiv(size, g.spc * 512)
    ensures var c := chains[f];
            FilesOk(g, Grown(fat, c, s), files[f := DirEntry(if |c| == 0 then s[0] else files[f].first, size)],
                    chains[f := c + s])
  {
    hide Grown, Apart, CeilDiv, IsChain, FreeAscending;
    var c := chains[f];
    var files' := files[f := DirEntry(if |c| == 0 then s[0] else files[f].first, size)];
    var chains' := chains[f := c + s];
    assert FileOk(g, fat, files[f], c);
    GrownChain(fat, c, s, hint);
    forall h | h in files && h != f
      ensures IsChain(Grown(fat, c, s), chains[h]) && Apart(c + s, chains[h]) && Apart(chains[h], c + s)
    {
      assert FileOk(g, fat, files[h], chains[h]);
      GrownOther(fat, c, s, hint, chains[h]);
    }
    forall h | h in files' ensures FileOk(g, Grown(fat, c, s), files'[h], chains'[h]) {
      assert FileOk(g, fat, files[h], chains[h]);
    }
  }

  // ---------- clearing ----------

  lemma {:induction false} ClearKeeps(g: D.Geometry, fat: Table, files: Files, chains: Chains, f: nat)
    requires FilesOk(g, fat, files, chains) && f in files && |fat| >= 2
    ensures FilesOk(g, Unlink(fat, chains[f]), files[f := DirEntry(0, 0)], chains[f := []])
    ensures ZeroCount(Unlink(fat, chains[f]), 2) == ZeroCount(fat, 2) + |chains[f]|
  {
    hide Unlink, ZeroCount, Apart, CeilDiv, FileOk, IsChain;
    var c := chains[f];
    UnlinkSelf(g, fat, files, chains, f);
    var files', chains' := files[f := DirEntry(0, 0)], chains[f := []];
    forall h | h in files && h != f ensures FileOk(g, Unlink(fat, c), files[h], chains[h]) {
      UnlinkOther(g, fat, files, chains, f, h);
    }
    forall h, k | h in files' && k in files' && h != k ensures Apart(chains'[h], chains'[k]) {
      assert Apart(chains[h], chains[k]);
      NothingApart(chains[h], chains[k]);
    }
  }

  lemma {:induction false} UnlinkSelf(g: D.Geometry, fat: Table, files: Files, chains: Chains, f: nat)
    requires FilesOk(g, fat, files, chains) && f in files && |fat| >= 2
    ensures forall i :: 0 <= i < |chains[f]| ==> chains[f][i] < |fat|
    ensures FileOk(g, Unlink(fat, chains[f]), DirEntry(0, 0), [])
    ensures ZeroCount(Unlink(fat, chains[f]), 2) == ZeroCount(fat, 2) + |chains[f]|
  {
    hide Unlink, Apart, ZeroCount;
    assert FileOk(g, fat, files[f], chains[f]);
    ChainUsed(fat, chains[f]);
    UnlinkFacts(fat, chains[f]);
    CeilBounds(0, g.spc * 512);
  }

  lemma {:induction false} UnlinkOther(g: D.Geometry, fat: Table, files: Files, chains: Chains, f: nat, h: nat)
    requires FilesOk(g, fat, files, chains) && f in files && h in files && h != f && |fat| >= 2
    ensures (forall i :: 0 <= i < |chains[f]| ==> chains[f][i] < |fat|) &&
            FileOk(g, Unlink(fat, chains[f]), files[h], chains[h])
  {
    hide Unlink;
    var c := chains[f];
    assert FileOk(g, fat, files[f], c) && FileOk(g, fat, files[h], chains[h]);
    ChainUsed(fat, c);
    UnlinkFacts(fat, c);
    assert Apart(chains[h], c);
    ChainFrame(fat, Unlink(fat, c), chains[h]);
  }

  // ---------- data ----------

  /** Every chain lies on the data disk. */
  lemma {:induction false} ChainOnDisk(g: D.Geometry, disk: D.Disk, fat: Table, s: seq<nat>)
    requires IsChain(fat, s) && g.spc > 0 && |fat| >= 2 && g.root + (|fat| - 2) * g.spc <= |disk|
    ensures D.OnDisk(g, disk, s)
  {
    forall j | 0 <= j < |s| ensures s[j] >= 2 && D.FirstSector(g, s[j]) + g.spc <= |disk| {
      MulStep(s[j] - 2, |fat| - 2, g.spc);
    }
  }

  /** A byte lies within the chain exactly when it lies below the size of its clusters. */
  lemma {:induction false} InCells(g: D.Geometry, s: seq<nat>, i: nat)
    requires g.spc > 0
    ensures D.InChain(g, s, i) <==> i < |s| * (g.spc * 512)
  {
    DivBelow(i, |s|, g.spc * 512);
    DivDiv(i, g.spc);
  }

  /** Clearing the newly allocated clusters leaves the bytes of a file on other clusters. */
  lemma {:induction false} ClearingApart(g: D.Geometry, before: D.Disk, after: D.Disk, s: seq<nat>, o: seq<nat>, i: nat)
    requires D.OnDisk(g, before, o) && |after| == |before| && Apart(o, s) && D.InChain(g, o, i)
    requires forall t :: 0 <= t < |after| && !InClusters(g, s, t) ==> after[t] == before[t]
    requires forall j :: 0 <= j < |s| ==> s[j] >= 2
    ensures D.OnDisk(g, after, o) && D.ByteAt(g, after, o, i) == D.ByteAt(g, before, o, i)
  {
    var k := i / 512;
    D.SectorOnDisk(g, before, o, k);
    DivFacts(k, g.spc);
    var t := D.FileSector(g, o, k);
    assert o[k / g.spc] !in s;
    if InClusters(g, s, t) {
      var j :| 0 <= j < |s| && InCluster(g, s[j], t);
      DigitsUnique(o[k / g.spc] - 2, k % g.spc, s[j] - 2, t - D.FirstSector(g, s[j]), g.spc);
    }
  }

  // ---------- the bytes of a chain ----------

  /** All bytes of the clusters of a chain, in order. */
  ghost function Cells(g: D.Geometry, disk: D.Disk, s: seq<nat>): seq<Byte>
    requires D.OnDisk(g, disk, s)
  {
    var n := |s| * (g.spc * 512);
    if n == 0 then [] else
      InCells(g, s, n - 1);
      D.ReadSpec(g, disk, s, 0, n)
  }

  lemma {:induction false} CellAt(g: D.Geometry, disk: D.Disk, s: seq<nat>, i: nat)
    requires D.OnDisk(g, disk, s)
    ensures |Cells(g, disk, s)| == |s| * (g.spc * 512)
    ensures D.InChain(g, s, i) <==> i < |Cells(g, disk, s)|
    ensures D.InChain(g, s, i) ==> Cells(g, disk, s)[i] == D.ByteAt(g, disk, s, i)
  {
    hide D.ByteAt, D.InChain, D.ReadSpec, D.FirstSector;
    InCells(g, s, i);
    var n := |s| * (g.spc * 512);
    if n > 0 {
      InCells(g, s, n - 1);
      D.ReadBytes(g, disk, s, 0, n, i);
    }
  }

  lemma {:induction false} SameCells(g: D.Geometry, before: D.Disk, after: D.Disk, s: seq<nat>)
    requires D.OnDisk(g, before, s) && D.OnDisk(g, after, s)
    requires forall i: nat :: D.InChain(g, s, i) ==> D.ByteAt(g, after, s, i) == D.ByteAt(g, before, s, i)
    ensures Cells(g, after, s) == Cells(g, before, s)
  {
    hide D.ByteAt, D.InChain, D.OnDisk, Cells;
    CellAt(g, before, s, 0);
    CellAt(g, after, s, 0);
    forall i: nat | i < |Cells(g, before, s)| ensures Cells(g, after, s)[i] == Cells(g, before, s)[i] {
      CellAt(g, before, s, i);
      CellAt(g, after, s, i);
    }
  }

  /** Growing a chain by cleared clusters appends zeros. */
  lemma {:induction false} GrownCells(g: D.Geometry, before: D.Disk, after: D.Disk, c: seq<nat>, s: seq<nat>)
    requires D.OnDisk(g, before, c) && D.OnDisk(g, after, c) && D.OnDisk(g, after, c + s)
    requires forall i: nat :: D.InChain(g, c, i) ==> D.ByteAt(g, after, c, i) == D.ByteAt(g, before, c, i)
    requires forall t: nat :: t < |after| && InClusters(g, s, t) ==> after[t] == ZERO
    ensures Cells(g, after, c + s) == Cells(g, before, c) + Zeros(|s| * (g.spc * 512))
  {
    hide D.OnDisk, Cells, InClusters, D.ByteAt;
    var was, now := Cells(g, before, c), Cells(g, after, c + s);
    CellAt(g, before, c, 0);
    CellAt(g, after, c + s, 0);
    assert (|c| + |s|) * (g.spc * 512) == |c| * (g.spc * 512) + |s| * (g.spc * 512) by { AddMul(|c|, |s|,
        g.spc * 512); }
    forall i: nat | i < |now| ensures now[i] == if i < |was| then was[i] else 0 {
      CellAt(g, before, c, i);
      CellAt(g, after, c + s, i);
      GrownByte(g, after, c, s, i);
    }
  }

  lemma {:induction false} AddMul(a: nat, b: nat, p: nat)
    ensures (a + b) * p == a * p + b * p
  {
  }

  lemma {:induction false} GrownByte(g: D.Geometry, after: D.Disk, c: seq<nat>, s: seq<nat>, i: nat)
    requires D.OnDisk(g, after, c) && D.OnDisk(g, after, c + s) && D.InChain(g, c + s, i)
    requires forall t: nat :: t < |after| && InClusters(g, s, t) ==> after[t] == ZERO
    ensures D.ByteAt(g, after, c + s, i) == if D.InChain(g, c, i) then D.ByteAt(g, after, c, i) else 0
  {
    var k := i / 512;
    var j := k / g.spc;
    DivFacts(k, g.spc);
    D.SectorOnDisk(g, after, c + s, k);
    if j < |c| {
      assert (c + s)[j] == c[j];
    } else {
      var t := D.FileSector(g, c + s, k);
      assert (c + s)[j] == s[j - |c|] && InCluster(g, s[j - |c|], t);
      assert InClusters(g, s, t);
    }
  }

  /** A write within the clusters of a chain overwrites its bytes. */
  lemma {:induction false} WrittenCells(g: D.Geometry, disk: D.Disk, s: seq<nat>, off: nat, buf: seq<Byte>)
    requires D.OnDisk(g, disk, s) && NoDup(s) && |buf| > 0 && D.InChain(g, s, off + |buf| - 1)
    ensures D.OnDisk(g, D.WriteSpec(g, disk, s, off, buf), s) && off + |buf| <= |Cells(g, disk, s)|
    ensures Cells(g, D.WriteSpec(g, disk, s, off, buf), s) == Overwrite(Cells(g, disk, s), off, buf)
  {
    hide D.ByteAt, D.InChain, D.OnDisk, Cells, D.WriteSpec;
    var after := D.WriteSpec(g, disk, s, off, buf);
    CellAt(g, disk, s, off + |buf| - 1);
    D.InChainDown(g, s, off, off + |buf| - 1);
    D.WriteBytes(g, disk, s, off, buf, off);
    CellAt(g, after, s, 0);
    var c := Cells(g, disk, s);
    forall i: nat | i < |c| ensures Cells(g, after, s)[i] == if off <= i < off + |buf| then buf[i - off] else c[i] {
      CellAt(g, disk, s, i);
      CellAt(g, after, s, i);
      D.WriteBytes(g, disk, s, off, buf, i);
    }
  }

  /** What is read is that part of the bytes. */
  lemma {:induction false} ReadCells(g: D.Geometry, disk: D.Disk, s: seq<nat>, off: nat, len: nat)
    requires D.OnDisk(g, disk, s) && (len > 0 ==> D.InChain(g, s, off + len - 1))
    ensures len > 0 ==> off + len <= |Cells(g, disk, s)|
    ensures off + len <= |Cells(g, disk, s)| ==> D.ReadSpec(g, disk, s, off, len) == Cells(g, disk, s)[off..off + len]
    ensures len == 0 ==> D.ReadSpec(g, disk, s, off, len) == []
  {
    hide D.OnDisk, D.InChain, D.ReadSpec, D.ByteAt, Cells;
    D.ReadBytes(g, disk, s, off, len, 0);
    if len > 0 { CellAt(g, disk, s, off + len - 1); }
    forall j: nat | j < len ensures off + j < |Cells(g, disk, s)| &&
        D.ReadSpec(g, disk, s, off, len)[j] == Cells(g, disk, s)[off + j] {
      D.ReadBytes(g, disk, s, off, len, j);
      CellAt(g, disk, s, off + j);
    }
  }
}

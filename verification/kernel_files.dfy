/** The file operations of the kernel's FAT32, step by step on table, counters, data and directory entries. */
module KernelFiles {
  import opened Arith
  import opened Bytes
  import opened KernelChain
  import opened KernelFs
  import opened KernelVfs
  import opened KernelVolume
  import opened KernelRuns
  import D = KernelData

  class Volume {
    const m: Fat32Manager
    var files: Files
    ghost var chains: Chains

    constructor (m: Fat32Manager, files: Files, ghost chains: Chains)
      requires m.Tables() && VolumeOk(Vol(m.g, m.fat, m.Hint(), m.FreeCount(), m.data, files, chains))
      ensures Valid() && this.m == m && this.files == files && this.chains == chains
    {
      this.m := m;
      this.files := files;
      this.chains := chains;
    }

    ghost function View(): Vol
      requires m.Tables()
      reads this, m
    {
      Vol(m.g, m.fat, m.Hint(), m.FreeCount(), m.data, files, chains)
    }

    ghost predicate Valid()
      reads this, m
    {
      m.Tables() && VolumeOk(View())
    }

    ghost function Content(h: nat): seq<Byte>
      requires Valid() && h in files
      reads this, m
    {
      ContentIn(View(), h)
    }

    /** Add an empty regular file. */
    method AddFile(f: nat)
      requires Valid() && f !in files
      modifies this
      ensures Valid() && View() == Step(old(View()), Add(f))
      ensures f in files && Content(f) == [] && forall h :: h in old(files) ==> Kept(old(View()), View(), h)
    {
      hide VolumeOk, KernelFs.Mirrors, CellsIn, Kept;
      NewVolume(View(), f);
      files := files[f := DirEntry(0, 0)];
      chains := chains[f := []];
    }

    /** Grow a file to `more` bytes; `ok` is false where the original stops for want of space. */
    method IncreaseSize(f: nat, more: nat) returns (ok: bool)
      requires Valid() && Legal(View(), Grow(f, more))
      modifies this, m
      ensures Valid() && View() == Step(old(View()), Grow(f, more)) && OnlyFile(old(View()), View(), f)
      ensures ok <==> Enough(old(View()), f, more)
      ensures !ok || more <= old(files[f].size) ==> View() == old(View())
      ensures ok && old(files[f].size) <= more ==> Extended(old(View()), View(), f, more)
    {
      hide OnlyFile, VolumeOk, Extended, KernelFs.Mirrors, ZeroCount, Attached, CeilDiv;
      ghost var v := View();
      GrowStepOk(v, f, more);
      GrowKnown(v, f, more);
      SameFiles(v, GrowStep(v, f, more), f);
      var size := files[f].size;
      if more <= size {
        return true;
      }
      CeilMono(size, more, m.g.spc * 512);
      var needed := CeilDiv(more, m.g.spc * 512) - CeilDiv(size, m.g.spc * 512);
      if needed == 0 {
        files := files[f := files[f].(size := more)];
        return true;
      }
      ok := Attach(f, more, needed);
    }

    /** The part of the growth that needs new clusters. */
    method Attach(f: nat, more: nat, needed: nat) returns (ok: bool)
      requires Valid() && f in files && needed > 0 && Served(View(), needed)
      modifies this, m
      ensures m.Tables() && (ok <==> needed <= old(m.FreeCount()))
      ensures View() == if ok then Attached(old(View()), f, more, needed) else old(View())
    {
      hide VolumeOk, KernelFs.Mirrors, IsChain, ZeroCount, Pick, FreeAscending, Link, Zeroed;
      ghost var v, hint := View(), m.Hint();
      FileFacts(v, f);
      ghost var c := chains[f];
      var first := files[f].first;
      var got, s := m.AllocCluster(needed);
      if got.None? {
        return false;
      }
      PickFits(v, needed);
      if first == 0 {
        files := files[f := files[f].(first := got.value)];
      } else {
        StillChain(v.fat, c, s, hint);
        var last := m.FinalCluster(first, c);
        m.SetNext(last, got.value);
      }
      files := files[f := files[f].(size := more)];
      chains := chains[f := c + s];
      return true;
    }

    /** Grow as far as needed, then write: bytes the growth adds are zeros where they come from new clusters. */
    method WriteAt(f: nat, off: nat, buf: seq<Byte>) returns (n: nat, ok: bool)
      requires Valid() && Legal(View(), Write(f, off, buf))
      modifies this, m
      ensures Valid() && View() == Step(old(View()), Write(f, off, buf)) && OnlyFile(old(View()), View(), f)
      ensures ok <==> Enough(old(View()), f, off + |buf|)
      ensures if ok then n == |buf| && Overwritten(old(View()), View(), f, off, buf) else View() == old(View())
      ensures ok ==> f in files && off + |buf| <= files[f].size && Content(f)[off..off + |buf|] == buf
      ensures ok && off <= old(files[f].size) ==> Content(f) == Overwrite(old(Content(f)), off, buf)
    {
      hide OnlyFile, VolumeOk, Overwritten, KernelFs.Mirrors, IsChain, ZeroCount, CeilDiv, GrowStep, D.InChain,
          D.OnDisk, D.WriteSpec;
      ghost var v := View();
      WriteStepOk(v, f, off, buf);
      GrowKnown(v, f, off + |buf|);
      SameFiles(v, WriteStep(v, f, off, buf), f);
      ok := IncreaseSize(f, off + |buf|);
      if !ok {
        return 0, false;
      }
      GrownTo(v, f, off + |buf|);
      ghost var w := View();
      FileFacts(w, f);
      FileOnDisk(w, f);
      SizeInCells(w, f);
      WriteVolume(w, f, off, buf);
      ghost var c := chains[f];
      InCells(m.g, c, files[f].size - 1);
      CellAt(m.g, m.data, c, 0);
      n := m.WriteChain(files[f].first, files[f].size, off, buf, c);
      assert buf[..n] == buf;
      WrittenPart(v, View(), f, off, buf);
    }

    /** The bytes from `off` on, cut at the end of the file. */
    method ReadAt(f: nat, off: nat, len: nat) returns (bytes: seq<Byte>)
      requires Valid() && f in files
      ensures bytes == if off >= files[f].size then [] else Content(f)[off..off + Clipped(files[f].size, off, len)]
      ensures |bytes| == if off >= files[f].size then 0 else if len <= files[f].size - off then len
                         else files[f].size - off
    {
      hide VolumeOk, KernelFs.Mirrors, IsChain, D.ReadSpec, D.OnDisk, D.InChain, CeilDiv, Cells;
      ghost var v, size := View(), files[f].size;
      FileFacts(v, f);
      FileOnDisk(v, f);
      SizeInCells(v, f);
      ghost var c := chains[f];
      if size > 0 { InCells(m.g, c, size - 1); }
      CellAt(m.g, m.data, c, 0);
      bytes := m.ReadChain(files[f].first, files[f].size, off, len, c);
      ReadCells(m.g, m.data, c, off, Clipped(size, off, len));
    }

    /** What is written is read back. */
    method WriteThenRead(f: nat, off: nat, buf: seq<Byte>) returns (bytes: seq<Byte>, ok: bool)
      requires Valid() && Legal(View(), Write(f, off, buf))
      modifies this, m
      ensures Valid() && View() == Step(old(View()), Write(f, off, buf))
      ensures ok <==> Enough(old(View()), f, off + |buf|)
      ensures ok ==> bytes == buf
    {
      hide OnlyFile, VolumeOk, Overwritten, KernelFs.Mirrors, ZeroCount, CeilDiv, Step;
      bytes := [];
      var _, done := WriteAt(f, off, buf);
      if done {
        bytes := ReadAt(f, off, |buf|);
      }
      ok := done;
    }

    /** Cut the file to nothing: its entry is emptied, its clusters and no others become free. A file without clusters
        is left alone. */
    method Clear(f: nat)
      requires Valid() && f in files
      modifies this, m
      ensures Valid() && View() == Step(old(View()), Op.Clear(f)) && Emptied(old(View()), View(), f)
      ensures m.FreeCount() == old(m.FreeCount()) + |old(chains[f])|
      ensures if 2 < old(files[f].first) < old(m.Hint()) then m.Hint() == old(files[f].first) - 1
              else m.Hint() == old(m.Hint())
    {
      hide VolumeOk, Emptied, OnlyFile, KernelFs.Mirrors, IsChain, ZeroCount, Unlink, CeilDiv;
      ghost var v := View();
      FileFacts(v, f);
      ClearVolume(v, f);
      EmptiedOk(v, ClearedVol(v, f), f);
      ghost var c := chains[f];
      var first := files[f].first;
      if first == 0 {
        return;
      }
      files := files[f := DirEntry(0, 0)];
      chains := chains[f := []];
      var clusters := m.AllClusters(first, c);
      m.DeallocCluster(clusters);
    }
  }

  /** The old chain while the new clusters are linked but not yet attached. */
  lemma {:induction false} StillChain(fat: Table, c: seq<nat>, s: seq<nat>, hint: nat)
    requires IsChain(fat, c) && FreeAscending(fat, hint, s) && hint >= 1
    ensures (forall i :: 0 <= i < |s| ==> s[i] < |fat|) && IsChain(Link(fat, s), c)
  {
    FreeApart(fat, c, s, hint);
    LinkFacts(fat, s);
    ChainFrame(fat, Link(fat, s), c);
  }

  /** The content of a file that has been written to, at any offset up to its old end. */
  lemma {:induction false} WrittenPart(v: Vol, w: Vol, f: nat, off: nat, buf: seq<Byte>)
    requires VolumeOk(v) && VolumeOk(w) && f in v.files && f in w.files && Overwritten(v, w, f, off, buf)
    ensures off + |buf| <= w.files[f].size && ContentIn(w, f)[off..off + |buf|] == buf
    ensures off <= v.files[f].size ==> ContentIn(w, f) == Overwrite(ContentIn(v, f), off, buf)
  {
    hide VolumeOk, OnlyFile, CellsIn;
    SizeInCells(v, f);
    SizeInCells(w, f);
    var cells := CellsIn(w, f);
    assert cells[off..off + |buf|] == buf;
    CutOverwrite(CellsIn(v, f), |cells|, v.files[f].size, off, buf);
  }

  lemma {:induction false} CutOverwrite(cells: seq<Byte>, n: nat, size: nat, off: nat, buf: seq<Byte>)
    requires size <= |cells| <= n && off + |buf| <= n
    ensures var r := Overwrite(cells + Zeros(n - |cells|), off, buf);
            var end := if off + |buf| <= size then size else off + |buf|;
            end <= |r| && (off <= size ==> r[..end] == Overwrite(cells[..size], off, buf))
  {
    var r := Overwrite(cells + Zeros(n - |cells|), off, buf);
    var end := if off + |buf| <= size then size else off + |buf|;
    if off <= size {
      var o := Overwrite(cells[..size], off, buf);
      assert |o| == end;
      forall i | 0 <= i < end ensures r[i] == o[i] {
        if i < off {
          assert r[i] == cells[i] && o[i] == cells[..size][i];
        } else if i < off + |buf| {
          assert r[i] == buf[i - off] && o[i] == buf[i - off];
        } else {
          assert r[i] == cells[i] && o[i] == cells[..size][i];
        }
      }
    }
  }
}

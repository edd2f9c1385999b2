/** The kernel's FAT32 manager over its two logical disks: metadata sectors, seen as 32-bit words, and data sectors. */
module KernelFs {
  import opened Arith
  import opened BlockCache
  import opened Bytes
  import opened KernelChain
  import opened Basics
  import D = KernelData

  /** First cluster and size of a regular file, as its short directory entry holds them. */
  datatype DirEntry = DirEntry(first: nat, size: nat)

  type Words = seq<nat>

  /** Where the tables lie: both copies of the FAT behind the FSInfo sector. */
  datatype Layout = Layout(infoSec: nat, fat1: nat, sectors: nat)

  /** Words of the FSInfo sector, at byte offsets 488 and 492. */
  const FREE_COUNT: nat := 122
  const NEXT_FREE: nat := 123

  /** Sector numbers in the two copies, and the word within the sector, of a cluster's entry. */
  function Position(l: Layout, cluster: nat): (nat, nat, nat) {
    (l.fat1 + cluster / 128, l.fat1 + l.sectors + cluster / 128, cluster % 128)
  }

  ghost predicate Shaped(l: Layout, info: seq<Words>) {
    && l.infoSec < l.fat1 && l.fat1 + 2 * l.sectors <= |info|
    && forall s :: 0 <= s < |info| ==> |info[s]| == 128
  }

  function PutWord(info: seq<Words>, s: nat, w: nat, v: nat): (r: seq<Words>)
    requires s < |info| && w < |info[s]|
  {
    var row: Words := info[s][w := v];
    info[s := row]
  }

  /** Both copies of the FAT on the metadata disk hold the table. */
  ghost predicate Copies(l: Layout, info: seq<Words>, fat: Table)
    requires Shaped(l, info) && |fat| <= 128 * l.sectors
  {
    forall c :: 0 <= c < |fat| ==>
      info[l.fat1 + c / 128][c % 128] == fat[c] && info[l.fat1 + l.sectors + c / 128][c % 128] == fat[c]
  }

  ghost predicate Mirrors(l: Layout, info: seq<Words>, fat: Table) {
    Shaped(l, info) && |fat| <= 128 * l.sectors && Copies(l, info, fat)
  }

  /** Writing one entry in both copies keeps them in step and touches nothing else. */
  lemma {:induction false} MirrorUpdate(l: Layout, info: seq<Words>, fat: Table, c: nat, v: nat)
    requires Mirrors(l, info, fat) && c < |fat|
    ensures var (s1, s2, w) := Position(l, c);
            var a := PutWord(PutWord(info, s1, w, v), s2, w, v);
            Mirrors(l, a, fat[c := v]) && a[l.infoSec] == info[l.infoSec]
  {
  }

  /** The first copy's word, or the second's where the first is bad. */
  function Combined(one: nat, two: nat): nat { NextOf(if one == BAD then two else one) }

  const ZERO: Sector := Zeros(512)

  ghost predicate InCluster(g: D.Geometry, c: nat, t: nat) {
    c >= 2 && D.FirstSector(g, c) <= t < D.FirstSector(g, c) + g.spc
  }

  ghost predicate InClusters(g: D.Geometry, s: seq<nat>, t: nat) {
    exists j :: 0 <= j < |s| && InCluster(g, s[j], t)
  }

  /** The data with these clusters cleared. */
  ghost function Zeroed(g: D.Geometry, data: D.Disk, s: seq<nat>): (r: D.Disk)
    ensures |r| == |data| && forall t :: 0 <= t < |data| ==> r[t] == if InClusters(g, s, t) then ZERO else data[t]
  {
    if |data| == 0 then [] else
      var n := |data| - 1;
      Zeroed(g, data[..n], s) + [if InClusters(g, s, n) then ZERO else data[n]]
  }

  class Fat32Manager {
    const l: Layout
    const g: D.Geometry
    var info: seq<Words>
    var data: D.Disk
    ghost var fat: Table

    ghost predicate Tables()
      reads this
    {
      Mirrors(l, info, fat) && 2 <= |fat| <= MAX_CLUSTER
    }

    ghost predicate Room()
      reads this
    {
      g.spc > 0 && |fat| >= 2 && g.root + (|fat| - 2) * g.spc <= |data|
    }

    ghost function FreeCount(): nat
      requires Tables()
      reads this
    {
      info[l.infoSec][FREE_COUNT]
    }

    ghost function Hint(): nat
      requires Tables()
      reads this
    {
      info[l.infoSec][NEXT_FREE]
    }

    /** The cluster after this one: the second copy is asked where the first one says bad; 0 where both do. */
    method GetNext(c: nat) returns (n: nat)
      requires Shaped(l, info) && c < 128 * l.sectors
      ensures n == Combined(info[l.fat1 + c / 128][c % 128], info[l.fat1 + l.sectors + c / 128][c % 128])
      ensures var one, two := info[l.fat1 + c / 128][c % 128], info[l.fat1 + l.sectors + c / 128][c % 128];
              n == if one != 0x0FFF_FFF7 then one % 0x1000_0000
                   else if two != 0x0FFF_FFF7 then two % 0x1000_0000 else 0
      ensures Tables() && c < |fat| ==> n == NextOf(fat[c])
    {
      var (s1, s2, w) := Position(l, c);
      var one, two := info[s1][w], info[s2][w];
      if one == BAD {
        n := if two == BAD then 0 else two % 0x1000_0000;
      } else {
        n := one % 0x1000_0000;
      }
    }

    method SetNext(c: nat, v: nat)
      requires Tables() && c < |fat|
      modifies this`info, this`fat
      ensures Tables() && fat == old(fat)[c := v] && info[l.infoSec] == old(info)[l.infoSec]
    {
      MirrorUpdate(l, info, fat, c, v);
      var (s1, s2, w) := Position(l, c);
      info := PutWord(info, s1, w, v);
      info := PutWord(info, s2, w, v);
      fat := fat[c := v];
    }

    method WriteInfo(word: nat, v: nat)
      requires Tables() && word < 128
      modifies this`info
      ensures Tables() && info[l.infoSec] == old(info)[l.infoSec][word := v]
    {
      info := PutWord(info, l.infoSec, word, v);
    }

    /** Scan upward from the next cluster, without wrap and without bound. */
    method NextFree(c: nat) returns (f: nat)
      requires Tables() && c < |fat| && ZeroCount(fat, c + 1) > 0
      ensures f == FirstZero(fat, c + 1) && f < |fat|
    {
      hide FirstZero, ZeroCount;
      SomeZero(fat, c + 1);
      ghost var z := FirstZero(fat, c + 1);
      f := c + 1;
      while true
        invariant c + 1 <= f <= z < |fat|
        invariant fat[z] == FREE && forall k :: c + 1 <= k < z ==> fat[k] != FREE
        decreases z - f
      {
        var (s1, s2, w) := Position(l, f);
        assert info[s1][w] == fat[f];
        if info[s1][w] == FREE {
          assert f == z;
          break;
        }
        f := f + 1;
      }
      f := f % 0x1000_0000;
    }

    /** Zero every sector of a cluster. */
    method ClearCluster(c: nat)
      requires Room() && 2 <= c < |fat|
      modifies this`data
      ensures |data| == |old(data)|
      ensures forall t :: 0 <= t < |data| ==> data[t] == if InCluster(g, c, t) then ZERO else old(data)[t]
    {
      MulStep(c - 2, |fat| - 2, g.spc);
      var start := D.FirstSector(g, c);
      var i := 0;
      while i < g.spc
        invariant 0 <= i <= g.spc && |data| == |old(data)|
        invariant forall t :: 0 <= t < |data| ==> data[t] == if start <= t < start + i then ZERO else old(data)[t]
      {
        data := data[start + i := ZERO];
        i := i + 1;
      }
    }

    /** The allocation loop: clear each cluster and link it to the next free one; the last is left to the caller. */
    method LinkUp(first: nat, num: nat, ghost s: seq<nat>) returns (cur: nat)
      requires Tables() && Room() && |s| == num >= 1 && first == s[0]
      requires (forall k :: 0 <= k < |s| ==> 2 <= s[k] < |fat|) && ZeroCount(fat, first + 1) >= num - 1
      requires s[1..] == Pick(fat, first, num - 1)
      modifies this`info, this`fat, this`data
      ensures Tables() && Room() && |data| == |old(data)| && |fat| == |old(fat)|
      ensures info[l.infoSec] == old(info)[l.infoSec]
      ensures cur == s[num - 1] && Link(fat, s[num - 1..]) == Link(old(fat), s)
      ensures forall t :: 0 <= t < |data| ==> data[t] == if InClusters(g, s[..num - 1], t) then ZERO else old(data)[t]
    {
      hide Copies, Link, Pick, FirstZero, ZeroCount, InClusters, InCluster;
      cur := first;
      ClearedNone(g, s);
      assert s[0..] == s;
      for i := 1 to num
        invariant Tables() && Room() && |data| == |old(data)| && info[l.infoSec] == old(info)[l.infoSec]
        invariant |fat| == |old(fat)| && cur == s[i - 1]
        invariant ZeroCount(old(fat), cur + 1) >= num - i && s[i..] == Pick(old(fat), cur, num - i)
        invariant Link(fat, s[i - 1..]) == Link(old(fat), s)
        invariant forall k :: cur <= k < |fat| ==> fat[k] == old(fat)[k]
        invariant forall t :: 0 <= t < |data| ==> data[t] == if InClusters(g, s[..i - 1], t) then ZERO else old(data)[t]
      {
        AllocTurn(old(fat), fat, s, i, cur);
        ClearedMore(g, s, i);
        ClearCluster(cur);
        var next := NextFree(cur);
        SetNext(cur, next);
        cur := next;
      }
    }

    /** Allocate `num` clusters, the next free ones above the hint: `None` exactly when fewer are counted free. */
    method AllocCluster(num: nat) returns (r: Option<nat>, ghost s: seq<nat>)
      requires Tables() && Room() && num >= 1
      requires num <= FreeCount() ==> 1 <= Hint() < |fat| && ZeroCount(fat, Hint() + 1) >= num
      modifies this`info, this`fat, this`data
      ensures Tables() && Room() && |data| == |old(data)|
      ensures r.None? <==> num > old(FreeCount())
      ensures r.None? ==> fat == old(fat) && info == old(info) && data == old(data)
      ensures r.Some? ==> s == Pick(old(fat), old(Hint()), num) && FreeAscending(old(fat), old(Hint()), s)
      ensures r.Some? ==> r.value == s[0] && fat == Link(old(fat), s)
      ensures r.Some? ==> FreeCount() == old(FreeCount()) - num && Hint() == s[num - 1]
      ensures r.Some? ==> data == Zeroed(g, old(data), s)
    {
      hide Copies, Link, Pick, FirstZero, ZeroCount, InClusters, InCluster, Zeroed;
      s := [];
      var free := info[l.infoSec][FREE_COUNT];
      if num > free {
        return None, s;
      }
      var prev := info[l.infoSec][NEXT_FREE];
      s := Pick(fat, prev, num);
      PickFacts(fat, prev, num);
      PickStep(fat, prev, num);
      SomeZero(fat, prev + 1);
      var first := NextFree(prev);
      var cur := LinkUp(first, num, s);
      LinkStep(fat, s, num);
      LinkNone(fat[cur := END], s[num..]);
      ghost var mid := data;
      ClearCluster(cur);
      ClearedLast(g, old(data), mid, data, s);
      SetNext(cur, END);
      WriteInfo(FREE_COUNT, free - num);
      WriteInfo(NEXT_FREE, cur);
      return Some(first), s;
    }

    // ---------- the four chain walks ----------

    /** The cluster `index` links into the chain; one past its end, an end mark. */
    method ClusterAt(start: nat, index: nat, ghost s: seq<nat>) returns (c: nat)
      requires Tables() && IsChain(fat, s) && |s| > 0 && s[0] == start && index <= |s|
      ensures index < |s| ==> c == s[index]
      ensures index == |s| ==> c >= END
    {
      hide Copies;
      c := start;
      for i := 0 to index
        invariant i < |s| ==> c == s[i]
        invariant i == |s| ==> END <= c < 0x1000_0000
      {
        ChainNext(fat, s, i);
        c := GetNext(c);
        if c == 0 {
          break;
        }
      }
      c := c % 0x1000_0000;
    }

    method FinalCluster(start: nat, ghost s: seq<nat>) returns (c: nat)
      requires Tables() && IsChain(fat, s) && |s| > 0 && s[0] == start
      ensures c == s[|s| - 1]
    {
      hide Copies;
      c := start;
      ghost var i := 0;
      while true
        invariant i < |s| && c == s[i]
        decreases |s| - i
      {
        ChainNext(fat, s, i);
        var next := GetNext(c);
        if next >= END || next == 0 {
          c := c % 0x1000_0000;
          return;
        }
        c := next;
        i := i + 1;
      }
    }

    method AllClusters(start: nat, ghost s: seq<nat>) returns (v: seq<nat>)
      requires Tables() && IsChain(fat, s) && |s| > 0 && s[0] == start
      ensures v == s
    {
      hide Copies;
      v := [];
      var c := start;
      while true
        invariant |v| < |s| && v == s[..|v|] && c == s[|v|]
        decreases |s| - |v|
      {
        ChainNext(fat, s, |v|);
        v := v + [c % 0x1000_0000];
        var next := GetNext(c);
        if next >= END || next == 0 {
          return;
        }
        c := next;
      }
    }

    method CountClusters(start: nat, ghost s: seq<nat>) returns (n: nat)
      requires Tables() && IsChain(fat, s) && start == (if |s| == 0 then 0 else s[0])
      ensures n == |s|
    {
      hide Copies;
      if start == 0 {
        return 0;
      }
      var c := start;
      n := 0;
      while true
        invariant n < |s| && c == s[n]
        decreases |s| - n
      {
        ChainNext(fat, s, n);
        n := n + 1;
        var next := GetNext(c);
        if next >= END || next > 0xF00_0000 {
          return;
        }
        c := next;
      }
    }

    /** Mark the clusters free, count them, and lower the hint where the first of them lies below it. */
    method DeallocCluster(clusters: seq<nat>)
      requires Tables() && NoDup(clusters) && forall i :: 0 <= i < |clusters| ==> 2 <= clusters[i] < |fat|
      modifies this`info, this`fat
      ensures Tables() && fat == Unlink(old(fat), clusters)
      ensures FreeCount() == old(FreeCount()) + |clusters|
      ensures if |clusters| > 0 && 2 < clusters[0] < old(Hint()) then Hint() == clusters[0] - 1
              else Hint() == old(Hint())
      ensures Hint() == NewHint(clusters, old(Hint()))
    {
      hide Copies, Unlink;
      var free := info[l.infoSec][FREE_COUNT];
      for i := 0 to |clusters|
        invariant Tables() && |fat| == |old(fat)| && info[l.infoSec] == old(info)[l.infoSec]
        invariant Unlink(fat, clusters[i..]) == Unlink(old(fat), clusters)
      {
        UnlinkStep(fat, clusters, i);
        SetNext(clusters[i], FREE);
      }
      UnlinkNone(fat, clusters[|clusters|..]);
      if |clusters| > 0 {
        WriteInfo(FREE_COUNT, free + |clusters|);
        if clusters[0] > 2 && clusters[0] < info[l.infoSec][NEXT_FREE] {
          WriteInfo(NEXT_FREE, clusters[0] - 1);
        }
      }
    }

    // ---------- bytes of a chain ----------

    /** Cluster and sector of a byte offset. */
    method GetPos(first: nat, off: nat, ghost s: seq<nat>) returns (cluster: nat, sector: nat)
      requires Tables() && IsChain(fat, s) && |s| > 0 && s[0] == first && D.InChain(g, s, off)
      ensures D.At(g, s, off, cluster, sector)
    {
      hide Copies, D.FirstSector;
      D.PositionOf(g, s, off);
      var bytesPerCluster := g.spc * 512;
      var index := off / bytesPerCluster;
      cluster := ClusterAt(first, index, s);
      sector := D.FirstSector(g, cluster) + (off - index * bytesPerCluster) / 512;
    }

    /** On to the next sector: one up, or the first of the next cluster, which the chain still has. */
    method Advance(cur: nat, next: nat, cluster: nat, sector: nat, ghost s: seq<nat>)
      returns (cluster': nat, sector': nat)
      requires Tables() && IsChain(fat, s) && D.At(g, s, cur, cluster, sector)
      requires D.InChain(g, s, next) && next == (cur / 512 + 1) * 512
      ensures D.At(g, s, next, cluster', sector')
    {
      hide Copies, D.FirstSector, D.At, D.InChain;
      ghost var i := D.NextPlace(g, s, cur, next, cluster, sector);
      if next % (g.spc * 512) == 0 {
        ChainNext(fat, s, i);
        cluster' := GetNext(cluster);
        assert cluster' < END;
        sector' := D.FirstSector(g, cluster');
      } else {
        cluster', sector' := cluster, sector + 1;
      }
    }

    /** Write the part of a buffer that lies in one sector: what is left to write is written behind it. */
    method WriteOneSector(cur: nat, src: seq<Byte>, cluster: nat, sector: nat, ghost s: seq<nat>) returns (n: nat)
      requires |src| > 0 && D.OnDisk(g, data, s) && D.InChain(g, s, cur + |src| - 1) && D.At(g, s, cur, cluster, sector)
      modifies this`data
      ensures 0 < n <= |src| && |data| == |old(data)| && D.OnDisk(g, data, s)
      ensures n < |src| ==> cur + n == (cur / 512 + 1) * 512
      ensures n < |src| ==> D.InChain(g, s, cur + n + |src[n..]| - 1)
      ensures D.WriteSpec(g, data, s, cur + n, src[n..]) == D.WriteSpec(g, old(data), s, cur, src)
    {
      hide Splice, D.WriteSpec, D.OnDisk, D.InChain, D.At, D.Piece, D.FirstSector;
      var end := cur + |src|;
      var endBlock := (cur / 512 + 1) * 512;
      if end < endBlock { endBlock := end; }
      n := endBlock - cur;
      D.BlockEnd(cur, end);
      D.WriteStep(g, data, s, cur, src, cluster, sector);
      data := data[sector := Splice(data[sector], cur % 512, src[..n])];
    }

    /** Write a buffer at its place in the chain, sector by sector. */
    method WriteSectors(first: nat, off: nat, src: seq<Byte>, ghost s: seq<nat>)
      requires Tables() && IsChain(fat, s) && |s| > 0 && s[0] == first && D.OnDisk(g, data, s)
      requires |src| > 0 && D.InChain(g, s, off) && D.InChain(g, s, off + |src| - 1)
      modifies this`data
      ensures |data| == |old(data)| && data == D.WriteSpec(g, old(data), s, off, src)
    {
      hide Mirrors, IsChain, Splice, D.WriteSpec, D.OnDisk, D.InChain, D.At, D.Piece, D.FirstSector;
      var cluster: nat, sector: nat := GetPos(first, off, s);
      var cur: nat, rest: seq<Byte> := off, src;
      while true
        invariant |rest| > 0 && |data| == |old(data)| && D.OnDisk(g, data, s) && D.InChain(g, s, cur + |rest| - 1)
        invariant D.At(g, s, cur, cluster, sector)
        invariant D.WriteSpec(g, data, s, cur, rest) == D.WriteSpec(g, old(data), s, off, src)
        decreases |rest|
      {
        var n := WriteOneSector(cur, rest, cluster, sector, s);
        if n == |rest| {
          D.WriteDone(g, data, s, cur + n, rest[n..]);
          break;
        }
        D.InChainDown(g, s, cur + n, cur + |rest| - 1);
        cluster, sector := Advance(cur, cur + n, cluster, sector, s);
        cur, rest := cur + n, rest[n..];
      }
    }

    /** Write a buffer into the chain, cut at the file size. */
    method WriteChain(first: nat, size: nat, off: nat, buf: seq<Byte>, ghost s: seq<nat>) returns (n: nat)
      requires Tables() && IsChain(fat, s) && |s| > 0 && s[0] == first && D.OnDisk(g, data, s)
      requires |buf| > 0 && off < size && D.InChain(g, s, size - 1)
      modifies this`data
      ensures n == (if off + |buf| <= size then |buf| else size - off)
      ensures |data| == |old(data)| && n > 0 && D.InChain(g, s, off + n - 1)
      ensures data == D.WriteSpec(g, old(data), s, off, buf[..n])
    {
      hide Mirrors, IsChain, D.WriteSpec, D.OnDisk, D.InChain;
      var end := if off + |buf| <= size then off + |buf| else size;
      n := end - off;
      D.InChainDown(g, s, end - 1, size - 1);
      D.InChainDown(g, s, off, size - 1);
      WriteSectors(first, off, buf[..n], s);
    }

    /** Read the bytes of `[off, end)` from the chain, sector by sector. */
    method ReadSectors(first: nat, off: nat, end: nat, ghost s: seq<nat>) returns (bytes: seq<Byte>)
      requires Tables() && IsChain(fat, s) && |s| > 0 && s[0] == first && D.OnDisk(g, data, s)
      requires off < end && D.InChain(g, s, off) && D.InChain(g, s, end - 1)
      ensures bytes == D.ReadSpec(g, data, s, off, end - off)
    {
      hide Mirrors, IsChain, D.ReadSpec, D.OnDisk, D.InChain, D.At, D.Piece;
      bytes := [];
      var cluster: nat, sector: nat := GetPos(first, off, s);
      var cur := off;
      ghost var want := D.ReadSpec(g, data, s, off, end - off);
      while true
        invariant off <= cur < end && D.At(g, s, cur, cluster, sector)
        invariant bytes + D.ReadSpec(g, data, s, cur, end - cur) == want
        decreases end - cur
      {
        var endBlock := (cur / 512 + 1) * 512;
        if end < endBlock { endBlock := end; }
        var piece := endBlock - cur;
        D.BlockEnd(cur, end);
        D.ReadStep(g, data, s, cur, end - cur, cluster, sector);
        ghost var rest := D.ReadSpec(g, data, s, endBlock, end - endBlock);
        var chunk := data[sector][cur % 512..cur % 512 + piece];
        assert bytes + (chunk + rest) == (bytes + chunk) + rest;
        bytes := bytes + chunk;
        if endBlock == end {
          D.ReadDone(g, data, s, end);
          assert bytes == want;
          break;
        }
        D.InChainDown(g, s, endBlock, end - 1);
        cluster, sector := Advance(cur, endBlock, cluster, sector, s);
        cur := endBlock;
      }
    }

    /** Read up to `len` bytes from the chain, cut at the file size. */
    method ReadChain(first: nat, size: nat, off: nat, len: nat, ghost s: seq<nat>) returns (bytes: seq<Byte>)
      requires Tables() && IsChain(fat, s) && D.OnDisk(g, data, s) && (|s| > 0 ==> s[0] == first)
      requires size > 0 ==> D.InChain(g, s, size - 1)
      ensures Clipped(size, off, len) > 0 ==> D.InChain(g, s, off + Clipped(size, off, len) - 1)
      ensures bytes == D.ReadSpec(g, data, s, off, Clipped(size, off, len))
    {
      hide Mirrors, IsChain, D.ReadSpec, D.OnDisk, D.InChain;
      var end := if off + len <= size then off + len else size;
      if off >= end {
        D.ReadDone(g, data, s, off);
        return [];
      }
      D.InChainDown(g, s, end - 1, size - 1);
      D.InChainDown(g, s, off, size - 1);
      D.InChainSome(g, s, off);
      bytes := ReadSectors(first, off, end, s);
    }
  }

  /** How many bytes a read returns. */
  function Clipped(size: nat, off: nat, len: nat): nat {
    if off >= size then 0 else if off + len <= size then len else size - off
  }

  lemma {:induction false} UnlinkStep(fat: Table, s: seq<nat>, i: nat)
    requires i < |s| && forall k :: 0 <= k < |s| ==> s[k] < |fat|
    ensures Unlink(fat, s[i..]) == Unlink(fat[s[i] := FREE], s[i + 1..])
  {
    assert s[i..][0] == s[i] && s[i..][1..] == s[i + 1..];
  }

  lemma {:induction false} UnlinkNone(fat: Table, s: seq<nat>)
    requires |s| == 0
    ensures Unlink(fat, s) == fat
  {
  }

  /** What one turn of the allocation loop relies on. */
  lemma {:induction false} AllocTurn(before: Table, fat: Table, s: seq<nat>, i: nat, cur: nat)
    requires 0 < i < |s| && cur < |before| == |fat| && (forall k :: 0 <= k < |s| ==> s[k] < |fat|) && s[i - 1] == cur
    requires ZeroCount(before, cur + 1) >= |s| - i && s[i..] == Pick(before, cur, |s| - i)
    requires forall k :: cur <= k < |fat| ==> fat[k] == before[k]
    ensures var next := FirstZero(fat, cur + 1);
            && ZeroCount(fat, cur + 1) > 0 && next == s[i] && cur < next < |fat|
            && ZeroCount(before, next + 1) >= |s| - i - 1 && s[i + 1..] == Pick(before, next, |s| - i - 1)
            && Link(fat, s[i - 1..]) == Link(fat[cur := next], s[i..])
  {
    FirstZeroAgrees(before, fat, cur + 1);
    PickStep(before, cur, |s| - i);
    SomeZero(fat, cur + 1);
    LinkStep(fat, s, i);
    assert s[i..][0] == s[i] && s[i..][1..] == s[i + 1..];
  }

  lemma {:induction false} LinkNone(fat: Table, s: seq<nat>)
    requires |s| == 0
    ensures Link(fat, s) == fat
  {
  }

  lemma {:induction false} ClearedNone(g: D.Geometry, s: seq<nat>)
    ensures forall t: nat :: !InClusters(g, s[..0], t)
  {
  }

  /** Clearing the last of some clusters after the others clears all. */
  lemma {:induction false} ClearedLast(g: D.Geometry, was: D.Disk, mid: D.Disk, now: D.Disk, s: seq<nat>)
    requires |s| > 0 && |now| == |mid| == |was|
    requires forall t :: 0 <= t < |mid| ==> mid[t] == if InClusters(g, s[..|s| - 1], t) then ZERO else was[t]
    requires forall t :: 0 <= t < |now| ==> now[t] == if InCluster(g, s[|s| - 1], t) then ZERO else mid[t]
    ensures now == Zeroed(g, was, s)
  {
    hide InCluster, InClusters;
    ClearedMore(g, s, |s|);
    assert s[..|s|] == s;
  }

  lemma {:induction false} ClearedMore(g: D.Geometry, s: seq<nat>, i: nat)
    requires 0 < i <= |s|
    ensures forall t: nat :: InClusters(g, s[..i], t) <==> InClusters(g, s[..i - 1], t) || InCluster(g, s[i - 1], t)
  {
    forall t: nat ensures InClusters(g, s[..i], t) <==> InClusters(g, s[..i - 1], t) || InCluster(g, s[i - 1], t) {
      if InClusters(g, s[..i - 1], t) {
        var j :| 0 <= j < i - 1 && InCluster(g, s[..i - 1][j], t);
        assert s[..i][j] == s[..i - 1][j];
      }
      if InCluster(g, s[i - 1], t) { assert s[..i][i - 1] == s[i - 1]; }
      if InClusters(g, s[..i], t) {
        var j :| 0 <= j < i && InCluster(g, s[..i][j], t);
        assert j < i - 1 ==> s[..i - 1][j] == s[..i][j];
      }
    }
  }
}

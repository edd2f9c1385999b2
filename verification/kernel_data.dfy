/** File bytes on the data sectors of the kernel's FAT32: where byte `i` of a chain lives, and what reading and writing
    a range of bytes means across sectors and clusters. */
module KernelData {
  import opened Arith
  import opened BlockCache
  import opened Bytes
  import opened Basics

  type Disk = seq<Sector>

  /** The first data sector and the number of sectors per cluster. */
  datatype Geometry = Geometry(root: nat, spc: nat)

  function FirstSector(g: Geometry, cluster: nat): nat
    requires cluster >= 2
  {
    (cluster - 2) * g.spc + g.root
  }

  /** Clusters follow one another from number 2 on, where the root directory begins. */
  lemma {:induction false} ClustersInARow(g: Geometry, c: nat)
    requires c >= 2
    ensures FirstSector(g, 2) == g.root && FirstSector(g, c + 1) == FirstSector(g, c) + g.spc
  {
    assert (c + 1 - 2) * g.spc == (c - 2) * g.spc + g.spc;
  }

  /** Byte `i` lies within the clusters of the chain. */
  predicate InChain(g: Geometry, chain: seq<nat>, i: nat) {
    g.spc > 0 && i / 512 / g.spc < |chain|
  }

  /** Every cluster of the chain is a data cluster that lies on the disk. */
  ghost predicate OnDisk(g: Geometry, disk: Disk, chain: seq<nat>) {
    g.spc > 0 && forall j :: 0 <= j < |chain| ==> chain[j] >= 2 && FirstSector(g, chain[j]) + g.spc <= |disk|
  }

  /** The sector that holds the `k`-th 512 bytes of the chain. */
  function FileSector(g: Geometry, chain: seq<nat>, k: nat): nat
    requires g.spc > 0 && k / g.spc < |chain| && chain[k / g.spc] >= 2
  {
    FirstSector(g, chain[k / g.spc]) + k % g.spc
  }

  lemma {:induction false} InChainDown(g: Geometry, chain: seq<nat>, i: nat, j: nat)
    requires InChain(g, chain, j) && i <= j
    ensures InChain(g, chain, i)
  {
    DivFacts(i / 512, g.spc);
    DivBelow(j / 512, |chain|, g.spc);
    DivBelow(i / 512, |chain|, g.spc);
  }

  lemma {:induction false} InChainSome(g: Geometry, chain: seq<nat>, i: nat)
    requires InChain(g, chain, i)
    ensures |chain| > 0
  {
    DivFacts(i / 512, g.spc);
  }

  lemma {:induction false} SectorOnDisk(g: Geometry, disk: Disk, chain: seq<nat>, k: nat)
    requires OnDisk(g, disk, chain) && k / g.spc < |chain|
    ensures k / g.spc >= 0 && chain[k / g.spc] >= 2 && FileSector(g, chain, k) < |disk|
  {
    DivFacts(k, g.spc);
  }

  /** A sector belongs to one place of one chain. */
  lemma {:induction false} SectorInjective(g: Geometry, a: seq<nat>, j: nat, b: seq<nat>, k: nat)
    requires g.spc > 0 && j / g.spc < |a| && k / g.spc < |b| && a[j / g.spc] >= 2 && b[k / g.spc] >= 2
    requires FileSector(g, a, j) == FileSector(g, b, k)
    ensures a[j / g.spc] == b[k / g.spc] && j % g.spc == k % g.spc
  {
    DivFacts(j, g.spc);
    DivFacts(k, g.spc);
    DigitsUnique(a[j / g.spc] - 2, j % g.spc, b[k / g.spc] - 2, k % g.spc, g.spc);
  }

  /** From one sector of a file to the next: one up, or to the first sector of the next cluster. */
  lemma {:induction false} NextSector(g: Geometry, chain: seq<nat>, k: nat)
    requires g.spc > 0 && (k + 1) / g.spc < |chain| && forall j :: 0 <= j < |chain| ==> chain[j] >= 2
    ensures k / g.spc < |chain|
    ensures (k + 1) % g.spc == 0 ==>
            (k + 1) / g.spc == k / g.spc + 1 && FileSector(g, chain, k + 1) == FirstSector(g, chain[k / g.spc + 1])
    ensures (k + 1) % g.spc != 0 ==>
            (k + 1) / g.spc == k / g.spc && FileSector(g, chain, k + 1) == FileSector(g, chain, k) + 1
  {
    DivFacts(k, g.spc);
    DivSucc(k, g.spc);
  }

  /** The position arithmetic of `get_pos` finds the sector of a byte. */
  lemma {:induction false} PositionOf(g: Geometry, chain: seq<nat>, off: nat)
    requires InChain(g, chain, off) && forall j :: 0 <= j < |chain| ==> chain[j] >= 2
    ensures var index := off / (g.spc * 512);
            && index == off / 512 / g.spc && off - index * (g.spc * 512) >= 0
            && FirstSector(g, chain[index]) + (off - index * (g.spc * 512)) / 512 == FileSector(g, chain, off / 512)
  {
    DivDiv(off, g.spc);
    DivFacts(off, g.spc * 512);
    DivFacts(off / 512, g.spc);
  }

  lemma {:induction false} SamePlace(g: Geometry, chain: seq<nat>, j: nat, k: nat)
    requires NoDup(chain) && g.spc > 0 && j / g.spc < |chain| && k / g.spc < |chain|
    requires chain[j / g.spc] >= 2 && chain[k / g.spc] >= 2
    requires FileSector(g, chain, j) == FileSector(g, chain, k)
    ensures j == k
  {
    SectorInjective(g, chain, j, chain, k);
    DivFacts(j, g.spc);
    DivFacts(k, g.spc);
  }

  // ---------- bytes ----------

  /** Byte `i` of the file on this chain. */
  ghost function ByteAt(g: Geometry, disk: Disk, chain: seq<nat>, i: nat): Byte
    requires OnDisk(g, disk, chain) && InChain(g, chain, i)
  {
    SectorOnDisk(g, disk, chain, i / 512);
    disk[FileSector(g, chain, i / 512)][i % 512]
  }

  /** How far the current sector reaches, cut at the end of the buffer. */
  function Piece(off: nat, len: nat): (n: nat)
    ensures n <= len && off % 512 + n <= 512 && (len > 0 ==> n > 0)
  {
    if 512 - off % 512 < len then 512 - off % 512 else len
  }

  /** One sector of a write. */
  function WriteSector(g: Geometry, disk: Disk, chain: seq<nat>, off: nat, bytes: seq<Byte>): (r: Disk)
    requires OnDisk(g, disk, chain) && InChain(g, chain, off) && off % 512 + |bytes| <= 512
    ensures |r| == |disk|
  {
    SectorOnDisk(g, disk, chain, off / 512);
    var t := FileSector(g, chain, off / 512);
    disk[t := Splice(disk[t], off % 512, bytes)]
  }

  /** The disk after `buf` has been written at `off`, sector by sector. */
  ghost function WriteSpec(g: Geometry, disk: Disk, chain: seq<nat>, off: nat, buf: seq<Byte>): (r: Disk)
    requires OnDisk(g, disk, chain) && (|buf| > 0 ==> InChain(g, chain, off + |buf| - 1))
    ensures |r| == |disk|
    decreases |buf|
  {
    if |buf| == 0 then disk else
      InChainDown(g, chain, off, off + |buf| - 1);
      var n := Piece(off, |buf|);
      WriteSpec(g, WriteSector(g, disk, chain, off, buf[..n]), chain, off + n, buf[n..])
  }

  /** A cursor of the loops: the cluster and the sector that hold byte `off`. */
  ghost predicate At(g: Geometry, chain: seq<nat>, off: nat, cluster: nat, sector: nat) {
    && InChain(g, chain, off) && 0 <= off / 512 / g.spc && chain[off / 512 / g.spc] >= 2
    && cluster == chain[off / 512 / g.spc] && sector == FileSector(g, chain, off / 512)
  }

  /** The sector of an offset. */
  function SectorOf(g: Geometry, ghost disk: Disk, chain: seq<nat>, off: nat): (sector: nat)
    requires OnDisk(g, disk, chain) && InChain(g, chain, off)
    ensures 0 <= off / 512 / g.spc < |chain| && At(g, chain, off, chain[off / 512 / g.spc], sector)
  {
    SectorOnDisk(g, disk, chain, off / 512);
    FileSector(g, chain, off / 512)
  }

  /** One turn of the write loop. */
  lemma {:induction false} WriteStep(g: Geometry, disk: Disk, chain: seq<nat>, off: nat, buf: seq<Byte>, cluster: nat,
                                     sector: nat)
    requires OnDisk(g, disk, chain) && |buf| > 0 && InChain(g, chain, off + |buf| - 1) &&
             At(g, chain, off, cluster, sector)
    ensures sector < |disk|
    ensures var n := Piece(off, |buf|);
            var d := disk[sector := Splice(disk[sector], off % 512, buf[..n])];
            && OnDisk(g, d, chain)
            && WriteSpec(g, disk, chain, off, buf) == WriteSpec(g, d, chain, off + n, buf[n..])
  {
    SectorOnDisk(g, disk, chain, off / 512);
  }

  lemma {:induction false} WriteDone(g: Geometry, disk: Disk, chain: seq<nat>, off: nat, buf: seq<Byte>)
    requires OnDisk(g, disk, chain) && |buf| == 0
    ensures WriteSpec(g, disk, chain, off, buf) == disk
  {
  }

  /** Where the loops go when a sector is done: `next` is the first byte of the next sector, `i` the place of the
      current cluster in the chain. */
  lemma {:induction false} NextPlace(g: Geometry, chain: seq<nat>, cur: nat, next: nat, cluster: nat, sector: nat)
    returns (i: nat)
    requires At(g, chain, cur, cluster, sector) && InChain(g, chain, next) && next == (cur / 512 + 1) * 512
    requires forall j :: 0 <= j < |chain| ==> chain[j] >= 2
    ensures g.spc > 0 && i < |chain| && cluster == chain[i]
    ensures next % (g.spc * 512) == 0 ==>
            i + 1 < |chain| && At(g, chain, next, chain[i + 1], FirstSector(g, chain[i + 1]))
    ensures next % (g.spc * 512) != 0 ==> At(g, chain, next, cluster, sector + 1)
  {
    assert next / 512 == cur / 512 + 1 && next % 512 == 0;
    DivDiv(next, g.spc);
    DivFacts(cur / 512, g.spc);
    NextSector(g, chain, cur / 512);
    i := cur / 512 / g.spc;
  }

  /** The sector ends where the loops compute it, cut at the end of the range. */
  lemma {:induction false} BlockEnd(cur: nat, end: nat)
    requires cur < end
    ensures cur + Piece(cur, end - cur) == if end < (cur / 512 + 1) * 512 then end else (cur / 512 + 1) * 512
  {
  }

  /** The bytes read from `off`, sector by sector. */
  ghost function ReadSpec(g: Geometry, disk: Disk, chain: seq<nat>, off: nat, len: nat): (r: seq<Byte>)
    requires OnDisk(g, disk, chain) && (len > 0 ==> InChain(g, chain, off + len - 1))
    decreases len
  {
    if len == 0 then [] else
      InChainDown(g, chain, off, off + len - 1);
      SectorOnDisk(g, disk, chain, off / 512);
      var n := Piece(off, len);
      disk[FileSector(g, chain, off / 512)][off % 512..off % 512 + n] + ReadSpec(g, disk, chain, off + n, len - n)
  }

  /** One turn of the read loop. */
  lemma {:induction false} ReadStep(g: Geometry, disk: Disk, chain: seq<nat>, off: nat, len: nat, cluster: nat,
                                    sector: nat)
    requires OnDisk(g, disk, chain) && len > 0 && InChain(g, chain, off + len - 1) && At(g, chain, off, cluster, sector)
    ensures sector < |disk|
    ensures var n := Piece(off, len);
            ReadSpec(g, disk, chain, off, len) == disk[sector][off % 512..off % 512 + n] +
            ReadSpec(g, disk, chain, off + n, len - n)
  {
    SectorOnDisk(g, disk, chain, off / 512);
  }

  lemma {:induction false} ReadDone(g: Geometry, disk: Disk, chain: seq<nat>, off: nat)
    requires OnDisk(g, disk, chain)
    ensures ReadSpec(g, disk, chain, off, 0) == []
  {
  }

  lemma {:induction false} SpliceAt(data: Sector, off: nat, bytes: seq<Byte>, j: nat)
    requires off + |bytes| <= 512 && j < 512
    ensures Splice(data, off, bytes)[j] == if off <= j < off + |bytes| then bytes[j - off] else data[j]
  {
  }

  /** Within one sector, offsets in the file and in the sector move together. */
  lemma {:induction false} SameSector(off: nat, n: nat, i: nat)
    requires off % 512 + n <= 512
    ensures off <= i < off + n <==> i / 512 == off / 512 && off % 512 <= i % 512 < off % 512 + n
    ensures off <= i < off + n ==> i - off == i % 512 - off % 512
  {
  }

  lemma {:induction false} WriteSectorByte(g: Geometry, disk: Disk, chain: seq<nat>, off: nat, bytes: seq<Byte>, i: nat)
    requires OnDisk(g, disk, chain) && NoDup(chain) && InChain(g, chain, off) && off % 512 + |bytes| <= 512
    requires InChain(g, chain, i)
    ensures OnDisk(g, WriteSector(g, disk, chain, off, bytes), chain)
    ensures ByteAt(g, WriteSector(g, disk, chain, off, bytes), chain, i)
            == if off <= i < off + |bytes| then bytes[i - off] else ByteAt(g, disk, chain, i)
  {
    hide FirstSector;
    SameSector(off, |bytes|, i);
    SectorOnDisk(g, disk, chain, off / 512);
    SectorOnDisk(g, disk, chain, i / 512);
    var t := FileSector(g, chain, off / 512);
    if FileSector(g, chain, i / 512) == t {
      SamePlace(g, chain, i / 512, off / 512);
      SpliceAt(disk[t], off % 512, bytes, i % 512);
    }
  }

  /** A write changes exactly the bytes of its range. */
  lemma {:induction false} WriteBytes(g: Geometry, disk: Disk, chain: seq<nat>, off: nat, buf: seq<Byte>, i: nat)
    requires OnDisk(g, disk, chain) && NoDup(chain) && (|buf| > 0 ==> InChain(g, chain, off + |buf| - 1))
    requires InChain(g, chain, i)
    ensures OnDisk(g, WriteSpec(g, disk, chain, off, buf), chain)
    ensures ByteAt(g, WriteSpec(g, disk, chain, off, buf), chain, i)
            == if off <= i < off + |buf| then buf[i - off] else ByteAt(g, disk, chain, i)
    decreases |buf|
  {
    if |buf| > 0 {
      InChainDown(g, chain, off, off + |buf| - 1);
      var n := Piece(off, |buf|);
      WriteSectorByte(g, disk, chain, off, buf[..n], i);
      WriteBytes(g, WriteSector(g, disk, chain, off, buf[..n]), chain, off + n, buf[n..], i);
    }
  }

  /** A write touches no sector outside its chain. */
  lemma {:induction false} WriteFrame(g: Geometry, disk: Disk, chain: seq<nat>, off: nat, buf: seq<Byte>, t: nat)
    requires OnDisk(g, disk, chain) && (|buf| > 0 ==> InChain(g, chain, off + |buf| - 1)) && t < |disk|
    requires forall k: nat :: k / g.spc < |chain| ==> FileSector(g, chain, k) != t
    ensures WriteSpec(g, disk, chain, off, buf)[t] == disk[t]
    decreases |buf|
  {
    if |buf| > 0 {
      InChainDown(g, chain, off, off + |buf| - 1);
      var n := Piece(off, |buf|);
      WriteFrame(g, WriteSector(g, disk, chain, off, buf[..n]), chain, off + n, buf[n..], t);
    }
  }

  /** Files on disjoint chains do not see each other's writes. */
  lemma {:induction false} WriteOther(g: Geometry, disk: Disk, chain: seq<nat>, off: nat, buf: seq<Byte>,
                                      other: seq<nat>, i: nat)
    requires OnDisk(g, disk, chain) && OnDisk(g, disk, other) && (|buf| > 0 ==> InChain(g, chain, off + |buf| - 1))
    requires forall c :: c in chain ==> c !in other
    requires InChain(g, other, i)
    ensures ByteAt(g, WriteSpec(g, disk, chain, off, buf), other, i) == ByteAt(g, disk, other, i)
  {
    SectorOnDisk(g, disk, other, i / 512);
    var t := FileSector(g, other, i / 512);
    forall k: nat | k / g.spc < |chain| ensures chain[k / g.spc] >= 2 && FileSector(g, chain, k) != t {
      SectorOnDisk(g, disk, chain, k);
      assert chain[k / g.spc] in chain && other[i / 512 / g.spc] in other;
      if FileSector(g, chain, k) == t { SectorInjective(g, chain, k, other, i / 512); }
    }
    WriteFrame(g, disk, chain, off, buf, t);
  }

  lemma {:induction false} ReadBytes(g: Geometry, disk: Disk, chain: seq<nat>, off: nat, len: nat, j: nat)
    requires OnDisk(g, disk, chain) && (len > 0 ==> InChain(g, chain, off + len - 1))
    ensures |ReadSpec(g, disk, chain, off, len)| == len
    ensures j < len ==>
              InChain(g, chain, off + j) && ReadSpec(g, disk, chain, off, len)[j] == ByteAt(g, disk, chain, off + j)
    decreases len
  {
    hide FirstSector, OnDisk, InChain, ByteAt;
    if len > 0 {
      InChainDown(g, chain, off, off + len - 1);
      var n := Piece(off, len);
      var sector := SectorOf(g, disk, chain, off);
      ReadStep(g, disk, chain, off, len, chain[off / 512 / g.spc], sector);
      ReadBytes(g, disk, chain, off + n, len - n, if j >= n then j - n else 0);
      if j < n {
        InChainDown(g, chain, off + j, off + len - 1);
        FirstBytes(g, disk, chain, off, n, j, sector);
      }
    }
  }

  /** The bytes of one sector. */
  lemma {:induction false} FirstBytes(g: Geometry, disk: Disk, chain: seq<nat>, off: nat, n: nat, j: nat, sector: nat)
    requires OnDisk(g, disk, chain) && InChain(g, chain, off) && InChain(g, chain, off + j) && j < n &&
             off % 512 + n <= 512
    requires 0 <= off / 512 / g.spc && At(g, chain, off, chain[off / 512 / g.spc], sector)
    ensures sector < |disk| && disk[sector][off % 512..off % 512 + n][j] == ByteAt(g, disk, chain, off + j)
  {
    hide FirstSector;
    SectorOnDisk(g, disk, chain, off / 512);
    SameSector(off, n, off + j);
  }

  /** What is written is what is read back. */
  lemma {:induction false} ReadAfterWrite(g: Geometry, disk: Disk, chain: seq<nat>, off: nat, buf: seq<Byte>)
    requires OnDisk(g, disk, chain) && NoDup(chain) && (|buf| > 0 ==> InChain(g, chain, off + |buf| - 1))
    ensures OnDisk(g, WriteSpec(g, disk, chain, off, buf), chain)
    ensures ReadSpec(g, WriteSpec(g, disk, chain, off, buf), chain, off, |buf|) == buf
  {
    var d := WriteSpec(g, disk, chain, off, buf);
    var r := ReadSpec(g, d, chain, off, |buf|);
    ReadBytes(g, d, chain, off, |buf|, 0);
    forall j | 0 <= j < |buf| ensures r[j] == buf[j] {
      ReadBytes(g, d, chain, off, |buf|, j);
      WriteBytes(g, disk, chain, off, buf, off + j);
    }
  }
}

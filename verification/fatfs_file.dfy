/** A handle on a regular file: a cursor over the bytes of a cluster chain. */
module FatfsFile {
  import opened Arith
  import opened Basics
  import opened Bytes
  import opened FatfsChain
  import opened FatfsTable
  import opened FatfsFs

  const MAX_FILE_SIZE: nat := 0xFFFF_FFFF

  datatype SeekFrom = Start(u: nat) | Current(x: int) | End(x: int)

  // ---------- the bytes of a chain ----------

  function Place(g: Geometry, c: nat, o: nat): nat
    requires c >= 2
  {
    g.base + (c - 2) * g.size + o
  }

  /** Clusters follow one another from number 2 on. */
  lemma {:induction false} ClustersInARow(g: Geometry, c: nat, o: nat)
    requires c >= 2
    ensures Place(g, 2, 0) == g.base && Place(g, c + 1, 0) == Place(g, c, g.size)
    ensures Place(g, c, o) == Place(g, c, 0) + o
  {
    assert (c + 1 - 2) * g.size == (c - 2) * g.size + g.size;
  }

  /** Every cluster of the chain lies on the disk. */
  ghost predicate OnDisk(g: Geometry, disk: seq<Byte>, s: seq<nat>) {
    g.size > 0 && forall j :: 0 <= j < |s| ==> s[j] >= 2 && Place(g, s[j], g.size) <= |disk|
  }

  ghost predicate InChain(g: Geometry, s: seq<nat>, i: nat) {
    g.size > 0 && i / g.size < |s|
  }

  ghost function ByteAt(g: Geometry, disk: seq<Byte>, s: seq<nat>, i: nat): Byte
    requires OnDisk(g, disk, s) && InChain(g, s, i)
  {
    DivFacts(i, g.size);
    disk[Place(g, s[i / g.size], i % g.size)]
  }

  /** The first `n` bytes of a chain. */
  ghost function BytesOf(g: Geometry, disk: seq<Byte>, s: seq<nat>, n: nat): (r: seq<Byte>)
    requires OnDisk(g, disk, s) && n <= |s| * g.size
    ensures |r| == n
    ensures forall i :: 0 <= i < n ==> InChain(g, s, i) && r[i] == ByteAt(g, disk, s, i)
  {
    if n == 0 then [] else
      DivBelow(n - 1, |s|, g.size);
      BytesOf(g, disk, s, n - 1) + [ByteAt(g, disk, s, n - 1)]
  }

  lemma {:induction false} SameBytes(g: Geometry, disk: seq<Byte>, disk': seq<Byte>, s: seq<nat>, s': seq<nat>, n: nat)
    requires OnDisk(g, disk, s) && OnDisk(g, disk', s') && n <= |s| * g.size && n <= |s'| * g.size
    requires forall i: nat :: i < n && InChain(g, s, i) && InChain(g, s', i) ==>
             ByteAt(g, disk', s', i) == ByteAt(g, disk, s, i)
    ensures BytesOf(g, disk', s', n) == BytesOf(g, disk, s, n)
  {
  }

  /** A stretch within one cluster meets a byte of a cluster only where both lie in the same one. */
  lemma {:induction false} PlaceIn(g: Geometry, c: nat, o: nat, c': nat, o': nat, n: nat)
    requires c >= 2 && c' >= 2 && o < g.size && o' + n <= g.size
    ensures Place(g, c', o') <= Place(g, c, o) < Place(g, c', o') + n <==> c == c' && o' <= o < o' + n
    ensures Place(g, c', o') <= Place(g, c, o) < Place(g, c', o') + n ==> Place(g, c, o) - Place(g, c', o') == o - o'
  {
    if Place(g, c', o') <= Place(g, c, o) < Place(g, c', o') + n {
      var k := Place(g, c, o) - Place(g, c', o');
      DigitsUnique(c - 2, o, c' - 2, o' + k, g.size);
    }
  }

  function Patch(disk: seq<Byte>, p: nat, buf: seq<Byte>): (r: seq<Byte>)
    requires p + |buf| <= |disk|
    ensures |r| == |disk|
    ensures forall k :: 0 <= k < |disk| ==> r[k] == if p <= k < p + |buf| then buf[k - p] else disk[k]
  {
    disk[..p] + buf + disk[p + |buf|..]
  }

  /** Within one cluster: quotients agree and remainders move together. */
  lemma {:induction false} SameCluster(i: nat, off: nat, n: nat, m: nat)
    requires m > 0 && off % m + n <= m
    ensures off <= i < off + n <==> i / m == off / m && off % m <= i % m < off % m + n
    ensures off <= i < off + n ==> i - off == i % m - off % m
  {
    DivFacts(i, m);
    DivFacts(off, m);
    MulStep(i / m, off / m, m);
    MulStep(off / m, i / m, m);
  }

  lemma {:induction false} PlaceFits(g: Geometry, disk: seq<Byte>, s: seq<nat>, off: nat, n: nat)
    requires OnDisk(g, disk, s) && InChain(g, s, off) && off % g.size + n <= g.size
    ensures off / g.size >= 0 && s[off / g.size] >= 2 && Place(g, s[off / g.size], off % g.size) + n <= |disk|
  {
    DivFacts(off, g.size);
  }

  /** A write within one cluster changes these bytes of the chain. */
  lemma {:induction false} PatchSelf(g: Geometry, disk: seq<Byte>, s: seq<nat>, off: nat, buf: seq<Byte>, i: nat)
    requires OnDisk(g, disk, s) && NoDup(s) && InChain(g, s, off) && InChain(g, s, i) && off % g.size + |buf| <= g.size
    requires off / g.size >= 0 && s[off / g.size] >= 2 && Place(g, s[off / g.size], off % g.size) + |buf| <= |disk|
    ensures var disk' := Patch(disk, Place(g, s[off / g.size], off % g.size), buf);
            OnDisk(g, disk', s) && ByteAt(g, disk', s, i) ==
            if off <= i < off + |buf| then buf[i - off] else ByteAt(g, disk, s, i)
  {
    DivFacts(i, g.size);
    PlaceIn(g, s[i / g.size], i % g.size, s[off / g.size], off % g.size, |buf|);
    SameCluster(i, off, |buf|, g.size);
    assert s[i / g.size] == s[off / g.size] ==> i / g.size == off / g.size;
  }

  /** ... and none of a chain elsewhere. */
  lemma {:induction false} PatchOther(g: Geometry, disk: seq<Byte>, s: seq<nat>, off: nat, buf: seq<Byte>, o: seq<nat>,
                                      i: nat)
    requires OnDisk(g, disk, s) && OnDisk(g, disk, o) && Apart(o, s) && InChain(g, s, off) && InChain(g, o, i) &&
             off % g.size + |buf| <= g.size
    requires off / g.size >= 0 && s[off / g.size] >= 2 && Place(g, s[off / g.size], off % g.size) + |buf| <= |disk|
    ensures var disk' := Patch(disk, Place(g, s[off / g.size], off % g.size), buf);
            OnDisk(g, disk', o) && ByteAt(g, disk', o, i) == ByteAt(g, disk, o, i)
  {
    DivFacts(i, g.size);
    PlaceIn(g, o[i / g.size], i % g.size, s[off / g.size], off % g.size, |buf|);
    assert o[i / g.size] !in s;
  }

  // ---------- the cursor ----------

  /** Cluster behind which the cursor stands, the clusters the size needs, and the first one. */
  ghost predicate CursorOk(m: nat, s: seq<nat>, size: nat, offset: nat, current: Option<nat>, first: Option<nat>) {
    && m > 0 && offset <= size <= MAX_FILE_SIZE && size <= |s| * m
    && first == (if |s| == 0 then None else Some(s[0]))
    && (if offset == 0 then current == None
        else 0 < CeilDiv(offset, m) <= |s| && current == Some(s[CeilDiv(offset, m) - 1]))
  }

  lemma {:induction false} CeilAt(off: nat, m: nat)
    requires m > 0
    ensures CeilDiv(off, m) == if off % m == 0 then off / m else off / m + 1
  {
    DivFacts(off, m);
    var q, r := off / m, off % m;
    if r == 0 { DivUnique(off + m - 1, m, q, m - 1); } else { DivUnique(off + m - 1, m, q + 1, r - 1); }
  }

  /** Where the cursor's next byte lies: the current cluster, or at a boundary the one after it. */
  lemma {:induction false} CursorAt(m: nat, s: seq<nat>, size: nat, offset: nat, current: Option<nat>,
                                    first: Option<nat>)
    requires CursorOk(m, s, size, offset, current, first)
    ensures offset % m != 0 ==> 0 <= offset / m < |s| && current == Some(s[offset / m])
    ensures offset % m == 0 && offset > 0 ==> 0 < offset / m <= |s| && current == Some(s[offset / m - 1])
    ensures offset == 0 ==> offset / m == 0 && offset % m == 0 && current == None
    ensures offset % m == 0 ==> offset / m <= |s|
    ensures offset < size ==> offset / m < |s|
  {
    CeilAt(offset, m);
    DivFacts(offset, m);
    if offset < size { DivBelow(offset, |s|, m); }
    if offset == 0 { DivUnique(0, m, 0, 0); }
  }

  /** After moving on within a cluster the cursor stands in that cluster. */
  lemma {:induction false} CursorMove(m: nat, s: seq<nat>, size: nat, offset: nat, n: nat, first: Option<nat>)
    requires m > 0 && 0 < n && offset % m + n <= m && 0 <= offset / m < |s|
    requires offset + n <= size <= MAX_FILE_SIZE && size <= |s| * m && first == Some(s[0])
    ensures CursorOk(m, s, size, offset + n, Some(s[offset / m]), first)
  {
    DivFacts(offset, m);
    var q := offset / m;
    DivUnique(offset + n + m - 1, m, q + 1, offset % m + n - 1);
  }

  // ---------- a byte sequence with a cursor ----------

  datatype Stream = Stream(bytes: seq<Byte>, at: nat)

  function AfterWrite(a: Stream, buf: seq<Byte>): Stream
    requires a.at <= |a.bytes|
  {
    Stream(Overwrite(a.bytes, a.at, buf), a.at + |buf|)
  }

  /** The position asked for: an absolute one is cast to a signed number. */
  function Target(a: Stream, p: SeekFrom): int {
    match p
    case Start(u) => if u < 0x8000_0000_0000_0000 then u else u - 0x1_0000_0000_0000_0000
    case Current(x) => a.at + x
    case End(x) => |a.bytes| + x
  }

  /** How far one call gets: to the end of the request, of the cluster, or of what `left` allows. */
  function Chunk(m: nat, at: nat, len: nat, left: nat): (n: nat)
    requires m > 0
    ensures n <= len && n <= left && at % m + n <= m
    ensures n == len || n == left || at % m + n == m
  {
    DivFacts(at, m);
    var n := if len <= m - at % m then len else m - at % m;
    if n <= left then n else left
  }

  ghost predicate HasRead(m: nat, a: Stream, len: nat, bytes: seq<Byte>, a': Stream) {
    && m > 0 && a.at <= |a.bytes| && |bytes| == Chunk(m, a.at, len, |a.bytes| - a.at)
    && bytes == a.bytes[a.at..a.at + |bytes|] && a' == Stream(a.bytes, a.at + |bytes|)
  }

  /** The cluster that holds the byte at an offset, if the chain has it. */
  function ClusterOf(m: nat, s: seq<nat>, off: nat): Option<nat>
    requires m > 0
  {
    DivFacts(off, m);
    if off / m < |s| then Some(s[off / m]) else None
  }

  /** Every chain but that of `f`, and every byte of it, is as it was. */
  ghost predicate OthersKept(g: Geometry, disk: seq<Byte>, chains: Chains, disk': seq<Byte>, chains': Chains, f: nat) {
    && chains'.Keys == chains.Keys
    && forall h :: h in chains && h != f ==> chains'[h] == chains[h] && SameOn(g, disk, disk', chains[h])
  }

  ghost predicate SameOn(g: Geometry, disk: seq<Byte>, disk': seq<Byte>, s: seq<nat>) {
    && OnDisk(g, disk, s) && OnDisk(g, disk', s)
    && forall i: nat :: InChain(g, s, i) ==> ByteAt(g, disk', s, i) == ByteAt(g, disk, s, i)
  }

  lemma {:induction false} ChainOnDisk(g: Geometry, disk: seq<Byte>, tab: Table, s: seq<nat>)
    requires IsChain(tab, s) && g.size > 0 && |tab| >= 2 && g.base + (|tab| - 2) * g.size <= |disk|
    ensures OnDisk(g, disk, s)
  {
    forall j | 0 <= j < |s| ensures s[j] >= 2 && Place(g, s[j], g.size) <= |disk| {
      MulStep(s[j] - 2, |tab| - 2, g.size);
    }
  }

  class File {
    const fs: FileSystem
    ghost const f: nat
    var first: Option<nat>
    var current: Option<nat>
    var offset: nat
    var size: nat

    constructor (fs: FileSystem, first: Option<nat>, size: nat, ghost f: nat)
      requires fs.Valid() && f in fs.chains && size <= MAX_FILE_SIZE && size <= |fs.chains[f]| * fs.g.size
      requires first == if |fs.chains[f]| == 0 then None else Some(fs.chains[f][0])
      ensures Valid() && this.fs == fs && this.f == f && this.size == size && Abs().at == 0
    {
      this.fs := fs;
      this.first := first;
      this.size := size;
      this.f := f;
      this.current := None;
      this.offset := 0;
    }

    ghost predicate Valid()
      reads this, fs, fs.fat
    {
      fs.Valid() && f in fs.chains && CursorOk(fs.g.size, fs.chains[f], size, offset, current, first)
    }

    ghost function Abs(): (a: Stream)
      requires Valid()
      reads this, fs, fs.fat
      ensures a.at <= |a.bytes|
    {
      ChainOnDisk(fs.g, fs.disk, fs.fat.tab, fs.chains[f]);
      Stream(BytesOf(fs.g, fs.disk, fs.chains[f], size), offset)
    }

    lemma {:induction false} Facts()
      requires Valid()
      ensures IsChain(fs.fat.tab, fs.chains[f]) && OnDisk(fs.g, fs.disk, fs.chains[f])
      ensures fs.g.size > 0 && size <= |fs.chains[f]| * fs.g.size
      ensures Abs() == Stream(BytesOf(fs.g, fs.disk, fs.chains[f], size), offset)
    {
      ChainOnDisk(fs.g, fs.disk, fs.fat.tab, fs.chains[f]);
    }

    /** The cluster of the cursor's next byte, if the chain has it. */
    method NextCluster() returns (c: Option<nat>)
      requires Valid()
      modifies fs.fat`pos
      ensures c == ClusterOf(fs.g.size, fs.chains[f], offset)
    {
      hide Holds, IsChain, Links;
      CursorAt(fs.g.size, fs.chains[f], size, offset, current, first);
      if offset % fs.g.size == 0 {
        match current
        case None => c := first;
        case Some(n) =>
          PrevInTable(fs.fat.tab, fs.chains[f]);
          ChainNext(fs.fat.tab, fs.chains[f], offset / fs.g.size - 1);
          var iter := new ClusterIterator(fs.fat, n);
          c := iter.Next();
      } else {
        c := current;
      }
    }

    /** Read to the end of the request, of the cluster or of the file, whichever comes first. */
    method Read(len: nat) returns (bytes: seq<Byte>)
      requires Valid()
      modifies this, fs.fat`pos
      ensures Valid() && HasRead(fs.g.size, old(Abs()), len, bytes, Abs())
    {
      hide Holds, IsChain, Links, Place, BytesOf, ChainsOk, InfoOk, CeilDiv, OnDisk, InChain, CursorOk;
      ghost var s := fs.chains[f];
      var m := fs.g.size;
      var c := NextCluster();
      Facts();
      CursorLimits(m, s, size, offset, current, first);
      var n := Chunk(m, offset, len, size - offset);
      if c.None? || n == 0 {
        return [];
      }
      PlaceFits(fs.g, fs.disk, s, offset, n);
      var p := Place(fs.g, c.value, offset % m);
      bytes := fs.disk[p..p + n];
      ReadCluster(fs.g, fs.disk, s, size, offset, n);
      CursorMove(m, s, size, offset, n, first);
      offset := offset + n;
      current := c;
      Facts();
    }

    /** The cluster to write to: the next one of the chain, or a new one behind its last. */
    method ClusterForWrite() returns (r: Option<nat>)
      requires Valid()
      modifies this`first, fs`info, fs`chains, fs.fat
      ensures Valid() && Abs() == old(Abs()) && old(fs.chains[f]) <= fs.chains[f]
      ensures fs.chains == old(fs.chains)[f := fs.chains[f]]
      ensures old(ClusterOf(fs.g.size, fs.chains[f], offset)).Some? ==> fs.chains == old(fs.chains)
      ensures |fs.chains[f]| <= |old(fs.chains[f])| + 1
      ensures r.None? <==> old(ClusterOf(fs.g.size, fs.chains[f], offset)).None? && NoFree(old(fs.fat.tab))
      ensures r.None? ==> fs.chains == old(fs.chains)
      ensures r.Some? ==> r == ClusterOf(fs.g.size, fs.chains[f], offset)
    {
      hide Holds, IsChain, Links, BytesOf, ChainsOk, InfoOk, CeilDiv, OnDisk, InChain, CursorOk, FreeCount;
      Facts();
      ghost var m, s := fs.g.size, fs.chains[f];
      r := NextCluster();
      if r.Some? {
        return;
      }
      CursorEnd(m, s, size, offset, current, first);
      r := fs.AllocCluster(current, f);
      if r.Some? {
        if first.None? {
          first := r;
        }
        CursorGrown(m, s, r.value, size, offset, current);
        Facts();
        GrownBytes(fs.g, fs.disk, s, r.value, size);
      }
    }

    /** Write to the end of the buffer or of the cluster: fails exactly when a cluster is needed and none is free. */
    method Write(buf: seq<Byte>) returns (r: Option<nat>)
      requires Valid()
      modifies this, fs, fs.fat
      ensures Valid() && old(fs.chains[f]) <= fs.chains[f] && |fs.chains[f]| <= |old(fs.chains[f])| + 1
      ensures |buf| == 0 || old(ClusterOf(fs.g.size, fs.chains[f], offset)).Some? ==> fs.chains == old(fs.chains)
      ensures var n := Chunk(fs.g.size, old(offset), |buf|, 0xFFFF_FFFF - old(offset));
              && (r.None? <==>
                  n > 0 && old(ClusterOf(fs.g.size, fs.chains[f], offset)).None? && NoFree(old(fs.fat.tab)))
              && (r.Some? ==> r.value == n && Abs() == AfterWrite(old(Abs()), buf[..n]))
      ensures r.None? ==> Abs() == old(Abs()) && fs.chains == old(fs.chains)
      ensures OthersKept(fs.g, old(fs.disk), old(fs.chains), fs.disk, fs.chains, f)
    {
      hide Holds, IsChain, Links, BytesOf, ChainsOk, InfoOk, CeilDiv, OnDisk, InChain, CursorOk, FreeCount, Place,
          OthersKept, Overwrite;
      Facts();
      var m := fs.g.size;
      CursorLimits(m, fs.chains[f], size, offset, current, first);
      var n := Chunk(m, offset, |buf|, MAX_FILE_SIZE - offset);
      SameOthers(fs.g, fs.disk, fs.fat.tab, fs.chains, f);
      if n == 0 {
        NothingWritten(Abs(), buf);
        return Some(0);
      }
      var c := ClusterForWrite();
      Facts();
      CursorLimits(m, fs.chains[f], size, offset, current, first);
      SameOthers(fs.g, fs.disk, fs.fat.tab, fs.chains, f);
      OthersAgain(fs.g, fs.disk, old(fs.chains), fs.chains, f);
      if c.None? {
        return None;
      }
      Put(c.value, buf[..n]);
      r := Some(n);
    }

    /** Store bytes at the cursor, within one cluster, and move on. */
    method Put(c: nat, part: seq<Byte>)
      requires Valid() && |part| > 0 && ClusterOf(fs.g.size, fs.chains[f], offset) == Some(c)
      requires offset % fs.g.size + |part| <= fs.g.size && offset + |part| <= MAX_FILE_SIZE
      modifies this`offset, this`current, this`size, fs`disk
      ensures Valid() && Abs() == AfterWrite(old(Abs()), part)
      ensures OthersKept(fs.g, old(fs.disk), fs.chains, fs.disk, fs.chains, f)
    {
      hide Holds, IsChain, Links, BytesOf, ChainsOk, InfoOk, CeilDiv, OnDisk, InChain, CursorOk, FreeCount, Place,
          OthersKept, Overwrite;
      Facts();
      ghost var s := fs.chains[f];
      CursorLimits(fs.g.size, s, size, offset, current, first);
      PlaceFits(fs.g, fs.disk, s, offset, |part|);
      PatchOthers(fs.g, fs.disk, fs.fat.tab, fs.chains, f, offset, part);
      PatchedBytes(fs.g, fs.disk, s, fs.fat.tab, size, offset, part);
      fs.disk := Patch(fs.disk, Place(fs.g, c, offset % fs.g.size), part);
      offset := offset + |part|;
      current := Some(c);
      if offset > size {
        size := offset;
      }
      CursorMove(fs.g.size, s, size, old(offset), |part|, first);
      Facts();
    }

    /** Cut the file at the cursor. */
    method Truncate()
      requires Valid()
      modifies this, fs`info, fs`chains, fs.fat
      ensures Valid() && Abs() == Stream(old(Abs()).bytes[..old(offset)], old(offset))
      ensures fs.chains == old(fs.chains)[f := fs.chains[f]] && fs.chains[f] <= old(fs.chains)[f] &&
              |fs.chains[f]| == CeilDiv(offset, fs.g.size)
      ensures fs.info == AddFree(old(fs.info), |old(fs.chains)[f]| - |fs.chains[f]|)
    {
      hide Holds, IsChain, Links, BytesOf, ChainsOk, InfoOk, CeilDiv, OnDisk, InChain, FreeCount;
      Facts();
      ghost var m, s := fs.g.size, fs.chains[f];
      CeilBounds(offset, m);
      ghost var k := CeilDiv(offset, m);
      size := offset;
      if offset > 0 {
        fs.TruncateClusterChain(current.value, f, k - 1);
      } else if first.Some? {
        fs.FreeClusterChain(first.value, f);
        first := None;
        assert s[..0] == [];
      } else {
        assert s == s[..0];
      }
      Facts();
      CutBytes(fs.g, fs.disk, s, k, old(size), offset);
    }

    /** Move the cursor, no further than the end of the file; fails exactly for a negative position. */
    method Seek(p: SeekFrom) returns (r: Option<nat>)
      requires Valid() && (p.Start? ==> p.u < 0x1_0000_0000_0000_0000)
      requires p.Current? ==> -0x8000_0000_0000_0000 <= p.x && offset + p.x < 0x8000_0000_0000_0000
      requires p.End? ==> -0x8000_0000_0000_0000 <= p.x && size + p.x < 0x8000_0000_0000_0000
      modifies this`offset, this`current, fs.fat`pos
      ensures Valid()
      ensures var t := Target(old(Abs()), p);
              && (r.None? <==> t < 0)
              && (r.None? ==> Abs() == old(Abs()))
              && (r.Some? ==> r.value == (if t <= size then t else size) && Abs() == Stream(old(Abs()).bytes, r.value))
      ensures p.Start? ==> if p.u >= 0x8000_0000_0000_0000 then r.None? else r == Some(if p.u < size then p.u else size)
      ensures p.Current? && old(offset) + p.x >= 0 ==>
                r == Some(if old(offset) + p.x < size then old(offset) + p.x else size)
      ensures p.End? && size + p.x >= 0 ==> r == Some(if p.x < 0 then size + p.x else size)
      ensures (p.Current? && old(offset) + p.x < 0) || (p.End? && size + p.x < 0) ==> r.None?
    {
      hide Holds, IsChain, Links, BytesOf, ChainsOk, InfoOk, OnDisk, InChain, FreeCount, CeilDiv;
      Facts();
      var pos: int;
      match p {
        case Start(u) => pos := if u < 0x8000_0000_0000_0000 then u else u - 0x1_0000_0000_0000_0000;
        case Current(x) => pos := offset + x;
        case End(x) => pos := size + x;
      }
      if pos < 0 {
        return None;
      }
      if pos > size {
        pos := size;
      }
      if pos == offset {
        return Some(offset);
      }
      var m := fs.g.size;
      CursorSeek(m, fs.chains[f], size, pos);
      CeilBounds(offset, m);
      var count: int, was: int := CeilDiv(pos, m) - 1, CeilDiv(offset, m) - 1;
      var cluster: Option<nat>;
      if pos == 0 {
        cluster := None;
      } else if count == was {
        cluster := current;
      } else if first.None? {
        pos, cluster := 0, None;
      } else {
        cluster, pos := WalkTo(first.value, count, pos);
      }
      offset, current := pos, cluster;
      Facts();
      return Some(pos);
    }

    /** Follow the chain from its first cluster; where it ends early, the position is its end. */
    method WalkTo(start: nat, count: nat, pos: nat) returns (cluster: Option<nat>, pos': nat)
      requires Valid() && |fs.chains[f]| > 0 && start == fs.chains[f][0]
      modifies fs.fat`pos
      ensures count < |fs.chains[f]| ==> cluster == Some(fs.chains[f][count]) && pos' == pos
      ensures count >= |fs.chains[f]| ==> cluster == LastOf(fs.chains[f]) && pos' == |fs.chains[f]| * fs.g.size
    {
      hide Holds, IsChain, Links, BytesOf, ChainsOk, InfoOk, OnDisk, InChain, FreeCount, CursorOk, CeilDiv;
      Facts();
      PrevInTable(fs.fat.tab, fs.chains[f]);
      ghost var s := fs.chains[f];
      var c := start;
      pos' := pos;
      var iter := new ClusterIterator(fs.fat, start);
      for i := 0 to count
        invariant Valid() && iter.Valid() && iter.fat == fs.fat && iter.cluster == Some(c)
        invariant i < |s| && c == s[i] && pos' == pos
      {
        ChainNext(fs.fat.tab, s, i);
        var next := iter.Next();
        if next.None? {
          pos' := (i + 1) * fs.g.size;
          break;
        }
        c := next.value;
      }
      cluster := Some(c);
    }
  }

  ghost predicate NoFree(tab: Table) { forall k :: 2 <= k < |tab| ==> !tab[k].Free? }

  /** A cursor without a next cluster stands at the end of its chain. */
  lemma {:induction false} CursorEnd(m: nat, s: seq<nat>, size: nat, offset: nat, current: Option<nat>,
                                     first: Option<nat>)
    requires CursorOk(m, s, size, offset, current, first) && ClusterOf(m, s, offset).None?
    ensures current == LastOf(s) && first == (if |s| == 0 then None else Some(s[0]))
  {
    CursorAt(m, s, size, offset, current, first);
  }

  lemma {:induction false} CursorGrown(m: nat, s: seq<nat>, c: nat, size: nat, offset: nat, current: Option<nat>)
    requires CursorOk(m, s, size, offset, current, if |s| == 0 then None else Some(s[0])) &&
             ClusterOf(m, s, offset).None?
    ensures CursorOk(m, s + [c], size, offset, current, if |s| == 0 then Some(c) else Some(s[0]))
    ensures ClusterOf(m, s + [c], offset) == Some(c) && size <= |s| * m
  {
    CursorAt(m, s, size, offset, current, if |s| == 0 then None else Some(s[0]));
    MulStep(|s|, |s| + 1, m);
  }

  lemma {:induction false} GrownBytes(g: Geometry, disk: seq<Byte>, s: seq<nat>, c: nat, n: nat)
    requires OnDisk(g, disk, s) && OnDisk(g, disk, s + [c]) && n <= |s| * g.size && n <= |s + [c]| * g.size
    ensures BytesOf(g, disk, s + [c], n) == BytesOf(g, disk, s, n)
  {
    forall i: nat | i < n && InChain(g, s, i) && InChain(g, s + [c], i)
      ensures ByteAt(g, disk, s + [c], i) == ByteAt(g, disk, s, i)
    {
      DivFacts(i, g.size);
    }
    SameBytes(g, disk, disk, s, s + [c], n);
  }

  lemma {:induction false} NothingWritten(a: Stream, buf: seq<Byte>)
    requires a.at <= |a.bytes|
    ensures AfterWrite(a, buf[..0]) == a
  {
  }

  lemma {:induction false} SameOthers(g: Geometry, disk: seq<Byte>, tab: Table, chains: Chains, f: nat)
    requires ChainsOk(tab, chains) && g.size > 0 && |tab| >= 2 && g.base + (|tab| - 2) * g.size <= |disk|
    ensures OthersKept(g, disk, chains, disk, chains, f)
  {
    forall h | h in chains ensures OnDisk(g, disk, chains[h]) {
      ChainOnDisk(g, disk, tab, chains[h]);
    }
  }

  /** Others stay kept when only the chain of `f` has changed before. */
  lemma {:induction false} OthersAgain(g: Geometry, disk: seq<Byte>, chains: Chains, chains': Chains, f: nat)
    requires chains'.Keys == chains.Keys && forall h :: h in chains' && h != f ==> chains'[h] == chains[h]
    ensures forall disk' :: OthersKept(g, disk, chains', disk', chains', f) ==>
            OthersKept(g, disk, chains, disk', chains', f)
  {
  }

  lemma {:induction false} PatchOthers(g: Geometry, disk: seq<Byte>, tab: Table, chains: Chains, f: nat, off: nat,
                                       buf: seq<Byte>)
    requires ChainsOk(tab, chains) && f in chains && g.size > 0 && |tab| >= 2 && g.base + (|tab| - 2) * g.size <= |disk|
    requires InChain(g, chains[f], off) && off % g.size + |buf| <= g.size && off / g.size >= 0 &&
             chains[f][off / g.size] >= 2
    requires Place(g, chains[f][off / g.size], off % g.size) + |buf| <= |disk|
    ensures OthersKept(g, disk, chains, Patch(disk, Place(g, chains[f][off / g.size], off % g.size), buf), chains, f)
  {
    hide OnDisk, Place, IsChain, Links, ByteAt, Apart;
    var s := chains[f];
    var disk' := Patch(disk, Place(g, s[off / g.size], off % g.size), buf);
    ChainOnDisk(g, disk, tab, s);
    forall h | h in chains && h != f ensures SameOn(g, disk, disk', chains[h]) {
      ChainOnDisk(g, disk, tab, chains[h]);
      ChainOnDisk(g, disk', tab, chains[h]);
      forall i: nat | InChain(g, chains[h], i) ensures ByteAt(g, disk', chains[h], i) == ByteAt(g, disk, chains[h], i) {
        PatchOther(g, disk, s, off, buf, chains[h], i);
      }
    }
  }

  /** A write within one cluster overwrites the file's bytes, which may grow into the rest of the cluster. */
  lemma {:induction false} PatchedBytes(g: Geometry, disk: seq<Byte>, s: seq<nat>, tab: Table, size: nat, off: nat,
                                        buf: seq<Byte>)
    requires OnDisk(g, disk, s) && IsChain(tab, s) && size <= |s| * g.size && InChain(g, s, off) && off <= size
    requires off % g.size + |buf| <= g.size && off / g.size >= 0 && s[off / g.size] >= 2 && |buf| > 0
    requires Place(g, s[off / g.size], off % g.size) + |buf| <= |disk|
    ensures var disk' := Patch(disk, Place(g, s[off / g.size], off % g.size), buf);
            var size' := if off + |buf| > size then off + |buf| else size;
            && OnDisk(g, disk', s) && size' <= |s| * g.size
            && BytesOf(g, disk', s, size') == Overwrite(BytesOf(g, disk, s, size), off, buf)
  {
    hide OnDisk, Place, IsChain, Links, ByteAt, BytesOf;
    var disk' := Patch(disk, Place(g, s[off / g.size], off % g.size), buf);
    var size' := if off + |buf| > size then off + |buf| else size;
    NoDupChain(tab, s);
    PatchSelf(g, disk, s, off, buf, off);
    RestOfCluster(g, s, off, |buf|);
    var was, now := BytesOf(g, disk, s, size), BytesOf(g, disk', s, size');
    forall i | 0 <= i < size' ensures now[i] == if off <= i < off + |buf| then buf[i - off] else was[i] {
      PatchSelf(g, disk, s, off, buf, i);
    }
    assert now == Overwrite(was, off, buf);
  }

  lemma {:induction false} CutBytes(g: Geometry, disk: seq<Byte>, s: seq<nat>, k: nat, size: nat, n: nat)
    requires OnDisk(g, disk, s) && k <= |s| && OnDisk(g, disk, s[..k]) && n <= size <= |s| * g.size && n <= k * g.size
    ensures BytesOf(g, disk, s[..k], n) == BytesOf(g, disk, s, size)[..n]
  {
    hide OnDisk, Place;
    assert |s[..k]| == k;
    forall i | 0 <= i < n ensures BytesOf(g, disk, s[..k], n)[i] == BytesOf(g, disk, s, size)[i] {
      DivFacts(i, g.size);
    }
  }

  /** The clusters up to any position within the file are there. */
  lemma {:induction false} CursorSeek(m: nat, s: seq<nat>, size: nat, pos: nat)
    requires m > 0 && pos <= size <= |s| * m
    ensures CeilDiv(pos, m) <= |s| && (pos > 0 ==> CeilDiv(pos, m) > 0)
  {
    CeilBounds(pos, m);
    if CeilDiv(pos, m) > |s| { MulStep(|s|, CeilDiv(pos, m), m); }
  }

  lemma {:induction false} NoDupChain(tab: Table, s: seq<nat>)
    requires IsChain(tab, s)
    ensures NoDup(s)
  {
  }

  lemma {:induction false} RestOfCluster(g: Geometry, s: seq<nat>, off: nat, n: nat)
    requires InChain(g, s, off) && off % g.size + n <= g.size
    ensures off + n <= |s| * g.size
  {
    DivFacts(off, g.size);
    MulStep(off / g.size, |s|, g.size);
  }

  lemma {:induction false} CursorLimits(m: nat, s: seq<nat>, size: nat, offset: nat, current: Option<nat>,
                                        first: Option<nat>)
    requires CursorOk(m, s, size, offset, current, first)
    ensures m > 0 && offset <= size <= MAX_FILE_SIZE && size <= |s| * m &&
            first == (if |s| == 0 then None else Some(s[0]))
    ensures ClusterOf(m, s, offset).None? ==> offset == size
    ensures ClusterOf(m, s, offset).Some? ==> 0 <= offset / m < |s|
    ensures forall g: Geometry :: g.size == m && ClusterOf(m, s, offset).Some? ==> InChain(g, s, offset)
  {
    CursorAt(m, s, size, offset, current, first);
  }

  /** A stretch of the disk within one cluster is a stretch of the file. */
  lemma {:induction false} ReadCluster(g: Geometry, disk: seq<Byte>, s: seq<nat>, size: nat, off: nat, n: nat)
    requires OnDisk(g, disk, s) && size <= |s| * g.size && InChain(g, s, off) && off % g.size + n <= g.size &&
             off + n <= size
    requires off / g.size >= 0 && s[off / g.size] >= 2 && Place(g, s[off / g.size], off % g.size) + n <= |disk|
    ensures var p := Place(g, s[off / g.size], off % g.size);
            disk[p..p + n] == BytesOf(g, disk, s, size)[off..off + n]
  {
    var p := Place(g, s[off / g.size], off % g.size);
    forall k | p <= k < p + n ensures disk[k] == BytesOf(g, disk, s, size)[off + k - p] {
      SameCluster(off + k - p, off, n, g.size);
    }
  }
}

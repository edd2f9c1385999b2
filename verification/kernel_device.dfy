/** Data and tables on their way to the device: written through the block caches, and there once these have been
    flushed. */
module KernelDevice {
  import opened BlockCache
  import opened Basics
  import opened Bytes
  import opened KernelChain
  import opened KernelFs
  import opened KernelVfs
  import D = KernelData

  /** The write loop, each sector looked up in the cache, modified and let go. */
  method WriteThrough(cache: BlockCacheManager, g: D.Geometry, chain: seq<nat>, off: nat, buf: seq<Byte>)
    requires cache.Valid() && cache.NoHandles() && D.OnDisk(g, cache.disk, chain)
    requires |buf| > 0 && D.InChain(g, chain, off + |buf| - 1)
    modifies cache`queue, cache`disk, cache.dev`blocks, cache.queue
    ensures cache.Valid() && cache.NoHandles() && cache.disk == D.WriteSpec(g, old(cache.disk), chain, off, buf)
    ensures forall b :: b in cache.queue ==> b in old(cache.queue) || fresh(b)
  {
    hide D.WriteSpec, D.OnDisk, D.InChain, D.Piece, D.FirstSector;
    var n := 0;
    assert buf[0..] == buf;
    while n < |buf|
      invariant 0 <= n <= |buf| && cache.Valid() && cache.NoHandles() && D.OnDisk(g, cache.disk, chain)
      invariant forall b :: b in cache.queue ==> b in old(cache.queue) || fresh(b)
      invariant D.WriteSpec(g, cache.disk, chain, off + n, buf[n..]) == D.WriteSpec(g, old(cache.disk), chain, off, buf)
    {
      var cur := off + n;
      D.InChainDown(g, chain, cur, off + |buf| - 1);
      var sector := D.SectorOf(g, cache.disk, chain, cur);
      var piece := D.Piece(cur, |buf| - n);
      D.WriteStep(g, cache.disk, chain, cur, buf[n..], chain[cur / 512 / g.spc], sector);
      assert buf[n..][..piece] == buf[n..n + piece] && buf[n..][piece..] == buf[n + piece..];
      assert forall j :: 0 <= j < |cache.queue| ==> cache.queue[j] in cache.queue;
      cache.Patch(sector, cur % 512, buf[n..n + piece]);
      n := n + piece;
    }
    D.WriteDone(g, cache.disk, chain, off + n, buf[n..]);
  }

  /** Written and flushed: the device holds the bytes of the chain, overwritten where it was written to. */
  method WriteAndFlush(cache: BlockCacheManager, g: D.Geometry, chain: seq<nat>, off: nat, buf: seq<Byte>)
    requires cache.Valid() && cache.NoHandles() && D.OnDisk(g, cache.disk, chain) && NoDup(chain)
    requires |buf| > 0 && D.InChain(g, chain, off + |buf| - 1)
    modifies cache, cache.dev, cache.queue
    ensures cache.Valid() && cache.queue == [] && |cache.dev.blocks| == |old(cache.disk)|
    ensures D.OnDisk(g, cache.dev.blocks, chain) && off + |buf| <= |Cells(g, old(cache.disk), chain)|
    ensures Cells(g, cache.dev.blocks, chain) == Overwrite(Cells(g, old(cache.disk), chain), off, buf)
  {
    hide D.WriteSpec, D.OnDisk, D.InChain, Cells, Overwrite;
    WrittenCells(g, cache.disk, chain, off, buf);
    WriteThrough(cache, g, chain, off, buf);
    assert forall j :: 0 <= j < |cache.queue| ==> cache.queue[j] in cache.queue;
    cache.DropAll();
  }

  // ---------- tables ----------

  /** The first `n` words of a sector. */
  ghost function WordsOf(s: Sector, n: nat): (r: Words)
    requires n <= 128
    ensures |r| == n && forall w :: 0 <= w < n ==> r[w] == U32(s, 4 * w)
  {
    if n == 0 then [] else WordsOf(s, n - 1) + [U32(s, 4 * (n - 1))]
  }

  /** The metadata disk as words, which is how the manager sees it. */
  ghost function InfoOf(disk: seq<Sector>): (r: seq<Words>)
    ensures |r| == |disk| && forall i :: 0 <= i < |disk| ==> r[i] == WordsOf(disk[i], 128)
  {
    if |disk| == 0 then [] else InfoOf(disk[..|disk| - 1]) + [WordsOf(disk[|disk| - 1], 128)]
  }

  lemma {:induction false} SplicedWord(s: Sector, w: nat, bytes: seq<Byte>, k: nat)
    requires w < 128 && k < 128 && |bytes| == 4
    ensures U32(Splice(s, 4 * w, bytes), 4 * k) == if k == w then U32(bytes, 0) else U32(s, 4 * k)
  {
    var r := Splice(s, 4 * w, bytes);
    if k == w {
      assert r[4 * w] == bytes[0] && r[4 * w + 1] == bytes[1] && r[4 * w + 2] == bytes[2] && r[4 * w + 3] == bytes[3];
    } else {
      assert forall i :: 4 * k <= i < 4 * k + 4 ==> r[i] == s[i];
    }
  }

  lemma {:induction false} SplicedInfo(disk: seq<Sector>, s: nat, w: nat, bytes: seq<Byte>)
    requires s < |disk| && w < 128 && |bytes| == 4
    ensures InfoOf(disk[s := Splice(disk[s], 4 * w, bytes)]) == PutWord(InfoOf(disk), s, w, U32(bytes, 0))
  {
    hide U32, Splice, WordsOf, InfoOf;
    var row := Splice(disk[s], 4 * w, bytes);
    var now, want := InfoOf(disk[s := row]), PutWord(InfoOf(disk), s, w, U32(bytes, 0));
    forall k | 0 <= k < 128 ensures now[s][k] == want[s][k] { SplicedWord(disk[s], w, bytes, k); }
    assert now[s] == want[s];
  }

  /** Write one word of the metadata disk through its cache. */
  method WriteWord(cache: BlockCacheManager, s: nat, w: nat, v: nat)
    requires cache.Valid() && cache.NoHandles() && s < |cache.disk| && w < 128 && v < 0x1_0000_0000
    modifies cache`queue, cache`disk, cache.dev`blocks, cache.queue
    ensures cache.Valid() && cache.NoHandles() && InfoOf(cache.disk) == PutWord(InfoOf(old(cache.disk)), s, w, v)
    ensures forall b :: b in cache.queue ==> b in old(cache.queue) || fresh(b)
  {
    hide InfoOf, U32, Put32;
    var bytes := Put32(Zeros(4), 0, v);
    SplicedInfo(cache.disk, s, w, bytes);
    cache.Patch(s, 4 * w, bytes);
  }

  /** Read one. */
  method ReadWord(cache: BlockCacheManager, s: nat, w: nat) returns (v: nat)
    requires cache.Valid() && cache.NoHandles() && s < |cache.disk| && w < 128
    modifies cache`queue, cache.dev`blocks, cache.queue
    ensures cache.Valid() && cache.NoHandles() && cache.disk == old(cache.disk) && v == InfoOf(cache.disk)[s][w]
  {
    hide InfoOf, U32;
    assert |cache.queue| > 0 ==> cache.queue[0] in cache.queue;
    var h := cache.Get(s);
    v := U32(h.data, 4 * w);
    cache.Release(h);
  }

  /** Set an entry in both copies of the table through the cache: both hold the new table, and FSInfo is as it was. */
  method SetEntry(cache: BlockCacheManager, l: Layout, ghost fat: Table, c: nat, v: nat)
    requires cache.Valid() && cache.NoHandles() && Mirrors(l, InfoOf(cache.disk), fat)
    requires c < |fat| && v < 0x1_0000_0000
    modifies cache`queue, cache`disk, cache.dev`blocks, cache.queue
    ensures cache.Valid() && cache.NoHandles() && Mirrors(l, InfoOf(cache.disk), fat[c := v])
    ensures InfoOf(cache.disk)[l.infoSec] == InfoOf(old(cache.disk))[l.infoSec]
    ensures l.fat1 + l.sectors + 4 * c / 512 < |cache.disk| && 4 * c % 512 + 4 <= 512
    ensures U32(cache.disk[l.fat1 + 4 * c / 512], 4 * c % 512) == v
    ensures U32(cache.disk[l.fat1 + l.sectors + 4 * c / 512], 4 * c % 512) == v
    ensures forall b :: b in cache.queue ==> b in old(cache.queue) || fresh(b)
  {
    hide InfoOf, Copies, U32;
    EntryPlace(c);
    MirrorUpdate(l, InfoOf(cache.disk), fat, c, v);
    var (s1, s2, w) := Position(l, c);
    WriteWord(cache, s1, w, v);
    assert forall j :: 0 <= j < |cache.queue| ==> cache.queue[j] in cache.queue;
    WriteWord(cache, s2, w, v);
  }

  /** Set and flushed: both copies on the device hold the new table. */
  method SetEntryAndFlush(cache: BlockCacheManager, l: Layout, ghost fat: Table, c: nat, v: nat)
    requires cache.Valid() && cache.NoHandles() && Mirrors(l, InfoOf(cache.disk), fat)
    requires c < |fat| && v < 0x1_0000_0000
    modifies cache, cache.dev, cache.queue
    ensures cache.Valid() && cache.queue == [] && Mirrors(l, InfoOf(cache.dev.blocks), fat[c := v])
    ensures InfoOf(cache.dev.blocks)[l.infoSec] == InfoOf(old(cache.disk))[l.infoSec]
  {
    hide InfoOf, Copies;
    SetEntry(cache, l, fat, c, v);
    assert forall j :: 0 <= j < |cache.queue| ==> cache.queue[j] in cache.queue;
    cache.DropAll();
  }

  /** The place of an entry in words is its place in bytes. */
  lemma {:induction false} EntryPlace(c: nat)
    ensures c / 128 == 4 * c / 512 && 4 * (c % 128) == 4 * c % 512
  {
  }

  /** Store the number of free clusters where FSInfo has it. */
  method WriteFreeCount(cache: BlockCacheManager, l: Layout, v: nat)
    requires cache.Valid() && cache.NoHandles() && l.infoSec < |cache.disk| && v < 0x1_0000_0000
    modifies cache`queue, cache`disk, cache.dev`blocks, cache.queue
    ensures cache.Valid() && cache.NoHandles() && |cache.disk| == |old(cache.disk)|
    ensures U32(cache.disk[l.infoSec], 488) == v
    ensures U32(cache.disk[l.infoSec], 492) == U32(old(cache.disk)[l.infoSec], 492)
    ensures InfoOf(cache.disk)[l.infoSec] == InfoOf(old(cache.disk))[l.infoSec][FREE_COUNT := v]
  {
    hide InfoOf, U32;
    WriteWord(cache, l.infoSec, FREE_COUNT, v);
    assert InfoOf(cache.disk)[l.infoSec][122] == v;
    assert InfoOf(cache.disk)[l.infoSec][123] == InfoOf(old(cache.disk))[l.infoSec][123];
  }

  /** Store the hint where FSInfo has it. */
  method WriteHint(cache: BlockCacheManager, l: Layout, v: nat)
    requires cache.Valid() && cache.NoHandles() && l.infoSec < |cache.disk| && v < 0x1_0000_0000
    modifies cache`queue, cache`disk, cache.dev`blocks, cache.queue
    ensures cache.Valid() && cache.NoHandles() && |cache.disk| == |old(cache.disk)|
    ensures U32(cache.disk[l.infoSec], 492) == v
    ensures U32(cache.disk[l.infoSec], 488) == U32(old(cache.disk)[l.infoSec], 488)
    ensures InfoOf(cache.disk)[l.infoSec] == InfoOf(old(cache.disk))[l.infoSec][NEXT_FREE := v]
  {
    hide InfoOf, U32;
    WriteWord(cache, l.infoSec, NEXT_FREE, v);
    assert InfoOf(cache.disk)[l.infoSec][123] == v;
    assert InfoOf(cache.disk)[l.infoSec][122] == InfoOf(old(cache.disk))[l.infoSec][122];
  }
}

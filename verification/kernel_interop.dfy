/** The kernel's tables as the fatfs crate reads them, which is how the images it mounts are made: the same entries at
    the same bytes, the same marks, the same chains. */
module KernelInterop {
  import opened Arith
  import opened Bytes
  import opened BlockCache
  import opened KernelFs
  import opened KernelDevice
  import B = FatfsBytes
  import C = FatfsChain
  import D = KernelData
  import F = FatfsFile
  import G = FatfsFs
  import K = KernelChain
  import V = KernelVfs

  /** The sectors of a table one after another. */
  ghost function Flat(disk: seq<Sector>, first: nat, n: nat): (r: seq<Byte>)
    requires first + n <= |disk|
    ensures |r| == 512 * n
  {
    if n == 0 then [] else Flat(disk, first, n - 1) + disk[first + n - 1]
  }

  lemma {:induction false} FlatAt(disk: seq<Sector>, first: nat, n: nat, i: nat)
    requires first + n <= |disk| && i < 512 * n
    ensures Flat(disk, first, n)[i] == disk[first + i / 512][i % 512]
    decreases n
  {
    if i < 512 * (n - 1) { FlatAt(disk, first, n - 1, i); }
  }

  /** The word of an entry is the four bytes at its offset in the table. */
  lemma {:induction false} EntryInBytes(l: Layout, disk: seq<Sector>, first: nat, c: nat)
    requires first + l.sectors <= |disk| && c < 128 * l.sectors
    ensures first + c / 128 < |disk| && B.Fits(B.Fat32, Flat(disk, first, l.sectors), c)
    ensures U32(Flat(disk, first, l.sectors), 4 * c) == InfoOf(disk)[first + c / 128][c % 128]
  {
    hide Flat, InfoOf;
    var s, w := c / 128, c % 128;
    var flat := Flat(disk, first, l.sectors);
    ByteOfEntry(disk, first, l.sectors, c, 0);
    ByteOfEntry(disk, first, l.sectors, c, 1);
    ByteOfEntry(disk, first, l.sectors, c, 2);
    ByteOfEntry(disk, first, l.sectors, c, 3);
    assert U32(flat, 4 * c) == U32(disk[first + s], 4 * w);
  }

  lemma {:induction false} ByteOfEntry(disk: seq<Sector>, first: nat, n: nat, c: nat, j: nat)
    requires first + n <= |disk| && c < 128 * n && j < 4
    ensures first + c / 128 < |disk| && Flat(disk, first, n)[4 * c + j] == disk[first + c / 128][4 * (c % 128) + j]
  {
    hide Flat;
    DivUnique(4 * c + j, 512, c / 128, 4 * (c % 128) + j);
    FlatAt(disk, first, n, 4 * c + j);
  }

  /** An entry of the kernel's as a value of fatfs. */
  function ValueOf(c: nat, v: nat): B.FatValue { B.Decode(B.Fat32, c, v % 0x1000_0000) }

  function ValuesOf(fat: K.Table): (r: C.Table)
    ensures |r| == |fat| && forall c :: 0 <= c < |fat| ==> r[c] == ValueOf(c, fat[c])
  {
    if |fat| == 0 then [] else ValuesOf(fat[..|fat| - 1]) + [ValueOf(|fat| - 1, fat[|fat| - 1])]
  }

  /** Both of the kernel's tables, read by fatfs from their bytes, hold the values of the kernel's entries. */
  lemma {:induction false} TablesReadAlike(l: Layout, disk: seq<Sector>, fat: K.Table, c: nat)
    requires Mirrors(l, InfoOf(disk), fat) && c < |fat|
    ensures l.fat1 + 2 * l.sectors <= |disk|
    ensures var one, two := Flat(disk, l.fat1, l.sectors), Flat(disk, l.fat1 + l.sectors, l.sectors);
            && B.Fits(B.Fat32, one, c) && B.Fits(B.Fat32, two, c)
            && B.Decode(B.Fat32, c, B.Raw(B.Fat32, one, c)) == ValuesOf(fat)[c]
            && B.Decode(B.Fat32, c, B.Raw(B.Fat32, two, c)) == ValuesOf(fat)[c]
  {
    hide Flat, InfoOf, B.Decode, ValuesOf, U32;
    EntryInBytes(l, disk, l.fat1, c);
    EntryInBytes(l, disk, l.fat1 + l.sectors, c);
  }

  /** The kernel's marks mean the same to fatfs. */
  lemma {:induction false} MarksAgree(c: nat, v: nat)
    requires c < K.MAX_CLUSTER
    ensures ValueOf(c, v).EndOfChain? <==> K.IsEnd(v)
    ensures ValueOf(c, K.END).EndOfChain? && ValueOf(c, K.BAD).Bad? && ValueOf(c, K.FREE).Free?
    ensures 0 < v < K.MAX_CLUSTER ==> ValueOf(c, v) == B.Data(v) && K.NextOf(v) == v
    ensures ValueOf(c, v).Data? ==> ValueOf(c, v).n == K.NextOf(v)
    ensures v == K.BAD ==> K.NextOf(v) == 0
  {
  }

  /** Where the reserved bits are clear, the chains of the kernel are the chains of fatfs that do not end in a bad mark,
      which only fatfs takes for an end. */
  lemma {:induction false} ChainsAgree(fat: K.Table, s: seq<nat>)
    requires |fat| <= K.MAX_CLUSTER && forall c :: 0 <= c < |fat| ==> fat[c] < 0x1000_0000
    ensures K.IsChain(fat, s) <==>
            C.IsChain(ValuesOf(fat), s) && (|s| > 0 ==> !ValuesOf(fat)[s[|s| - 1]].Bad?)
  {
    hide B.Decode, ValuesOf;
    var tab := ValuesOf(fat);
    forall c | 0 <= c < |fat| ensures tab[c].EndOfChain? <==> K.IsEnd(fat[c]) {
      MarksAgree(c, fat[c]);
    }
    forall c, n: nat | 0 <= c < |fat| && 2 <= n < |fat| ensures fat[c] == n <==> tab[c] == B.Data(n) {
      MarksAgree(c, fat[c]);
    }
  }

  // ---------- bytes ----------

  /** The kernel's clusters in bytes. */
  function InBytes(g: D.Geometry): G.Geometry { G.Geometry(g.root * 512, g.spc * 512) }

  /** Byte `i` of a chain is the same byte of the disk to both. */
  lemma {:induction false} BytesAgree(g: D.Geometry, disk: seq<Sector>, s: seq<nat>, i: nat)
    requires D.OnDisk(g, disk, s) && D.InChain(g, s, i)
    ensures var flat := Flat(disk, 0, |disk|);
            && F.OnDisk(InBytes(g), flat, s) && F.InChain(InBytes(g), s, i)
            && F.ByteAt(InBytes(g), flat, s, i) == D.ByteAt(g, disk, s, i)
  {
    hide Flat;
    var flat := Flat(disk, 0, |disk|);
    forall j | 0 <= j < |s| ensures s[j] >= 2 && F.Place(InBytes(g), s[j], InBytes(g).size) <= |flat| {
      PlaceAgrees(g, s[j], g.spc, 0);
    }
    DivDiv(i, g.spc);
    var k, c := i / 512, s[i / 512 / g.spc];
    DivFacts(i, g.spc * 512);
    DivFacts(k, g.spc);
    var q, d := i / (g.spc * 512), k % g.spc;
    InsideCluster(i, g.spc);
    PlaceAgrees(g, c, d, i % 512);
    D.SectorOnDisk(g, disk, s, k);
    FlatAt(disk, 0, |disk|, F.Place(InBytes(g), c, d * 512 + i % 512));
  }

  /** Sector `d` of a cluster and byte `o` of it, in bytes. */
  lemma {:induction false} PlaceAgrees(g: D.Geometry, c: nat, d: nat, o: nat)
    requires c >= 2 && o < 512
    ensures F.Place(InBytes(g), c, d * 512 + o) == (D.FirstSector(g, c) + d) * 512 + o
    ensures F.Place(InBytes(g), c, d * 512 + o) / 512 == D.FirstSector(g, c) + d
    ensures F.Place(InBytes(g), c, d * 512 + o) % 512 == o
  {
    assert (c - 2) * (g.spc * 512) == ((c - 2) * g.spc) * 512;
    DivUnique((D.FirstSector(g, c) + d) * 512 + o, 512, D.FirstSector(g, c) + d, o);
  }

  lemma {:induction false} InsideCluster(i: nat, m: nat)
    requires m > 0
    ensures i % (m * 512) == (i / 512) % m * 512 + i % 512
  {
    DivFacts(i, 512);
    DivFacts(i / 512, m);
    var q: nat, d: nat, r: nat := i / 512 / m, i / 512 % m, i % 512;
    assert q * (m * 512) == (q * m) * 512;
    assert i == q * (m * 512) + (d * 512 + r);
    MulStep(d, m, 512);
    DivUnique(i, m * 512, q, d * 512 + r);
  }

  /** The kernel and fatfs see the same bytes in a file: what one has written the other reads. */
  lemma {:induction false} ContentsAgree(g: D.Geometry, disk: seq<Sector>, s: seq<nat>, n: nat)
    requires D.OnDisk(g, disk, s) && n <= |s| * (g.spc * 512)
    ensures var flat := Flat(disk, 0, |disk|);
            && F.OnDisk(InBytes(g), flat, s) && n <= |V.Cells(g, disk, s)|
            && F.BytesOf(InBytes(g), flat, s, n) == V.Cells(g, disk, s)[..n]
  {
    hide Flat, D.OnDisk, D.InChain, D.ByteAt, F.OnDisk, F.InChain, F.ByteAt, V.Cells;
    V.CellAt(g, disk, s, 0);
    FlatOnDisk(g, disk, s);
    var flat := Flat(disk, 0, |disk|);
    forall i | 0 <= i < n ensures F.BytesOf(InBytes(g), flat, s, n)[i] == V.Cells(g, disk, s)[..n][i] {
      V.CellAt(g, disk, s, i);
      BytesAgree(g, disk, s, i);
    }
  }

  lemma {:induction false} FlatOnDisk(g: D.Geometry, disk: seq<Sector>, s: seq<nat>)
    requires D.OnDisk(g, disk, s)
    ensures F.OnDisk(InBytes(g), Flat(disk, 0, |disk|), s)
  {
    hide Flat;
    forall j | 0 <= j < |s| ensures s[j] >= 2 && F.Place(InBytes(g), s[j], InBytes(g).size) <= 512 * |disk| {
      PlaceAgrees(g, s[j], g.spc, 0);
    }
  }
}

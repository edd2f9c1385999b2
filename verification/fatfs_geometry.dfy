/** Volume geometry: how large the tables are made, and that they have room for every cluster. */
module FatfsGeometry {
  import opened Arith
  import opened Basics
  import opened Bytes
  import opened FatfsBytes

  function BitsPerEntry(t: FatType): (b: nat)
    ensures b > 0
  {
    match t case Fat12 => 12 case Fat16 => 16 case Fat32 => 32
  }

  function FromClusters(clusters: nat): FatType {
    if clusters < 4085 then Fat12 else if clusters < 65525 then Fat16 else Fat32
  }

  predicate SectorSize(s: nat) { s in {512, 1024, 2048, 4096} }

  predicate ClusterSectors(c: nat) { c in {1, 2, 4, 8, 16, 32, 64, 128} }

  /** Table entries per cluster, and the table sectors a cluster costs. */
  function Divisor(bytes: nat, c: nat, t: FatType, fats: nat): (d: nat)
    requires fats > 0
    ensures d > 0
  {
    c * bytes * 8 / BitsPerEntry(t) + fats
  }

  /** Sectors of one table; the subtraction needs room for what lies outside tables and data. */
  function SectorsPerFat(total: nat, bytes: nat, c: nat, t: FatType, reserved: nat, root: nat, fats: nat): nat
    requires reserved + root <= total && fats > 0
  {
    CeilDiv(total - reserved - root + 2 * c, Divisor(bytes, c, t, fats))
  }

  /** Entries a table has room for. */
  function Entries(bytes: nat, t: FatType, spf: nat): nat { spf * (bytes * 8) / BitsPerEntry(t) }

  function ReservedSectors(t: FatType): nat { if t.Fat32? then 8 else 1 }

  // ---------- arithmetic ----------

  lemma {:induction false} Distribute(x: nat, y: nat, z: nat)
    ensures x * (y + z) == x * y + x * z && (y + z) * x == y * x + z * x
  {
  }

  lemma {:induction false} Rotate(x: nat, y: nat, z: nat)
    ensures x * y * z == x * (y * z) == y * (x * z) == y * z * x == x * z * y
  {
  }

  lemma {:induction false} Cancel(c: nat, x: nat, y: nat)
    requires c > 0 && x * c <= y * c
    ensures x <= y
  {
    if x > y { MulStep(y, x, c); }
  }

  /** Clusters and table size, in units of table entries per `c` sectors: there is room, but never for a whole table
      sector more than needed and three clusters. */
  lemma {:induction false} Balance(space: nat, c: nat, q: nat, fats: nat, f: nat, clusters: nat)
    requires c > 0 && 1 <= fats <= 2 && f == CeilDiv(space + 2 * c, q + fats)
    requires fats * f <= space && clusters == (space - fats * f) / c
    ensures (clusters + 2) * c <= f * q
    ensures f > 0 && (f - 1) * q <= (clusters + 3) * c
  {
    CeilBounds(space + 2 * c, q + fats);
    DivFacts(space - fats * f, c);
    Distribute(f, q, fats);
    Distribute(c, clusters, 2);
    Distribute(c, clusters, 3);
    assert f * (q + fats) == f * q + fats * f;
    Distribute(q, f - 1, 1);
  }

  /** From units of `c` sectors to single entries. */
  lemma {:induction false} PerEntry(c: nat, k: nat, b: nat, f: nat, n: nat)
    requires c > 0 && b > 0 && n * c <= f * (c * k / b)
    ensures n * b <= f * k
  {
    var q := c * k / b;
    DivFacts(c * k, b);
    MulStep(n * c, f * q, b);
    MulStep(q * b, c * k, f);
    Rotate(n, c, b);
    Rotate(f, q, b);
    Rotate(c, k, f);
    Rotate(f, k, c);
    Cancel(c, n * b, f * k);
  }

  /** Where nine sectors are left for tables and data, the tables leave some to data. */
  lemma {:induction false} LeavesData(space: nat, c: nat, q: nat, fats: nat, f: nat)
    requires space >= 9 && c > 0 && 1 <= fats <= 2 && q >= 128 * c && f == CeilDiv(space + 2 * c, q + fats)
    ensures fats * f < space
  {
    hide CeilDiv;
    CeilBounds(space + 2 * c, q + fats);
    if f >= 5 {
      Distribute(q + fats, f - 1, 1);
      FewSectors(f - 1, c, q + fats, space);
    }
  }

  lemma {:induction false} FewSectors(n: nat, c: nat, m: nat, space: nat)
    requires n >= 4 && c > 0 && m >= 128 * c && n * m < space + 2 * c
    ensures 2 * n + 2 < space
  {
    MulStep(128 * c, m, n);
    MulStep(4, n, c);
    MulStep(1, c, n);
    Rotate(128, c, n);
  }

  /** Entries per cluster against entries per sector, which 12-bit entries do not fill. */
  lemma {:induction false} PerCluster(bytes: nat, c: nat, t: FatType)
    requires SectorSize(bytes) && c > 0
    ensures var q, e := c * bytes * 8 / BitsPerEntry(t), bytes * 8 / BitsPerEntry(t);
            q >= 128 * c && e >= 128 && q >= c * e && (t.Fat12? ==> e >= 341)
            && (!t.Fat12? ==> bytes * 8 == e * BitsPerEntry(t)) && bytes * 8 < (e + 1) * BitsPerEntry(t)
  {
    var b := BitsPerEntry(t);
    var e := bytes * 8 / b;
    PerSector(bytes, t);
    DivFacts(bytes * 8, b);
    Rotate(c, bytes, 8);
    MulStep(e * b, bytes * 8, c);
    Rotate(c, e, b);
    AtLeast(c * (bytes * 8), b, c * e);
    MulStep(128, e, c);
    Distribute(b, e, 1);
  }

  lemma {:induction false} PerSector(bytes: nat, t: FatType)
    requires SectorSize(bytes)
    ensures var e := bytes * 8 / BitsPerEntry(t);
            e >= 128 && (t.Fat12? ==> e >= 341) && (!t.Fat12? ==> bytes * 8 == e * BitsPerEntry(t))
  {
  }

  predicate Sound(bytes: nat, c: nat, fats: nat) { SectorSize(bytes) && ClusterSectors(c) && 1 <= fats <= 2 }

  /** Clusters left when the tables have been taken out. */
  function Clusters(total: nat, bytes: nat, c: nat, t: FatType, root: nat, fats: nat): nat
    requires Sound(bytes, c, fats) && total > ReservedSectors(t) + root + 8
  {
    var spf := SectorsPerFat(total, bytes, c, t, ReservedSectors(t), root, fats);
    PerCluster(bytes, c, t);
    LeavesData(total - ReservedSectors(t) - root, c, c * bytes * 8 / BitsPerEntry(t), fats, spf);
    (total - ReservedSectors(t) - root - spf * fats) / c
  }

  /** Reserved sectors and table size for one type, if the volume has a number of clusters that suits it. */
  function TryGeometry(total: nat, bytes: nat, c: nat, t: FatType, root: nat, fats: nat): Option<(nat, nat)>
    requires Sound(bytes, c, fats)
  {
    if total <= ReservedSectors(t) + root + 8 then None
    else
      var spf := SectorsPerFat(total, bytes, c, t, ReservedSectors(t), root, fats);
      var clusters := Clusters(total, bytes, c, t, root, fats);
      if t != FromClusters(clusters) || clusters > MaxClusters(t) then None else Some((ReservedSectors(t), spf))
  }

  /** A table that is accepted has room for every cluster and the two reserved entries, and for at most two sectors of
      entries more; and data follows it. */
  lemma {:induction false} GeometryFits(total: nat, bytes: nat, c: nat, t: FatType, root: nat, fats: nat)
    requires Sound(bytes, c, fats) && TryGeometry(total, bytes, c, t, root, fats).Some?
    ensures var (reserved, spf) := TryGeometry(total, bytes, c, t, root, fats).value;
            var clusters := Clusters(total, bytes, c, t, root, fats);
            && reserved == (if t.Fat32? then 8 else 1) && reserved + root + spf * fats < total && spf > 0
            && clusters == (total - reserved - root - spf * fats) / c
            && FromClusters(clusters) == t && clusters <= MaxClusters(t)
            && clusters + 2 <= Entries(bytes, t, spf) <= clusters + 2 + 2 * (bytes * 8 / BitsPerEntry(t))
  {
    hide CeilDiv;
    var space := total - ReservedSectors(t) - root;
    var q, e, b := c * bytes * 8 / BitsPerEntry(t), bytes * 8 / BitsPerEntry(t), BitsPerEntry(t);
    var spf := SectorsPerFat(total, bytes, c, t, ReservedSectors(t), root, fats);
    var clusters := Clusters(total, bytes, c, t, root, fats);
    PerCluster(bytes, c, t);
    LeavesData(space, c, q, fats, spf);
    Balance(space, c, q, fats, spf, clusters);
    Rotate(c, bytes, 8);
    PerEntry(c, bytes * 8, b, spf, clusters + 2);
    AtLeast(spf * (bytes * 8), b, clusters + 2);
    NotTooMany(c, q, e, spf, clusters);
    if t.Fat12? {
      Twelve(bytes, spf, e, clusters);
    } else {
      Wider(bytes, b, spf, e, clusters);
    }
  }

  /** The type that a number of clusters means, and how many each type may have. */
  lemma {:induction false} TypeByClusters(n: nat)
    ensures (FromClusters(n).Fat12? <==> n <= 4084) && (FromClusters(n).Fat32? <==> n >= 65525)
    ensures MaxClusters(Fat12) == 4084 && MaxClusters(Fat16) == 65524 && MaxClusters(Fat32) == 0x0FFF_FFF4
  {
  }

  /** Volumes with room for reserved sectors, root directory and nine sectors more are suited by a type exactly when the
      tables for it leave a number of clusters of that type. */
  lemma {:induction false} SuitsExactly(total: nat, bytes: nat, c: nat, t: FatType, root: nat, fats: nat)
    requires Sound(bytes, c, fats)
    ensures TryGeometry(total, bytes, c, t, root, fats).Some? <==>
              && total >= (if t.Fat32? then 17 else 10) + root
              && var n := Clusters(total, bytes, c, t, root, fats);
                 match t
                 case Fat12 => n <= 4084
                 case Fat16 => 4085 <= n <= 65524
                 case Fat32 => 65525 <= n <= 0x0FFF_FFF4
  {
    hide SectorsPerFat, Clusters;
  }

  /** A table that is accepted holds the entry of every cluster, as entries are read and written. */
  lemma {:induction false} TableHoldsAll(total: nat, bytes: nat, c: nat, t: FatType, root: nat, fats: nat, b: seq<Byte>,
                                         k: nat)
    requires Sound(bytes, c, fats) && TryGeometry(total, bytes, c, t, root, fats).Some?
    requires |b| == TryGeometry(total, bytes, c, t, root, fats).value.1 * bytes
    requires k < Clusters(total, bytes, c, t, root, fats) + 2
    ensures FatfsBytes.Fits(t, b, k)
  {
    hide TryGeometry, Clusters, CeilDiv;
    GeometryFits(total, bytes, c, t, root, fats);
    var spf := TryGeometry(total, bytes, c, t, root, fats).value.1;
    Rotate(spf, bytes, 8);
    EntriesFit(t, b, k, spf * (bytes * 8) / BitsPerEntry(t));
  }

  /** A table with room for `n` entries of so many bits has room for the word each of them is read from. */
  lemma {:induction false} EntriesFit(t: FatType, b: seq<Byte>, k: nat, n: nat)
    requires n <= |b| * 8 / BitsPerEntry(t) && k < n
    ensures FatfsBytes.Fits(t, b, k)
  {
  }

  lemma {:induction false} AtLeast(x: nat, b: nat, n: nat)
    requires b > 0 && n * b <= x
    ensures n <= x / b
  {
    DivFacts(x, b);
    if x / b < n { MulStep(x / b, n, b); }
  }

  lemma {:induction false} NotTooMany(c: nat, q: nat, e: nat, f: nat, clusters: nat)
    requires c > 0 && f > 0 && q >= c * e && (f - 1) * q <= (clusters + 3) * c
    ensures (f - 1) * e <= clusters + 3
  {
    MulStep(c * e, q, f - 1);
    Rotate(f - 1, e, c);
    Rotate(c, e, f - 1);
    Cancel(c, (f - 1) * e, clusters + 3);
  }

  lemma {:induction false} Wider(bytes: nat, b: nat, f: nat, e: nat, clusters: nat)
    requires b > 0 && f > 0 && e >= 128 && bytes * 8 == e * b && (f - 1) * e <= clusters + 3
    ensures f * (bytes * 8) / b <= clusters + 2 + 2 * e
  {
    Rotate(f, e, b);
    DivUnique(f * (bytes * 8), b, f * e, 0);
    Distribute(e, f - 1, 1);
  }

  lemma {:induction false} Twelve(bytes: nat, f: nat, e: nat, clusters: nat)
    requires f > 0 && e >= 341 && bytes * 8 < (e + 1) * 12 && (f - 1) * e <= clusters + 3 && clusters < 4085
    ensures f * (bytes * 8) / 12 <= clusters + 2 + 2 * e
  {
    if f > 12 { MulStep(12, f - 1, e); }
    MulStep(bytes * 8, (e + 1) * 12, f);
    Rotate(e + 1, 12, f);
    Distribute(f, e, 1);
    Distribute(e, f - 1, 1);
  }
}

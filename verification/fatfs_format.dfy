/** The boot sector of a new volume, and the checks it is later mounted with. */
module FatfsFormat {
  import opened Arith
  import opened Basics
  import opened Bytes
  import opened FatfsBytes
  import opened FatfsGeometry
  import Dyadic

  const KB: nat := 1024
  const MB: nat := 0x10_0000
  const GB: nat := 0x4000_0000

  /** The power of two an interval rounds up to. */
  lemma {:induction false} RoundsTo(n: nat, k: nat)
    ensures n <= Dyadic.Pow2(k) ==> Dyadic.NextPowerOfTwo(n) <= Dyadic.Pow2(k)
    ensures k > 0 && Dyadic.Pow2(k - 1) < n ==> Dyadic.NextPowerOfTwo(n) >= Dyadic.Pow2(k)
  {
    hide Dyadic.Pow2, Dyadic.NextPowerOfTwo;
    var j := Dyadic.NextPowerOfTwoIs(n);
    Dyadic.Pow2Mono(j, k);
    Dyadic.Pow2Mono(k, j);
    if k > 0 { Dyadic.Pow2Mono(j, k - 1); }
  }

  // ---------- cluster size ----------

  function EstimateFatType(totalBytes: nat): FatType {
    if totalBytes < 4 * MB then Fat12 else if totalBytes < 512 * MB then Fat16 else Fat32
  }

  function BytesPerCluster(totalBytes: nat, bytes: nat, t: Option<FatType>): nat {
    var kind := if t.Some? then t.value else EstimateFatType(totalBytes);
    var raw :=
      match kind
      case Fat12 => Dyadic.NextPowerOfTwo(totalBytes) / MB * 512
      case Fat16 =>
        if totalBytes <= 16 * MB then KB else if totalBytes <= 128 * MB then 2 * KB
        else Dyadic.NextPowerOfTwo(totalBytes) / (64 * MB) * KB
      case Fat32 =>
        if totalBytes <= 260 * MB then 512 else if totalBytes <= 8 * GB then 4 * KB
        else Dyadic.NextPowerOfTwo(totalBytes) / (2 * GB) * KB;
    var clamped := if raw < bytes then bytes else raw;
    if clamped < 32 * KB then clamped else 32 * KB
  }

  lemma {:induction false} Powers()
    ensures Dyadic.Pow2(20) == MB && Dyadic.Pow2(21) == 2 * MB && Dyadic.Pow2(22) == 4 * MB
    ensures Dyadic.Pow2(27) == 128 * MB && Dyadic.Pow2(28) == 256 * MB && Dyadic.Pow2(29) == 512 * MB
    ensures Dyadic.Pow2(33) == 8 * GB && Dyadic.Pow2(34) == 16 * GB && Dyadic.Pow2(35) == 32 * GB &&
            Dyadic.Pow2(36) == 64 * GB
  {
    assert Dyadic.Pow2(3) == 8 && Dyadic.Pow2(5) == 32;
    PowerSum(5, 5);
    PowerSum(10, 10);
    PowerSum(22, 5);
    PowerSum(28, 5);
  }

  lemma {:induction false} PowerSum(a: nat, b: nat)
    ensures Dyadic.Pow2(a + b) == Dyadic.Pow2(a) * Dyadic.Pow2(b)
    decreases b
  {
    if b > 0 {
      PowerSum(a, b - 1);
      Rotate(2, Dyadic.Pow2(a), Dyadic.Pow2(b - 1));
    }
  }

  /** Below 4 MB: clusters of 1, 2 or 4 sectors. */
  lemma {:induction false} SmallClusters(n: nat)
    requires n < 4 * MB
    ensures Dyadic.NextPowerOfTwo(n) / MB * 512 in {0, 512, 1024, 2048}
  {
    hide Dyadic.Pow2, Dyadic.NextPowerOfTwo;
    Powers();
    if n <= MB { RoundsTo(n, 20); } else if n <= 2 * MB { RoundsTo(n, 21); } else { RoundsTo(n, 22); }
  }

  /** Between 128 MB and 512 MB: of 8 or 16 sectors. */
  lemma {:induction false} MediumClusters(n: nat)
    requires 128 * MB < n < 512 * MB
    ensures Dyadic.NextPowerOfTwo(n) / (64 * MB) * KB in {4096, 8192}
  {
    hide Dyadic.Pow2, Dyadic.NextPowerOfTwo;
    Powers();
    if n <= 256 * MB { RoundsTo(n, 28); } else { RoundsTo(n, 29); }
  }

  /** Above 8 GB: of 16 or 32 sectors, then as large as clusters get. */
  lemma {:induction false} LargeClusters(n: nat)
    requires 8 * GB < n
    ensures var k := Dyadic.NextPowerOfTwo(n) / (2 * GB) * KB;
            if n <= 16 * GB then k == 8192 else if n <= 32 * GB then k == 16384 else k >= 32 * KB
  {
    hide Dyadic.Pow2, Dyadic.NextPowerOfTwo;
    Powers();
    if n <= 16 * GB { RoundsTo(n, 34); } else if n <= 32 * GB { RoundsTo(n, 35); } else { RoundsTo(n, 36); }
  }

  /** Where a size lies between two powers of two, the upper one is what it rounds up to. */
  lemma {:induction false} RoundsUpTo(n: nat, k: nat)
    requires k > 0 && Dyadic.Pow2(k - 1) < n <= Dyadic.Pow2(k)
    ensures Dyadic.NextPowerOfTwo(n) == Dyadic.Pow2(k)
  {
    RoundsTo(n, k);
  }

  /** The default cluster sizes as a table, for volumes of 512-byte sectors. */
  lemma {:induction false} ClusterSizeTable(n: nat)
    requires n < 0x200_0000_0000
    ensures BytesPerCluster(n, 512, None) ==
            if n <= MB then 512 else if n <= 2 * MB then 1024 else if n < 4 * MB then 2048
            else if n <= 16 * MB then 1024 else if n <= 128 * MB then 2048 else if n <= 256 * MB then 4096
            else if n < 512 * MB then 8192
            else if n <= 8 * GB then 4096 else if n <= 16 * GB then 8192 else if n <= 32 * GB then 16384 else 32768
    ensures KB == 1024 && MB == 1024 * 1024 && GB == 1024 * 1024 * 1024
  {
    hide Dyadic.Pow2, Dyadic.NextPowerOfTwo;
    Powers();
    if n < 4 * MB {
      if n <= MB { RoundsTo(n, 20); } else if n <= 2 * MB { RoundsUpTo(n, 21); } else { RoundsUpTo(n, 22); }
    } else if 128 * MB < n < 512 * MB {
      if n <= 256 * MB { RoundsUpTo(n, 28); } else { RoundsUpTo(n, 29); }
    } else if n > 8 * GB {
      LargeClusters(n);
    }
  }

  /** The same where the type is asked for. */
  lemma {:induction false} ClusterSizeFor(n: nat)
    requires n < 0x200_0000_0000
    ensures BytesPerCluster(n, 512, Some(Fat12)) ==
            if n <= MB then 512 else if n <= 2 * MB then 1024 else if n <= 4 * MB then 2048
            else if n <= 8 * MB then 4096 else if n <= 16 * MB then 8192 else if n <= 32 * MB then 16384 else 32768
    ensures BytesPerCluster(n, 512, Some(Fat16)) ==
            if n <= 16 * MB then 1024 else if n <= 128 * MB then 2048 else if n <= 256 * MB then 4096
            else if n <= 512 * MB then 8192 else if n <= GB then 16384 else 32768
    ensures BytesPerCluster(n, 512, Some(Fat32)) ==
            if n <= 260 * MB then 512 else if n <= 8 * GB then 4096 else if n <= 16 * GB then 8192
            else if n <= 32 * GB then 16384 else 32768
  {
    hide Dyadic.Pow2, Dyadic.NextPowerOfTwo;
    Powers();
    MorePowers();
    if n <= 16 * MB {
      if n <= MB { RoundsTo(n, 20); } else if n <= 2 * MB { RoundsUpTo(n, 21); }
      else if n <= 4 * MB { RoundsUpTo(n, 22); } else if n <= 8 * MB { RoundsUpTo(n, 23); } else { RoundsUpTo(n, 24); }
    } else if n <= 128 * MB {
      if n <= 32 * MB { RoundsUpTo(n, 25); } else { RoundsTo(n, 26); }
    } else if n <= GB {
      if n <= 256 * MB { RoundsUpTo(n, 28); } else if n <= 512 * MB { RoundsUpTo(n, 29); } else { RoundsUpTo(n, 30); }
    } else {
      RoundsTo(n, 31);
      if n > 8 * GB { LargeClusters(n); }
    }
  }

  lemma {:induction false} MorePowers()
    ensures Dyadic.Pow2(19) == MB / 2 && Dyadic.Pow2(23) == 8 * MB && Dyadic.Pow2(24) == 16 * MB
    ensures Dyadic.Pow2(25) == 32 * MB && Dyadic.Pow2(26) == 64 * MB
    ensures Dyadic.Pow2(30) == GB && Dyadic.Pow2(31) == 2 * GB
  {
    hide Dyadic.Pow2;
    Powers();
    PowerSum(22, 1);
    PowerSum(22, 2);
    PowerSum(22, 3);
    PowerSum(22, 4);
    PowerSum(29, 1);
    PowerSum(29, 2);
    PowerSum(19, 1);
    FourPowers();
  }

  lemma {:induction false} FourPowers()
    ensures Dyadic.Pow2(1) == 2 && Dyadic.Pow2(2) == 4 && Dyadic.Pow2(3) == 8 && Dyadic.Pow2(4) == 16
  {
  }

  /** With 512-byte sectors the cluster size is a power of two, and there are at most 2^26 clusters. */
  lemma {:induction false} DefaultClusters(total: nat)
    requires total < 0x1_0000_0000
    ensures var b := BytesPerCluster(total * 512, 512, None);
            b in {512, 1024, 2048, 4096, 8192, 16384, 32768} && b / 512 in {1, 2, 4, 8, 16, 32, 64} &&
                total <= 0x400_0000 * (b / 512)
  {
    hide Dyadic.NextPowerOfTwo;
    var n := total * 512;
    if n < 4 * MB {
      SmallClusters(n);
    } else if 128 * MB < n < 512 * MB {
      MediumClusters(n);
    } else if n > 8 * GB {
      LargeClusters(n);
    }
  }

  // ---------- the parameter block ----------

  datatype Bpb = Bpb(bytesPerSector: nat, sectorsPerCluster: nat, reservedSectors: nat, fats: nat, rootEntries: nat,
                     totalSectors16: nat, totalSectors32: nat, sectorsPerFat16: nat, sectorsPerFat32: nat,
                     fsVersion: nat,
                     fsInfoSector: nat, backupBootSector: nat)

  function IsFat32(b: Bpb): bool { b.sectorsPerFat16 == 0 }

  function SpfOf(b: Bpb): nat { if IsFat32(b) then b.sectorsPerFat32 else b.sectorsPerFat16 }

  function TotalSectors(b: Bpb): nat { if b.totalSectors16 == 0 then b.totalSectors32 else b.totalSectors16 }

  function FirstDataSector(b: Bpb): nat
    requires b.bytesPerSector > 0
  {
    b.reservedSectors + b.fats * SpfOf(b) + CeilDiv(b.rootEntries * 32, b.bytesPerSector)
  }

  function TotalClusters(b: Bpb): nat
    requires b.bytesPerSector > 0 && b.sectorsPerCluster > 0 && FirstDataSector(b) <= TotalSectors(b)
  {
    (TotalSectors(b) - FirstDataSector(b)) / b.sectorsPerCluster
  }

  predicate OneBit(n: nat) {
    n in {1, 2, 4, 8, 16, 32, 64, 128, 256, 512, 1024, 2048, 4096, 8192, 16384, 32768}
  }

  /** `Overflow` where a 32-bit operation of the checks would leave its range. */
  datatype Outcome = Accepted | Rejected | Overflow

  /** The checks made before a volume is mounted. */
  function Validate(b: Bpb): Outcome {
    if !OneBit(b.bytesPerSector) || b.bytesPerSector < 512 || b.bytesPerSector > 4096 then Rejected
    else if !OneBit(b.sectorsPerCluster) || b.sectorsPerCluster > 128 then Rejected
    else if b.reservedSectors < 1 || b.fats == 0 then Rejected
    else if (IsFat32(b) && b.rootEntries != 0) || (!IsFat32(b) && b.rootEntries == 0) then Rejected
    else if IsFat32(b) && b.totalSectors16 != 0 then Rejected
    else if (b.totalSectors16 == 0) == (b.totalSectors32 == 0) then Rejected
    else if IsFat32(b) && b.sectorsPerFat32 == 0 then Rejected
    else if b.fsVersion != 0 then Rejected
    else if FirstDataSector(b) >= 0x1_0000_0000 then Overflow
    else if TotalSectors(b) <= FirstDataSector(b) then Rejected
    else if IsFat32(b) && (b.backupBootSector >= b.reservedSectors || b.fsInfoSector >= b.reservedSectors) then Rejected
    else
      var clusters := TotalClusters(b);
      var t := FromClusters(clusters);
      if IsFat32(b) != t.Fat32? then Rejected
      else if t.Fat32? && clusters > 0x0FFF_FFFF then Rejected
      else if SpfOf(b) * b.bytesPerSector * 8 >= 0x1_0000_0000 then Overflow
      else if SpfOf(b) * b.bytesPerSector * 8 / BitsPerEntry(t) < 2 then Overflow
      else Accepted
  }

  /** Fields within their widths. */
  predicate InWidth(b: Bpb) {
    && b.bytesPerSector < 0x1_0000 && b.sectorsPerCluster < 0x100 && b.reservedSectors < 0x1_0000 && b.fats < 0x100
    && b.rootEntries < 0x1_0000 && b.totalSectors16 < 0x1_0000 && b.totalSectors32 < 0x1_0000_0000
    && b.sectorsPerFat16 < 0x1_0000 && b.sectorsPerFat32 < 0x1_0000_0000 && b.fsVersion < 0x1_0000
    && b.fsInfoSector < 0x1_0000 && b.backupBootSector < 0x1_0000
  }

  /** Sectors of one table, by whichever field gives it. */
  function TableSectors(b: Bpb): nat { if b.sectorsPerFat16 != 0 then b.sectorsPerFat16 else b.sectorsPerFat32 }

  /** Sectors of 512 to 4096 bytes and clusters of 1 to 128 sectors, both powers of two. */
  ghost predicate PowerSizes(b: Bpb) {
    && (exists j: nat :: 9 <= j <= 12 && b.bytesPerSector == Dyadic.Pow2(j))
    && (exists j: nat :: j <= 7 && b.sectorsPerCluster == Dyadic.Pow2(j))
  }

  /** A volume as the standard lays it out: reserved sectors, tables, root directory and data follow one another and
      fill it up, data being whole clusters and a rest. A 32-bit volume has no root directory of its own, FSInfo and its
      backup among its reserved sectors, and a number of clusters only a 32-bit table can count; any other volume has
      not. */
  ghost predicate LaidOut(b: Bpb, root: nat, clusters: nat, rest: nat) {
    && PowerSizes(b)
    && b.reservedSectors >= 1 && b.fats >= 1 && b.fsVersion == 0
    && 32 * b.rootEntries <= root * b.bytesPerSector
    && (root > 0 ==> (root - 1) * b.bytesPerSector < 32 * b.rootEntries)
    && (b.totalSectors16 != 0 || b.totalSectors32 != 0) && (b.totalSectors16 == 0 || b.totalSectors32 == 0)
    && b.totalSectors16 + b.totalSectors32 ==
         b.reservedSectors + b.fats * TableSectors(b) + root + clusters * b.sectorsPerCluster + rest
    && rest < b.sectorsPerCluster && clusters + rest > 0
    && if b.sectorsPerFat16 == 0 then
         && b.sectorsPerFat32 != 0 && b.rootEntries == 0 && b.totalSectors16 == 0
         && b.fsInfoSector < b.reservedSectors && b.backupBootSector < b.reservedSectors
         && 65525 <= clusters <= 0x0FFF_FFFF
       else b.rootEntries != 0 && clusters <= 65524
  }

  lemma {:induction false} OneBitIs(n: nat, lo: nat, hi: nat)
    requires lo <= hi <= 15
    ensures OneBit(n) && Dyadic.Pow2(lo) <= n <= Dyadic.Pow2(hi) <==>
            exists j: nat :: lo <= j <= hi && n == Dyadic.Pow2(j)
  {
    hide Dyadic.Pow2;
    SmallPowers();
    if OneBit(n) && Dyadic.Pow2(lo) <= n <= Dyadic.Pow2(hi) {
      var j := WhichPower(n);
      if j < lo { Dyadic.Pow2Mono(j, lo); }
      if j > hi { Dyadic.Pow2Mono(hi, j); }
    }
    forall j: nat | lo <= j <= hi && n == Dyadic.Pow2(j) ensures OneBit(n) && Dyadic.Pow2(lo) <= n <= Dyadic.Pow2(hi) {
      Dyadic.Pow2Mono(lo, j);
      Dyadic.Pow2Mono(j, hi);
    }
  }

  lemma {:induction false} SmallPowers()
    ensures Dyadic.Pow2(0) == 1 && Dyadic.Pow2(1) == 2 && Dyadic.Pow2(2) == 4 && Dyadic.Pow2(3) == 8
    ensures Dyadic.Pow2(4) == 16 && Dyadic.Pow2(5) == 32 && Dyadic.Pow2(6) == 64 && Dyadic.Pow2(7) == 128
    ensures Dyadic.Pow2(8) == 256 && Dyadic.Pow2(9) == 512 && Dyadic.Pow2(10) == 1024 && Dyadic.Pow2(11) == 2048
    ensures Dyadic.Pow2(12) == 4096 && Dyadic.Pow2(13) == 8192 && Dyadic.Pow2(14) == 16384 && Dyadic.Pow2(15) == 32768
  {
  }

  lemma {:induction false} WhichPower(n: nat) returns (j: nat)
    requires OneBit(n)
    ensures j <= 15 && n == Dyadic.Pow2(j)
  {
    hide Dyadic.Pow2;
    SmallPowers();
    j := if n == 1 then 0 else if n == 2 then 1 else if n == 4 then 2 else if n == 8 then 3 else if n == 16 then 4
         else if n == 32 then 5 else if n == 64 then 6 else if n == 128 then 7 else if n == 256 then 8
         else if n == 512 then 9 else if n == 1024 then 10 else if n == 2048 then 11 else if n == 4096 then 12
         else if n == 8192 then 13 else if n == 16384 then 14 else 15;
  }

  /** The sizes allowed are the powers of two in their ranges. */
  lemma {:induction false} SizesAllowed(b: Bpb)
    ensures PowerSizes(b) <==> OneBit(b.bytesPerSector) && 512 <= b.bytesPerSector <= 4096 &&
                               OneBit(b.sectorsPerCluster) && 1 <= b.sectorsPerCluster <= 128
    ensures OneBit(b.sectorsPerCluster) ==> b.sectorsPerCluster >= 1
  {
    hide Dyadic.Pow2, OneBit;
    SmallPowers();
    OneBitIs(b.bytesPerSector, 9, 12);
    OneBitIs(b.sectorsPerCluster, 0, 7);
    OneBitPositive(b.sectorsPerCluster);
    if j: nat :| j <= 7 && b.sectorsPerCluster == Dyadic.Pow2(j) { assert 0 <= j <= 7; }
  }

  lemma {:induction false} OneBitPositive(n: nat)
    ensures OneBit(n) ==> n >= 1
  {
  }

  /** What is accepted is laid out so. */
  lemma {:induction false} AcceptedIsLaidOut(b: Bpb)
    requires InWidth(b) && Validate(b) == Accepted
    ensures exists root: nat, clusters: nat, rest: nat :: LaidOut(b, root, clusters, rest)
    ensures TableSectors(b) * b.bytesPerSector * 8 < 0x1_0000_0000
  {
    hide CeilDiv, PowerSizes, OneBit;
    SizesAllowed(b);
    var root := CeilDiv(b.rootEntries * 32, b.bytesPerSector);
    CeilExact(b.rootEntries * 32, b.bytesPerSector, root);
    var data := TotalSectors(b) - FirstDataSector(b);
    DivFacts(data, b.sectorsPerCluster);
    if data / b.sectorsPerCluster == 0 { assert data % b.sectorsPerCluster > 0; }
    assert LaidOut(b, root, data / b.sectorsPerCluster, data % b.sectorsPerCluster);
  }

  /** The sizes computed from the fields are those of the layout. */
  lemma {:induction false} LaidOutSizes(b: Bpb, root: nat, clusters: nat, rest: nat)
    requires InWidth(b) && LaidOut(b, root, clusters, rest)
    ensures OneBit(b.bytesPerSector) && 512 <= b.bytesPerSector <= 4096
    ensures OneBit(b.sectorsPerCluster) && 0 < b.sectorsPerCluster <= 128
    ensures SpfOf(b) == TableSectors(b) > 0
    ensures FirstDataSector(b) < TotalSectors(b) < 0x1_0000_0000 && TotalClusters(b) == clusters
  {
    hide CeilDiv, PowerSizes, OneBit;
    SizesAllowed(b);
    CeilExact(b.rootEntries * 32, b.bytesPerSector, root);
    assert FirstDataSector(b) == b.reservedSectors + b.fats * TableSectors(b) + root;
    assert TotalSectors(b) == b.totalSectors16 + b.totalSectors32;
    DataIs(clusters, b.sectorsPerCluster, rest);
  }

  lemma {:induction false} DataIs(clusters: nat, c: nat, rest: nat)
    requires rest < c && clusters + rest > 0
    ensures clusters * c + rest > 0 && (clusters * c + rest) / c == clusters
  {
    DivUnique(clusters * c + rest, c, clusters, rest);
    if clusters > 0 { MulStep(1, clusters, c); }
  }

  /** And what is laid out so is accepted, unless the bits of a table cannot be counted in 32 bits. */
  lemma {:induction false} LaidOutIsAccepted(b: Bpb, root: nat, clusters: nat, rest: nat)
    requires InWidth(b) && LaidOut(b, root, clusters, rest)
    ensures Validate(b) == if TableSectors(b) * b.bytesPerSector * 8 < 0x1_0000_0000 then Accepted else Overflow
  {
    hide TotalSectors, TotalClusters, FirstDataSector, TableSectors, SpfOf, OneBit, PowerSizes;
    LaidOutSizes(b, root, clusters, rest);
    EnoughEntries(TableSectors(b), b.bytesPerSector, FromClusters(clusters));
  }

  lemma {:induction false} EnoughEntries(spf: nat, bytes: nat, t: FatType)
    requires spf > 0 && bytes >= 512
    ensures spf * bytes * 8 / BitsPerEntry(t) >= 2
  {
    MulStep(1, spf, bytes);
  }

  /** A parameter block is accepted exactly when it describes a volume laid out as the standard says, with tables whose
      bits can be counted in 32 bits. */
  lemma {:induction false} AcceptedExactly(b: Bpb)
    requires InWidth(b)
    ensures Validate(b) == Accepted <==>
            && (exists root: nat, clusters: nat, rest: nat :: LaidOut(b, root, clusters, rest))
            && TableSectors(b) * b.bytesPerSector * 8 < 0x1_0000_0000
  {
    hide Validate, LaidOut;
    if Validate(b) == Accepted { AcceptedIsLaidOut(b); }
    if root: nat, clusters: nat, rest: nat :| LaidOut(b, root, clusters, rest) {
      LaidOutIsAccepted(b, root, clusters, rest);
    }
  }

  /** More reserved sectors on an equally larger volume change nothing. */
  lemma {:induction false} ReservedSectorsShift(b: Bpb, k: nat)
    requires InWidth(b) && b.sectorsPerFat16 == 0 && Validate(b) == Accepted
    requires b.reservedSectors + k < 0x1_0000 && b.totalSectors32 + k < 0x1_0000_0000
    ensures Validate(b.(reservedSectors := b.reservedSectors + k, totalSectors32 := b.totalSectors32 + k)) == Accepted
  {
    hide Validate, Dyadic.Pow2;
    AcceptedIsLaidOut(b);
    var root: nat, clusters: nat, rest: nat :| LaidOut(b, root, clusters, rest);
    LaidOutIsAccepted(b.(reservedSectors := b.reservedSectors + k, totalSectors32 := b.totalSectors32 + k), root,
                      clusters, rest);
  }

  /** On 12- and 16-bit volumes no check can leave 32 bits. */
  lemma {:induction false} NarrowNeverOverflows(b: Bpb)
    requires InWidth(b) && b.sectorsPerFat16 != 0
    ensures Validate(b) != Overflow
  {
    hide CeilDiv;
    if OneBit(b.bytesPerSector) && 512 <= b.bytesPerSector <= 4096 {
      CeilWithin(b.rootEntries * 32, 0x1000, b.bytesPerSector) by { MulStep(512, b.bytesPerSector, 0x1000); }
      MulStep(b.fats, 255, b.sectorsPerFat16);
      MulStep(b.bytesPerSector, 4096, b.sectorsPerFat16);
      forall t: FatType { EnoughEntries(b.sectorsPerFat16, b.bytesPerSector, t); }
    }
  }

  // ---------- formatting ----------

  function RootDirSectors(entries: nat, bytes: nat, t: FatType): nat
    requires bytes > 0
  {
    if t.Fat32? then 0 else CeilDiv(entries * 32, bytes)
  }

  /** The widest type that suits the number of clusters. */
  function DetermineGeometry(total: nat, bytes: nat, c: nat, entries: nat, fats: nat): Option<(FatType, nat, nat)>
    requires Sound(bytes, c, fats)
  {
    var g32 := TryGeometry(total, bytes, c, Fat32, RootDirSectors(entries, bytes, Fat32), fats);
    var g16 := TryGeometry(total, bytes, c, Fat16, RootDirSectors(entries, bytes, Fat16), fats);
    var g12 := TryGeometry(total, bytes, c, Fat12, RootDirSectors(entries, bytes, Fat12), fats);
    if g32.Some? then Some((Fat32, g32.value.0, g32.value.1))
    else if g16.Some? then Some((Fat16, g16.value.0, g16.value.1))
    else if g12.Some? then Some((Fat12, g12.value.0, g12.value.1))
    else None
  }

  /** A type suits the volume: with its root directory taken out, the tables leave a number of clusters of that type. */
  predicate Suits(total: nat, bytes: nat, c: nat, entries: nat, fats: nat, t: FatType)
    requires Sound(bytes, c, fats)
  {
    TryGeometry(total, bytes, c, t, if t.Fat32? then 0 else CeilDiv(entries * 32, bytes), fats).Some?
  }

  /** The type chosen suits, no wider one does, and there is one exactly when any suits. */
  lemma {:induction false} WidestSuits(total: nat, bytes: nat, c: nat, entries: nat, fats: nat)
    requires Sound(bytes, c, fats)
    ensures var g := DetermineGeometry(total, bytes, c, entries, fats);
            && (g.Some? <==> exists t :: Suits(total, bytes, c, entries, fats, t))
            && (g.Some? ==> Suits(total, bytes, c, entries, fats, g.value.0) &&
                            Some((g.value.1, g.value.2)) ==
                              TryGeometry(total, bytes, c, g.value.0, RootDirSectors(entries, bytes, g.value.0), fats))
            && (g.Some? && !g.value.0.Fat32? ==> !Suits(total, bytes, c, entries, fats, Fat32))
            && (g.Some? && g.value.0.Fat12? ==> !Suits(total, bytes, c, entries, fats, Fat16))
  {
    hide TryGeometry, CeilDiv;
    var g := DetermineGeometry(total, bytes, c, entries, fats);
    if g.Some? {
      assert Suits(total, bytes, c, entries, fats, g.value.0);
    } else {
      forall t ensures !Suits(total, bytes, c, entries, fats, t) { }
    }
  }

  /** The parameter block for a type and a table size. */
  function BlockFor(total: nat, bytes: nat, c: nat, entries: nat, fats: nat, t: FatType, reserved: nat, spf: nat): Bpb {
    Bpb(bytes, c, reserved, fats, if t.Fat32? then 0 else entries,
        if total < 0x1_0000 then total else 0, if total < 0x1_0000 then 0 else total,
        if t.Fat32? then 0 else spf % 0x1_0000, if t.Fat32? then spf else 0, 0,
        if t.Fat32? then 1 else 0, if t.Fat32? then 6 else 0)
  }

  /** Table sizes that a 16-bit or a 32-bit parameter block can hold. */
  lemma {:induction false} TableSizes(total: nat, c: nat, t: FatType, root: nat)
    requires Sound(512, c, 2) && total <= 0x400_0000 * c && TryGeometry(total, 512, c, t, root, 2).Some?
    ensures var spf := TryGeometry(total, 512, c, t, root, 2).value.1;
            && (!t.Fat32? ==> spf < 0x1_0000) && spf < 0x10_0000
            && (t.Fat32? ==> total >= 0x1_0000)
  {
    hide SectorsPerFat, Clusters;
    GeometryFits(total, 512, c, t, root, 2);
    var (reserved, spf) := TryGeometry(total, 512, c, t, root, 2).value;
    var clusters := Clusters(total, 512, c, t, root, 2);
    var space := total - reserved - root - spf * 2;
    DivFacts(space, c);
    if clusters > 0x400_0000 { MulStep(0x400_0000, clusters, c); }
    MulStep(1, c, clusters);
  }

  /** The sizes and the number of clusters a new parameter block stands for are those it was made for. */
  lemma {:induction false} BlockSizes(total: nat, c: nat, t: FatType)
    requires total < 0x1_0000_0000 && Sound(512, c, 2) && total <= 0x400_0000 * c
    requires TryGeometry(total, 512, c, t, RootDirSectors(512, 512, t), 2).Some?
    ensures var (reserved, spf) := TryGeometry(total, 512, c, t, RootDirSectors(512, 512, t), 2).value;
            var b := BlockFor(total, 512, c, 512, 2, t, reserved, spf);
            && SpfOf(b) == spf && IsFat32(b) == t.Fat32? && TotalSectors(b) == total && reserved == ReservedSectors(t)
            && 0 < spf < 0x10_0000 && (t.Fat32? ==> total >= 0x1_0000)
            && FirstDataSector(b) < total && FromClusters(TotalClusters(b)) == t && TotalClusters(b) <= MaxClusters(t)
            && spf * 512 * 8 / BitsPerEntry(t) >= 2
  {
    hide SectorsPerFat, Clusters, CeilDiv, FromClusters, MaxClusters, BlockFor, SpfOf, IsFat32, TotalSectors,
        FirstDataSector;
    var root := RootDirSectors(512, 512, t);
    GeometryFits(total, 512, c, t, root, 2);
    TableSizes(total, c, t, root);
    var (reserved, spf) := TryGeometry(total, 512, c, t, root, 2).value;
    BlockParts(total, c, t, reserved, spf);
    Rotate(spf, 512, 8);
  }

  lemma {:induction false} BlockParts(total: nat, c: nat, t: FatType, reserved: nat, spf: nat)
    requires 0 < spf && (!t.Fat32? ==> spf < 0x1_0000)
    ensures var b := BlockFor(total, 512, c, 512, 2, t, reserved, spf);
            && SpfOf(b) == spf && IsFat32(b) == t.Fat32? && TotalSectors(b) == total && b.sectorsPerCluster == c
            && b.bytesPerSector == 512 && FirstDataSector(b) == reserved + RootDirSectors(512, 512, t) + spf * 2
  {
    RootSize(t);
  }

  lemma {:induction false} BlockIsValid(total: nat, c: nat, t: FatType)
    requires total < 0x1_0000_0000 && Sound(512, c, 2) && total <= 0x400_0000 * c
    requires TryGeometry(total, 512, c, t, RootDirSectors(512, 512, t), 2).Some?
    ensures var (reserved, spf) := TryGeometry(total, 512, c, t, RootDirSectors(512, 512, t), 2).value;
            var b := BlockFor(total, 512, c, 512, 2, t, reserved, spf);
            && FirstDataSector(b) < TotalSectors(b) == total && FromClusters(TotalClusters(b)) == t
            && Validate(b) == Accepted
  {
    hide TryGeometry, FirstDataSector, TotalClusters, SpfOf, IsFat32, TotalSectors;
    BlockSizes(total, c, t);
  }

  lemma {:induction false} RootSize(t: FatType)
    ensures RootDirSectors(512, 512, t) == (if t.Fat32? then 0 else 32)
    ensures CeilDiv(0, 512) == 0 && CeilDiv(512 * 32, 512) == 32
  {
  }

  datatype BootSector = BootSector(bootjmp: seq<Byte>, bpb: Bpb, bootSig: seq<Byte>)

  /** The parameter block with default options. */
  function FormatBpb(total: nat): Option<(Bpb, FatType)>
    requires total < 0x1_0000_0000
  {
    DefaultClusters(total);
    BpbWith(total, BytesPerCluster(total * 512, 512, None) / 512)
  }

  function BpbWith(total: nat, c: nat): Option<(Bpb, FatType)>
    requires total < 0x1_0000_0000 && Sound(512, c, 2) && total <= 0x400_0000 * c
  {
    var g := DetermineGeometry(total, 512, c, 512, 2);
    if g.None? then None else
      var (t, reserved, spf) := g.value;
      BlockIsValid(total, c, t);
      var b := BlockFor(total, 512, c, 512, 2, t, reserved, spf);
      if FromClusters(TotalClusters(b)) != t then None else Some((b, t))
  }

  /** The boot sector with default options and 512-byte sectors. */
  function FormatBootSector(total: nat): Option<(BootSector, FatType)>
    requires total < 0x1_0000_0000
  {
    var r := FormatBpb(total);
    if r.None? then None
    else Some((BootSector([0xEB, if r.value.1.Fat32? then 0x58 else 0x3C, 0x90], r.value.0, [0x55, 0xAA]), r.value.1))
  }

  function ValidateBoot(b: BootSector): Outcome {
    if b.bootSig != [0x55, 0xAA] then Rejected else Validate(b.bpb)
  }

  /** The bytes that mark the sector, and the layout of the parameter block: what a boot sector is accepted by. */
  lemma {:induction false} BootAcceptedExactly(b: BootSector)
    requires InWidth(b.bpb)
    ensures ValidateBoot(b) == Accepted <==>
            && b.bootSig == [0x55, 0xAA]
            && (exists root: nat, clusters: nat, rest: nat :: LaidOut(b.bpb, root, clusters, rest))
            && TableSectors(b.bpb) * b.bpb.bytesPerSector * 8 < 0x1_0000_0000
  {
    hide Validate, LaidOut, InWidth;
    AcceptedExactly(b.bpb);
  }

  /** Every boot sector that formatting returns is accepted when it is mounted, and mounted as the type it was
      made for. */
  lemma {:induction false} FormattedIsValid(total: nat)
    requires total < 0x1_0000_0000 && FormatBootSector(total).Some?
    ensures var (boot, t) := FormatBootSector(total).value;
            ValidateBoot(boot) == Accepted && FirstDataSector(boot.bpb) <= TotalSectors(boot.bpb) == total
            && FromClusters(TotalClusters(boot.bpb)) == t
  {
    hide BytesPerCluster, TryGeometry, Validate, FirstDataSector;
    DefaultClusters(total);
    var c := BytesPerCluster(total * 512, 512, None) / 512;
    var (t, reserved, spf) := DetermineGeometry(total, 512, c, 512, 2).value;
    BlockIsValid(total, c, t);
  }

  /** What formatting writes: the whole volume in 512-byte sectors and default clusters, two tables, and the fields of
      the type, which is the widest that suits. */
  lemma {:induction false} FormattedFields(total: nat)
    requires total < 0x1_0000_0000 && FormatBootSector(total).Some?
    ensures var c := BytesPerCluster(total * 512, 512, None) / 512;
            var (boot, t) := FormatBootSector(total).value;
            var b := boot.bpb;
            && Sound(512, c, 2) && Suits(total, 512, c, 512, 2, t)
            && (!t.Fat32? ==> !Suits(total, 512, c, 512, 2, Fat32))
            && (t.Fat12? ==> !Suits(total, 512, c, 512, 2, Fat16))
            && b.bytesPerSector == 512 && b.sectorsPerCluster == c && b.fats == 2 && b.fsVersion == 0
            && b.totalSectors16 == (if total < 0x1_0000 then total else 0)
            && b.totalSectors32 == (if total < 0x1_0000 then 0 else total)
            && (if t.Fat32?
                then b.reservedSectors == 8 && b.rootEntries == 0 && b.fsInfoSector == 1 && b.backupBootSector == 6
                else b.reservedSectors == 1 && b.rootEntries == 512 && b.fsInfoSector == 0 && b.backupBootSector == 0)
            && boot.bootjmp == [0xEB, if t.Fat32? then 0x58 else 0x3C, 0x90] && boot.bootSig == [0x55, 0xAA]
  {
    hide BytesPerCluster, TryGeometry, Validate, FirstDataSector, Suits;
    DefaultClusters(total);
    var c := BytesPerCluster(total * 512, 512, None) / 512;
    WidestSuits(total, 512, c, 512, 2);
    var (t, reserved, spf) := DetermineGeometry(total, 512, c, 512, 2).value;
    BlockSizes(total, c, t);
  }

  /** The second check of the cluster count never fails: formatting fails only where no type suits the volume. */
  lemma {:induction false} FormatFailsOnlyOnGeometry(total: nat)
    requires total < 0x1_0000_0000
    ensures var c := BytesPerCluster(total * 512, 512, None) / 512;
            Sound(512, c, 2) && (FormatBootSector(total).None? <==> forall t :: !Suits(total, 512, c, 512, 2, t))
  {
    hide BytesPerCluster, TryGeometry, Validate, FirstDataSector, Suits;
    DefaultClusters(total);
    var c := BytesPerCluster(total * 512, 512, None) / 512;
    WidestSuits(total, 512, c, 512, 2);
    var g := DetermineGeometry(total, 512, c, 512, 2);
    if g.Some? { BlockIsValid(total, c, g.value.0); }
  }
}

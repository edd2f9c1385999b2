/** Entries of a file allocation table in its bytes, for the three widths. */
module FatfsBytes {
  import opened Bytes

  datatype FatType = Fat12 | Fat16 | Fat32

  datatype FatValue = Free | Data(n: nat) | Bad | EndOfChain

  // ---------- entries ----------

  function Offset(t: FatType, c: nat): nat {
    match t case Fat12 => c + c / 2 case Fat16 => 2 * c case Fat32 => 4 * c
  }

  /** The word an entry is read from and written to lies in the table. */
  predicate Fits(t: FatType, b: seq<Byte>, c: nat) {
    Offset(t, c) + (if t.Fat32? then 4 else 2) <= |b|
  }

  /** Number of values an entry can take. */
  function Range(t: FatType): nat {
    match t case Fat12 => 0x1000 case Fat16 => 0x1_0000 case Fat32 => 0x1000_0000
  }

  /** The mark for a bad cluster; marks for the end of a chain lie above it. */
  function BadMark(t: FatType): nat {
    match t case Fat12 => 0xFF7 case Fat16 => 0xFFF7 case Fat32 => 0x0FFF_FFF7
  }

  /** The bits of an entry, without the four reserved ones of a 32-bit entry. */
  function Raw(t: FatType, b: seq<Byte>, c: nat): (v: nat)
    requires Fits(t, b, c)
    ensures v < Range(t)
  {
    match t
    case Fat12 => if c % 2 == 0 then U16(b, c + c / 2) % 0x1000 else U16(b, c + c / 2) / 16
    case Fat16 => U16(b, 2 * c)
    case Fat32 => U32(b, 4 * c) % 0x1000_0000
  }

  /** Where the standard puts an entry: two 12-bit entries in three bytes, 16-bit and 32-bit entries one after another,
      low byte first. */
  lemma {:induction false} EntryBytes(t: FatType, b: seq<Byte>, c: nat)
    requires Fits(t, b, c)
    ensures t.Fat12? && c % 2 == 0 ==> var k := 3 * (c / 2); Raw(t, b, c) == b[k] as int + 256 * (b[k + 1] as int % 16)
    ensures t.Fat12? && c % 2 == 1 ==> var k := 3 * (c / 2); Raw(t, b, c) == b[k + 1] as int / 16 + 16 * b[k + 2] as int
    ensures t.Fat16? ==> Raw(t, b, c) == b[2 * c] as int + 256 * b[2 * c + 1] as int
    ensures t.Fat32? ==>
              Raw(t, b, c) == b[4 * c] as int + 256 * b[4 * c + 1] as int + 0x1_0000 * b[4 * c + 2] as int +
                              0x100_0000 * (b[4 * c + 3] as int % 16)
  {
    match t
    case Fat12 =>
      var k := 3 * (c / 2);
      if c % 2 == 0 {
        assert c + c / 2 == k;
        LowTwelveBits(b[k], b[k + 1]);
      } else {
        assert c + c / 2 == k + 1;
        HighTwelveBits(b[k + 1], b[k + 2]);
      }
    case Fat16 =>
    case Fat32 =>
      LowBits(b[4 * c], b[4 * c + 1], b[4 * c + 2], b[4 * c + 3]);
  }

  lemma {:induction false} LowTwelveBits(low: int, high: int)
    requires 0 <= low < 256 && 0 <= high < 256
    ensures (low + 256 * high) % 0x1000 == low + 256 * (high % 16)
  {
    assert low + 256 * high == 0x1000 * (high / 16) + (low + 256 * (high % 16));
  }

  lemma {:induction false} HighTwelveBits(low: int, high: int)
    requires 0 <= low < 256 && 0 <= high < 256
    ensures (low + 256 * high) / 16 == low / 16 + 16 * high
  {
    assert low + 256 * high == 16 * (low / 16 + 16 * high) + low % 16;
  }

  lemma {:induction false} LowBits(a: int, b: int, c: int, d: int)
    requires 0 <= a < 256 && 0 <= b < 256 && 0 <= c < 256 && 0 <= d < 256
    ensures (a + 256 * b + 0x1_0000 * (c + 256 * d)) % 0x1000_0000 ==
            a + 256 * b + 0x1_0000 * c + 0x100_0000 * (d % 16)
  {
    var low := a + 256 * b + 0x1_0000 * c + 0x100_0000 * (d % 16);
    assert a + 256 * b + 0x1_0000 * (c + 256 * d) == 0x1000_0000 * (d / 16) + low;
  }

  /** The four reserved bits. */
  function Reserved(b: seq<Byte>, c: nat): nat
    requires Fits(Fat32, b, c)
  {
    U32(b, 4 * c) / 0x1000_0000
  }

  /** The table after an entry has been overwritten: a 12-bit entry is merged into the word it shares with its
      neighbour, a 32-bit entry keeps its reserved bits. */
  function PutRaw(t: FatType, b: seq<Byte>, c: nat, v: nat): (r: seq<Byte>)
    requires Fits(t, b, c) && v < Range(t)
    ensures |r| == |b|
  {
    match t
    case Fat12 =>
      var w := U16(b, c + c / 2);
      Put16(b, c + c / 2, if c % 2 == 0 then w / 0x1000 * 0x1000 + v else w % 16 + v * 16)
    case Fat16 => Put16(b, 2 * c, v)
    case Fat32 => Put32(b, 4 * c, v + Reserved(b, c) * 0x1000_0000)
  }

  /** What merging a 12-bit value into a word leaves of it. */
  lemma {:induction false} Merged(w: nat, v: nat)
    requires w < 0x1_0000 && v < 0x1000
    ensures var even := w / 0x1000 * 0x1000 + v;
            even < 0x1_0000 && even / 0x1000 == w / 0x1000 && even % 0x1000 == v
    ensures var odd := w % 16 + v * 16;
            odd < 0x1_0000 && odd % 16 == w % 16 && odd / 16 == v
  {
  }

  lemma {:induction false} Put12(b: seq<Byte>, c: nat, v: nat, d: nat)
    requires Fits(Fat12, b, c) && Fits(Fat12, b, d) && v < 0x1000
    ensures Raw(Fat12, PutRaw(Fat12, b, c, v), d) == if d == c then v else Raw(Fat12, b, d)
  {
    hide U16, Put16;
    var w := U16(b, c + c / 2);
    var w' := if c % 2 == 0 then w / 0x1000 * 0x1000 + v else w % 16 + v * 16;
    Merged(w, v);
    if c % 2 == 0 && d == c + 1 {
      SharedHigh(b, c + c / 2, w');
    } else if c % 2 == 1 && d == c - 1 {
      SharedLow(b, d + d / 2, w');
    } else if d != c {
      Elsewhere(b, c + c / 2, w', d + d / 2);
    }
  }

  /** A word whose top four bits stay leaves the entry in the next word's upper bits. */
  lemma {:induction false} SharedHigh(b: seq<Byte>, i: nat, w: nat)
    requires i + 3 <= |b| && w < 0x1_0000 && w / 0x1000 == U16(b, i) / 0x1000
    ensures U16(Put16(b, i, w), i + 1) / 16 == U16(b, i + 1) / 16
  {
    var low: int, high: int, next: int := b[i], b[i + 1], b[i + 2];
    TopFour(low, high);
    TopFour(w % 256, w / 256);
    UpperBits(w / 256, next);
    UpperBits(high, next);
  }

  /** A word whose low four bits stay leaves the entry in the previous word's lower bits. */
  lemma {:induction false} SharedLow(b: seq<Byte>, i: nat, w: nat)
    requires i + 3 <= |b| && w < 0x1_0000 && w % 16 == U16(b, i + 1) % 16
    ensures U16(Put16(b, i + 1, w), i) % 0x1000 == U16(b, i) % 0x1000
  {
    var low: int, mid: int, high: int := b[i], b[i + 1], b[i + 2];
    LowFour(mid, high);
    LowFour(w % 256, w / 256);
    LowTwelve(low, mid);
    LowTwelve(low, w % 256);
  }

  lemma {:induction false} TopFour(low: nat, high: nat)
    requires low < 256 && high < 256
    ensures (low + 256 * high) / 0x1000 == high / 16
  {
    var q, r := high / 16, high % 16;
    assert low + 256 * high == 0x1000 * q + (low + 256 * r);
  }

  lemma {:induction false} UpperBits(low: nat, high: nat)
    requires low < 256
    ensures (low + 256 * high) / 16 == low / 16 + 16 * high
  {
    var q, r := low / 16, low % 16;
    assert low + 256 * high == 16 * (q + 16 * high) + r;
  }

  lemma {:induction false} LowFour(low: nat, high: nat)
    ensures (low + 256 * high) % 16 == low % 16
  {
    var q, r := low / 16, low % 16;
    assert low + 256 * high == 16 * (q + 16 * high) + r;
  }

  lemma {:induction false} LowTwelve(low: nat, mid: nat)
    requires low < 256 && mid < 256
    ensures (low + 256 * mid) % 0x1000 == low + 256 * (mid % 16)
  {
    var q, r := mid / 16, mid % 16;
    assert low + 256 * mid == 0x1000 * q + (low + 256 * r);
  }

  lemma {:induction false} Elsewhere(b: seq<Byte>, i: nat, w: nat, j: nat)
    requires i + 2 <= |b| && j + 2 <= |b| && w < 0x1_0000 && (j + 2 <= i || i + 2 <= j)
    ensures U16(Put16(b, i, w), j) == U16(b, j)
  {
  }

  lemma {:induction false} Put28(b: seq<Byte>, c: nat, v: nat, d: nat)
    requires Fits(Fat32, b, c) && Fits(Fat32, b, d) && v < 0x1000_0000
    ensures Raw(Fat32, PutRaw(Fat32, b, c, v), d) == if d == c then v else Raw(Fat32, b, d)
    ensures Reserved(PutRaw(Fat32, b, c, v), d) == Reserved(b, d)
  {
    hide U32, Put32;
    var res := U32(b, 4 * c) / 0x1000_0000;
    SplitWord(v, res);
    if d != c { Elsewhere32(b, 4 * c, v + res * 0x1000_0000, 4 * d); }
  }

  lemma {:induction false} SplitWord(v: nat, res: nat)
    requires v < 0x1000_0000
    ensures (v + res * 0x1000_0000) % 0x1000_0000 == v && (v + res * 0x1000_0000) / 0x1000_0000 == res
  {
  }

  lemma {:induction false} Elsewhere32(b: seq<Byte>, i: nat, w: nat, j: nat)
    requires i + 4 <= |b| && j + 4 <= |b| && w < 0x1_0000_0000 && (j + 4 <= i || i + 4 <= j)
    ensures U32(Put32(b, i, w), j) == U32(b, j)
  {
    hide Put32;
  }

  /** An overwritten entry reads back, and no other entry changes, not even one that shares a byte with it. */
  lemma {:induction false} PutThenRaw(t: FatType, b: seq<Byte>, c: nat, v: nat, d: nat)
    requires Fits(t, b, c) && Fits(t, b, d) && v < Range(t)
    ensures Raw(t, PutRaw(t, b, c, v), d) == if d == c then v else Raw(t, b, d)
    ensures t.Fat32? ==> Reserved(PutRaw(t, b, c, v), d) == Reserved(b, d)
  {
    match t
    case Fat12 => Put12(b, c, v, d);
    case Fat16 =>
    case Fat32 => Put28(b, c, v, d);
  }

  // ---------- values ----------

  /** Cluster numbers that are themselves marks of a 32-bit table. */
  predicate Special(t: FatType, c: nat) { t.Fat32? && 0x0FFF_FFF7 <= c <= 0x0FFF_FFFF }

  function Decode(t: FatType, c: nat, raw: nat): FatValue
    requires raw < Range(t)
  {
    if raw == BadMark(t) then Bad
    else if raw > BadMark(t) then EndOfChain
    else if Special(t, c) then Bad
    else if raw == 0 then Free
    else Data(raw)
  }

  function Encode(t: FatType, v: FatValue): nat {
    match v case Free => 0 case Bad => BadMark(t) case EndOfChain => Range(t) - 1 case Data(n) => n
  }

  predicate Encodable(t: FatType, v: FatValue) { v.Data? ==> v.n < Range(t) }

  /** What the marks of the standard mean, for each width: the end of a chain whatever the cluster; bad, free and links
      for every cluster whose number is no mark itself. */
  lemma {:induction false} MarksMean(t: FatType, c: nat, raw: nat)
    requires raw < Range(t)
    ensures t.Fat12? ==> (Decode(t, c, raw).EndOfChain? <==> 0xFF8 <= raw <= 0xFFF) && raw <= 0xFFF
    ensures t.Fat16? ==> (Decode(t, c, raw).EndOfChain? <==> 0xFFF8 <= raw <= 0xFFFF) && raw <= 0xFFFF
    ensures t.Fat32? ==> (Decode(t, c, raw).EndOfChain? <==> 0x0FFF_FFF8 <= raw <= 0x0FFF_FFFF) && raw <= 0x0FFF_FFFF
    ensures t.Fat12? ==> (Decode(t, c, raw).Bad? <==> raw == 0xFF7) && (Decode(t, c, raw).Free? <==> raw == 0)
    ensures t.Fat16? ==> (Decode(t, c, raw).Bad? <==> raw == 0xFFF7) && (Decode(t, c, raw).Free? <==> raw == 0)
    ensures t.Fat32? && !(0x0FFF_FFF7 <= c <= 0x0FFF_FFFF) ==>
              (Decode(t, c, raw).Bad? <==> raw == 0x0FFF_FFF7) && (Decode(t, c, raw).Free? <==> raw == 0)
    ensures t.Fat32? && 0x0FFF_FFF7 <= c <= 0x0FFF_FFFF ==> (Decode(t, c, raw).Bad? <==> raw <= 0x0FFF_FFF7)
    ensures Decode(t, c, raw).Data? ==> Decode(t, c, raw) == Data(raw)
  {
  }

  /** The marks that are written. */
  lemma {:induction false} MarksWritten(v: FatValue)
    ensures v.Free? ==> Encode(Fat12, v) == Encode(Fat16, v) == Encode(Fat32, v) == 0
    ensures v.Bad? ==> Encode(Fat12, v) == 0xFF7 && Encode(Fat16, v) == 0xFFF7 && Encode(Fat32, v) == 0x0FFF_FFF7
    ensures v.EndOfChain? ==> Encode(Fat12, v) == 0xFFF && Encode(Fat16, v) == 0xFFFF && Encode(Fat32, v) == 0x0FFF_FFFF
    ensures v.Data? ==> Encode(Fat12, v) == Encode(Fat16, v) == Encode(Fat32, v) == v.n
  {
  }

  /** A value reads back as written exactly when it is no link to a reserved number, and its cluster no special one. */
  lemma {:induction false} ValueRoundTrip(t: FatType, c: nat, v: FatValue)
    requires Encodable(t, v)
    ensures Decode(t, c, Encode(t, v)) == v <==>
            (v.Data? ==> 0 < v.n < BadMark(t)) && (Special(t, c) ==> v.Bad? || v.EndOfChain?)
  {
  }

  /** A link to 0xFF8 in a 12-bit table reads back as an end, a link to 0 as a free entry. */
  lemma {:induction false} ReservedLinkLost(c: nat)
    ensures Decode(Fat12, c, Encode(Fat12, Data(0xFF8))) == EndOfChain
    ensures Decode(Fat12, c, Encode(Fat12, Data(0))) == Free
  {
  }

  /** The largest number of clusters of each type, and so of table entries. */
  function MaxClusters(t: FatType): nat {
    match t case Fat12 => 4084 case Fat16 => 65524 case Fat32 => 0x0FFF_FFF4
  }

  /** On a volume within the limits of its type every cluster number can be a link. */
  lemma {:induction false} EveryClusterEncodes(t: FatType, total: nat, c: nat)
    requires total <= MaxClusters(t) && 0 < c < total + 2
    ensures !Special(t, c) && c < BadMark(t) && Decode(t, c, Encode(t, Data(c))) == Data(c)
  {
  }
}

/** The file allocation table as a stream of bytes: entry access, scans, allocation and the chain iterator. */
module FatfsTable {
  import opened Basics
  import opened Bytes
  import opened FatfsBytes
  import opened FatfsChain

  /** The bytes hold the values of the table, entry by entry. */
  ghost predicate Holds(t: FatType, b: seq<Byte>, tab: Table) {
    && 3 <= |tab| <= MaxClusters(t) + 2
    && (forall c :: 0 <= c < |tab| ==> Fits(t, b, c) && Decode(t, c, Raw(t, b, c)) == tab[c])
  }

  lemma {:induction false} HoldsAt(t: FatType, b: seq<Byte>, tab: Table, c: nat)
    requires Holds(t, b, tab) && c < |tab|
    ensures Fits(t, b, c) && !Special(t, c) && Decode(t, c, Raw(t, b, c)) == tab[c]
    ensures Raw(t, b, c) == 0 <==> tab[c].Free?
  {
  }

  /** Writing a value in the bytes is writing it in the table. */
  lemma {:induction false} HoldsPut(t: FatType, b: seq<Byte>, tab: Table, c: nat, v: FatValue)
    requires Holds(t, b, tab) && c < |tab| && (v.Data? ==> 0 < v.n < |tab|)
    ensures Fits(t, b, c) && Encode(t, v) < Range(t)
    ensures Holds(t, PutRaw(t, b, c, Encode(t, v)), tab[c := v])
  {
    hide Raw, PutRaw, Decode, Encode;
    ValueFits(t, tab, c, v);
    var b' := PutRaw(t, b, c, Encode(t, v));
    forall d | 0 <= d < |tab| ensures Fits(t, b', d) && Decode(t, d, Raw(t, b', d)) == tab[c := v][d] {
      PutThenRaw(t, b, c, Encode(t, v), d);
    }
  }

  lemma {:induction false} ValueFits(t: FatType, tab: Table, c: nat, v: FatValue)
    requires |tab| <= MaxClusters(t) + 2 && c < |tab| && (v.Data? ==> 0 < v.n < |tab|)
    ensures Encode(t, v) < Range(t) && Decode(t, c, Encode(t, v)) == v
  {
  }

  /** Dropping the low byte of a word and taking one more byte gives the next word. */
  lemma {:induction false} Shifted(b: seq<Byte>, i: nat)
    requires i + 3 <= |b|
    ensures U16(b, i) / 256 + b[i + 2] as int * 256 == U16(b, i + 1)
  {
    var low: int, high: int := b[i], b[i + 1];
    assert (low + 256 * high) / 256 == high;
  }

  class FatSlice {
    const t: FatType
    var bytes: seq<Byte>
    var pos: nat
    ghost var tab: Table

    constructor (t: FatType, bytes: seq<Byte>, ghost tab: Table)
      requires Holds(t, bytes, tab)
      ensures this.t == t && this.bytes == bytes && this.tab == tab
    {
      this.t := t;
      this.bytes := bytes;
      this.pos := 0;
      this.tab := tab;
    }

    ghost predicate Valid()
      reads this
    {
      Holds(t, bytes, tab)
    }

    // ---------- the stream ----------

    method Seek(p: nat)
      modifies this`pos
      ensures pos == p
    {
      pos := p;
    }

    method ReadU8() returns (v: nat)
      requires pos < |bytes|
      modifies this`pos
      ensures pos == old(pos) + 1 && v == bytes[pos - 1]
    {
      v := bytes[pos];
      pos := pos + 1;
    }

    method ReadU16() returns (v: nat)
      requires pos + 2 <= |bytes|
      modifies this`pos
      ensures pos == old(pos) + 2 && v == U16(bytes, pos - 2)
    {
      v := U16(bytes, pos);
      pos := pos + 2;
    }

    method ReadU32() returns (v: nat)
      requires pos + 4 <= |bytes|
      modifies this`pos
      ensures pos == old(pos) + 4 && v == U32(bytes, pos - 4)
    {
      v := U32(bytes, pos);
      pos := pos + 4;
    }

    method WriteU16(v: nat)
      requires pos + 2 <= |bytes| && v < 0x1_0000
      modifies this`bytes, this`pos
      ensures bytes == Put16(old(bytes), old(pos), v) && pos == old(pos) + 2
    {
      bytes := Put16(bytes, pos, v);
      pos := pos + 2;
    }

    method WriteU32(v: nat)
      requires pos + 4 <= |bytes| && v < 0x1_0000_0000
      modifies this`bytes, this`pos
      ensures bytes == Put32(old(bytes), old(pos), v) && pos == old(pos) + 4
    {
      bytes := Put32(bytes, pos, v);
      pos := pos + 4;
    }

    // ---------- entries ----------

    /** The entry's word: for a 32-bit table with its reserved bits. */
    method GetRaw(c: nat) returns (v: nat)
      requires Fits(t, bytes, c)
      modifies this`pos
      ensures t.Fat32? ==> v == U32(bytes, 4 * c)
      ensures !t.Fat32? ==> v == Raw(t, bytes, c)
      ensures v % Range(t) == Raw(t, bytes, c)
    {
      match t
      case Fat12 =>
        Seek(c + c / 2);
        var packed := ReadU16();
        v := if c % 2 == 0 then packed % 0x1000 else packed / 16;
      case Fat16 =>
        Seek(2 * c);
        v := ReadU16();
      case Fat32 =>
        Seek(4 * c);
        v := ReadU32();
    }

    method Get(c: nat) returns (v: FatValue)
      requires Valid() && c < |tab|
      modifies this`pos
      ensures v == tab[c] && Fits(t, bytes, c)
      ensures v.EndOfChain? <==>
                Raw(t, bytes, c) >= match t case Fat12 => 0xFF8 case Fat16 => 0xFFF8 case Fat32 => 0x0FFF_FFF8
      ensures v.Bad? <==>
                Raw(t, bytes, c) == match t case Fat12 => 0xFF7 case Fat16 => 0xFFF7 case Fat32 => 0x0FFF_FFF7
      ensures (v.Free? <==> Raw(t, bytes, c) == 0) && (v.Data? ==> v.n == Raw(t, bytes, c))
    {
      HoldsAt(t, bytes, tab, c);
      var raw := GetRaw(c);
      v := Decode(t, c, raw % Range(t));
    }

    method SetRaw(c: nat, v: nat)
      requires Fits(t, bytes, c) && v < Range(t)
      modifies this`bytes, this`pos
      ensures bytes == PutRaw(t, old(bytes), c, v)
    {
      match t
      case Fat12 =>
        Seek(c + c / 2);
        var packed := ReadU16();
        Seek(c + c / 2);
        WriteU16(if c % 2 == 0 then packed / 0x1000 * 0x1000 + v else packed % 16 + v * 16);
      case Fat16 =>
        Seek(2 * c);
        WriteU16(v);
      case Fat32 =>
        var word := GetRaw(c);
        Seek(4 * c);
        WriteU32(v + word / 0x1000_0000 * 0x1000_0000);
    }

    method Set(c: nat, v: FatValue)
      requires Valid() && c < |tab| && (v.Data? ==> 0 < v.n < |tab|)
      modifies this
      ensures Valid() && tab == old(tab)[c := v] && Fits(t, bytes, c)
      ensures Raw(t, bytes, c) ==
                match v
                case Free => 0
                case Bad => (match t case Fat12 => 0xFF7 case Fat16 => 0xFFF7 case Fat32 => 0x0FFF_FFF7)
                case EndOfChain => (match t case Fat12 => 0xFFF case Fat16 => 0xFFFF case Fat32 => 0x0FFF_FFFF)
                case Data(n) => n
    {
      HoldsPut(t, bytes, tab, c, v);
      PutThenRaw(t, bytes, c, Encode(t, v), c);
      SetRaw(c, Encode(t, v));
      tab := tab[c := v];
    }

    method GetNextCluster(c: nat) returns (n: Option<nat>)
      requires Valid() && c < |tab|
      modifies this`pos
      ensures n == NextOf(tab[c])
    {
      var v := Get(c);
      n := if v.Data? then Some(v.n) else None;
    }

    // ---------- scans ----------

    /** The first free entry of the range, or none where there is none. */
    ghost predicate Found(r: Option<nat>, start: nat, end: nat)
      requires start <= end <= |tab|
      reads this
    {
      match r
      case Some(c) => start <= c < end && tab[c].Free? && forall k :: start <= k < c ==> !tab[k].Free?
      case None => forall k :: start <= k < end ==> !tab[k].Free?
    }

    /** Two entries share three bytes: the word of an odd entry is put together from the word before it and one more
        byte. */
    method FindFree12(start: nat, end: nat) returns (r: Option<nat>)
      requires Valid() && t.Fat12? && start < end <= |tab|
      modifies this`pos
      ensures Found(r, start, end)
    {
      hide Holds, U16;
      var c := start;
      HoldsAt(t, bytes, tab, c);
      Seek(c + c / 2);
      var packed := ReadU16();
      while true
        invariant start <= c < end && Fits(t, bytes, c) && packed == U16(bytes, c + c / 2) && pos == c + c / 2 + 2
        invariant forall k :: start <= k < c ==> !tab[k].Free?
        decreases end - c
      {
        HoldsAt(t, bytes, tab, c);
        var v := if c % 2 == 0 then packed % 0x1000 else packed / 16;
        if v == 0 {
          return Some(c);
        }
        c := c + 1;
        if c == end {
          return None;
        }
        HoldsAt(t, bytes, tab, c);
        if c % 2 == 0 {
          packed := ReadU16();
        } else {
          Shifted(bytes, pos - 2);
          var next := ReadU8();
          packed := packed / 256 + next * 256;
        }
      }
    }

    method FindFree16(start: nat, end: nat) returns (r: Option<nat>)
      requires Valid() && t.Fat16? && start <= end <= |tab|
      modifies this`pos
      ensures Found(r, start, end)
    {
      hide Holds;
      var c := start;
      Seek(2 * c);
      while c < end
        invariant start <= c <= end && pos == 2 * c
        invariant forall k :: start <= k < c ==> !tab[k].Free?
      {
        HoldsAt(t, bytes, tab, c);
        var v := ReadU16();
        if v == 0 {
          return Some(c);
        }
        c := c + 1;
      }
      r := None;
    }

    method FindFree32(start: nat, end: nat) returns (r: Option<nat>)
      requires Valid() && t.Fat32? && start <= end <= |tab|
      modifies this`pos
      ensures Found(r, start, end)
    {
      hide Holds;
      var c := start;
      Seek(4 * c);
      while c < end
        invariant start <= c <= end && pos == 4 * c
        invariant forall k :: start <= k < c ==> !tab[k].Free?
      {
        HoldsAt(t, bytes, tab, c);
        var v := ReadU32();
        if v % 0x1000_0000 == 0 {
          return Some(c);
        }
        c := c + 1;
      }
      r := None;
    }

    method FindFree(start: nat, end: nat) returns (r: Option<nat>)
      requires Valid() && start < end <= |tab|
      modifies this`pos
      ensures Found(r, start, end)
    {
      match t
      case Fat12 => r := FindFree12(start, end);
      case Fat16 => r := FindFree16(start, end);
      case Fat32 => r := FindFree32(start, end);
    }

    /** The value of an odd entry is put together with its bits elsewhere, but it is zero for the same entries. */
    method CountFree12(end: nat) returns (n: nat)
      requires Valid() && t.Fat12? && 2 <= end <= |tab|
      modifies this`pos
      ensures n == FreeCount(tab, 2, end)
    {
      hide Holds;
      n := 0;
      var c := 2;
      Seek(c * 3 / 2);
      var prev := 0;
      while c < end
        invariant 2 <= c <= end && n == FreeCount(tab, 2, c)
        invariant if c % 2 == 0 then pos == c + c / 2
                  else pos == c + c / 2 + 1 && pos <= |bytes| && prev == U16(bytes, pos - 2)
      {
        HoldsAt(t, bytes, tab, c);
        var packed: nat;
        if c % 2 == 0 {
          packed := ReadU16();
        } else {
          packed := ReadU8();
        }
        var v := if c % 2 == 0 then packed % 0x1000 else packed * 256 + prev / 0x1000;
        prev := packed;
        if v == 0 {
          n := n + 1;
        }
        c := c + 1;
      }
    }

    method CountFree16(end: nat) returns (n: nat)
      requires Valid() && t.Fat16? && 2 <= end <= |tab|
      modifies this`pos
      ensures n == FreeCount(tab, 2, end)
    {
      hide Holds;
      n := 0;
      var c := 2;
      Seek(2 * c);
      while c < end
        invariant 2 <= c <= end && n == FreeCount(tab, 2, c) && pos == 2 * c
      {
        HoldsAt(t, bytes, tab, c);
        var v := ReadU16();
        if v == 0 {
          n := n + 1;
        }
        c := c + 1;
      }
    }

    method CountFree32(end: nat) returns (n: nat)
      requires Valid() && t.Fat32? && 2 <= end <= |tab|
      modifies this`pos
      ensures n == FreeCount(tab, 2, end)
    {
      hide Holds;
      n := 0;
      var c := 2;
      Seek(4 * c);
      while c < end
        invariant 2 <= c <= end && n == FreeCount(tab, 2, c) && pos == 4 * c
      {
        HoldsAt(t, bytes, tab, c);
        var v := ReadU32();
        if v % 0x1000_0000 == 0 {
          n := n + 1;
        }
        c := c + 1;
      }
    }

    method CountFree(total: nat) returns (n: nat)
      requires Valid() && |tab| == total + 2
      modifies this`pos
      ensures n == FreeCount(tab, 2, |tab|)
    {
      match t
      case Fat12 => n := CountFree12(total + 2);
      case Fat16 => n := CountFree16(total + 2);
      case Fat32 => n := CountFree32(total + 2);
    }

    // ---------- allocation ----------

    /** Take the first free cluster from the hint on, else the first one below it: `None` exactly when no cluster is
        free. */
    method AllocCluster(prev: Option<nat>, hint: Option<nat>, total: nat) returns (r: Option<nat>)
      requires Valid() && |tab| == total + 2
      requires (prev.Some? ==> prev.value < |tab|) && (hint.Some? ==> hint.value >= 2)
      modifies this
      ensures Valid()
      ensures r.None? <==> forall k :: 2 <= k < |old(tab)| ==> !old(tab)[k].Free?
      ensures r.None? ==> tab == old(tab) && bytes == old(bytes)
      ensures r.Some? ==>
              2 <= r.value < |old(tab)| && old(tab)[r.value].Free? && tab == Allocated(old(tab), prev, r.value)
      ensures r.Some? ==> Nearest(old(tab), if hint.Some? && hint.value < total + 2 then hint.value else 2, r.value)
    {
      hide Holds;
      AtLeastOne();
      var end := total + 2;
      var start := if hint.Some? && hint.value < end then hint.value else 2;
      r := FindFree(start, end);
      if r.None? && start > 2 {
        r := FindFree(2, start);
      }
      if r.Some? {
        Set(r.value, EndOfChain);
        if prev.Some? {
          Set(prev.value, Data(r.value));
        }
      }
    }

    lemma {:induction false} AtLeastOne()
      requires Valid()
      ensures |tab| >= 3
    {
    }
  }

  /** No entry from `start` on and, past the end, from 2 on is free before `c`. */
  ghost predicate Nearest(tab: Table, start: nat, c: nat) {
    if start <= c then forall k :: start <= k < c && k < |tab| ==> !tab[k].Free?
    else forall k :: 0 <= k < |tab| && (start <= k || 2 <= k < c) ==> !tab[k].Free?
  }

  // ---------- the iterator ----------

  class ClusterIterator {
    const fat: FatSlice
    var cluster: Option<nat>

    constructor (fat: FatSlice, cluster: nat)
      ensures this.fat == fat && this.cluster == Some(cluster)
    {
      this.fat := fat;
      this.cluster := Some(cluster);
    }

    ghost predicate Valid()
      reads this, fat
    {
      fat.Valid() && InRange(fat.tab) && (cluster.Some? ==> cluster.value < |fat.tab|)
    }

    method Next() returns (r: Option<nat>)
      requires Valid()
      modifies this, fat`pos
      ensures Valid() && r == cluster
      ensures cluster == if old(cluster).None? then None else NextOf(fat.tab[old(cluster).value])
    {
      if cluster.Some? {
        cluster := fat.GetNextCluster(cluster.value);
      }
      r := cluster;
    }

    /** Free every entry from here on; ends on cyclic tables too. */
    method Free() returns (n: nat)
      requires Valid()
      modifies this, fat
      ensures Valid() && cluster.None?
      ensures (fat.tab, n) == FreeFrom(old(fat.tab), old(cluster))
    {
      hide Holds;
      n := 0;
      ghost var want := FreeFrom(fat.tab, cluster);
      while cluster.Some?
        invariant Valid() && FreeFrom(fat.tab, cluster).0 == want.0 && n + FreeFrom(fat.tab, cluster).1 == want.1
        decreases Used(fat.tab), if cluster.Some? then 1 else 0
      {
        var c := cluster.value;
        FreeCountUpdate(fat.tab, 0, |fat.tab|, c, FatValue.Free);
        var _ := Next();
        fat.Set(c, FatValue.Free);
        n := n + 1;
      }
    }

    /** End the chain here and free what followed. */
    method Truncate() returns (n: nat)
      requires Valid()
      modifies this, fat
      ensures Valid() && cluster.None?
      ensures old(cluster).None? ==> n == 0 && fat.tab == old(fat.tab)
      ensures old(cluster).Some? ==> CutFrom(old(fat.tab), old(cluster).value) == (fat.tab, n)
    {
      hide Holds;
      if cluster.None? {
        return 0;
      }
      var c := cluster.value;
      var _ := Next();
      fat.Set(c, EndOfChain);
      n := Free();
    }
  }

  function CutFrom(tab: Table, c: nat): (r: (Table, nat))
    requires InRange(tab) && c < |tab|
    ensures |r.0| == |tab| && InRange(r.0)
  {
    FreeFrom(tab[c := EndOfChain], NextOf(tab[c]))
  }

  /** On a chain, truncating at its `k`-th cluster leaves the first `k + 1` and counts the others. */
  lemma {:induction false} CutsChain(tab: Table, s: seq<nat>, k: nat)
    requires InRange(tab) && IsChain(tab, s) && k < |s|
    ensures CutFrom(tab, s[k]).1 == |s| - k - 1
    ensures forall c :: 0 <= c < |tab| ==> CutFrom(tab, s[k]).0[c] == Cut(tab, s, k + 1, c)
  {
    var tab', t := tab[s[k] := EndOfChain], s[k + 1..];
    ChainNext(tab, s, k);
    assert forall i :: 0 <= i < |t| ==> t[i] == s[k + 1 + i];
    if |t| > 0 {
      assert IsChain(tab', t);
      FreesChain(tab', t);
    }
  }
}

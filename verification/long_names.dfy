/** Long file names: cut into directory entries by a generator, put together again by a builder. */
module LongNames {
  import opened Arith
  import opened Bits
  import opened Dyadic
  import opened Basics
  import opened Bytes

  /** A UTF-16 code unit. */
  type Unit = x: int | 0 <= x < 0x1_0000

  datatype LfnEntryData = LfnEntryData(order: Byte, name0: seq<Unit>, checksum: Byte, name1: seq<Unit>,
                                       name2: seq<Unit>)

  predicate Shaped(e: LfnEntryData) { |e.name0| == 5 && |e.name1| == 6 && |e.name2| == 2 }

  type LfnEntry = e: LfnEntryData | Shaped(e)
    witness LfnEntryData(0, [0, 0, 0, 0, 0], 0, [0, 0, 0, 0, 0, 0], [0, 0])

  function IsLast(e: LfnEntry): bool { e.order / 64 % 2 == 1 }

  function IndexOf(e: LfnEntry): nat { e.order % 32 }

  /** How the order byte is read: its second highest bit marks the last entry, its five lowest are the index. */
  lemma {:induction false} OrderRead(e: LfnEntry, bits: seq<bool>)
    requires |bits| == 8 && Value(bits) == e.order
    ensures IsLast(e) == bits[1] && IndexOf(e) == Value(bits[3..])
  {
    SmallPowers();
    assert bits == bits[..2] + bits[2..] && bits == bits[..3] + bits[3..] && bits[..2] == [bits[0]] + [bits[1]];
    ValueConcat(bits[..2], bits[2..]);
    ValueConcat(bits[..3], bits[3..]);
    ValueConcat([bits[0]], [bits[1]]);
    OneBitValue(bits[1]);
    DivUnique(e.order, 64, Value(bits[..2]), Value(bits[2..]));
    DivUnique(e.order, 32, Value(bits[..3]), Value(bits[3..]));
  }

  lemma {:induction false} OneBitValue(b: bool)
    ensures Value([b]) == if b then 1 else 0
  {
    assert [b][..0] == [];
  }

  lemma {:induction false} SmallPowers()
    ensures Pow2(1) == 2 && Pow2(5) == 32 && Pow2(6) == 64
  {
    assert Pow2(3) == 8;
  }

  function NameOf(e: LfnEntry): (s: seq<Unit>)
    ensures |s| == 13
  {
    e.name0 + e.name1 + e.name2
  }

  /** An entry that carries 13 units in its three fields. */
  function EntryOf(order: Byte, checksum: Byte, part: seq<Unit>): (e: LfnEntry)
    requires |part| == 13
    ensures NameOf(e) == part && e.order == order && e.checksum == checksum
  {
    LfnEntryData(order, part[0..5], checksum, part[5..11], part[11..13])
  }

  // ---------- runs of entries ----------

  /** The sequence ends in entries `k`, `k - 1`, ..., `i`: the first of them marked as last, all with one checksum. */
  ghost predicate EndsIn(h: seq<LfnEntry>, k: nat, i: nat)
    decreases |h|
  {
    && 1 <= i <= k && |h| > 0 && IndexOf(h[|h| - 1]) == i
    && if i == k then IsLast(h[|h| - 1])
       else !IsLast(h[|h| - 1]) && EndsIn(h[..|h| - 1], k, i + 1) && h[|h| - 2].checksum == h[|h| - 1].checksum
  }

  /** There is at most one such run. */
  lemma {:induction false} OneRun(h: seq<LfnEntry>, k: nat, i: nat, k': nat, i': nat)
    requires EndsIn(h, k, i) && EndsIn(h, k', i')
    ensures k == k' && i == i'
    decreases |h|
  {
    if i != k && i' != k' { OneRun(h[..|h| - 1], k, i + 1, k', i' + 1); }
  }

  /** The units that entries `i` to `k` of the run stand for. */
  ghost function Joined(h: seq<LfnEntry>, k: nat, i: nat): (s: seq<Unit>)
    requires EndsIn(h, k, i)
    ensures |s| == (k - i + 1) * 13
    decreases |h|
  {
    NameOf(h[|h| - 1]) + if i == k then [] else Joined(h[..|h| - 1], k, i + 1)
  }

  predicate Filler(u: Unit) { u == 0 || u == 0xFFFF }

  /** Without the zeros and 0xFFFF at the end. */
  function Strip(s: seq<Unit>): (r: seq<Unit>)
    ensures r <= s && (|r| > 0 ==> !Filler(r[|r| - 1])) && forall i :: |r| <= i < |s| ==> Filler(s[i])
  {
    if |s| > 0 && Filler(s[|s| - 1]) then Strip(s[..|s| - 1]) else s
  }

  ghost predicate Complete(h: seq<LfnEntry>) { exists k: nat :: EndsIn(h, k, 1) }

  /** The name a sequence of entries stands for: that of the complete run it ends in, if it does. */
  ghost function Decoded(h: seq<LfnEntry>): seq<Unit> {
    if Complete(h) then
      var k: nat :| EndsIn(h, k, 1);
      Strip(Joined(h, k, 1))
    else []
  }

  // ---------- the builder ----------

  /** What the buffer holds of a run down to entry `i`. */
  ghost predicate Gathered(h: seq<LfnEntry>, k: nat, i: nat, buf: seq<Unit>, chksum: Byte) {
    EndsIn(h, k, i) && k < 32 && |buf| == 13 * k && chksum == h[|h| - 1].checksum &&
        buf[13 * (i - 1)..] == Joined(h, k, i)
  }

  class LongNameBuilder {
    var buf: seq<Unit>
    var chksum: Byte
    var index: nat
    ghost var seen: seq<LfnEntry>
    ghost var top: nat

    constructor ()
      ensures Valid() && seen == []
    {
      buf, chksum, index := [], 0, 0;
      seen, top := [], 0;
    }

    /** The state is what the run the entries end in makes it, or empty if they end in none. */
    ghost predicate Valid()
      reads this
    {
      if index == 0 then buf == [] && forall k: nat, i: nat :: !EndsIn(seen, k, i)
      else Gathered(seen, top, index, buf, chksum)
    }

    method Clear()
      modifies this
      ensures Valid() && seen == []
    {
      buf, index := [], 0;
      seen := [];
    }

    /** Take one more entry, whatever it is. */
    method Process(e: LfnEntry)
      requires Valid()
      modifies this
      ensures Valid() && seen == old(seen) + [e]
    {
      hide Gathered, EndsIn;
      var idx := IndexOf(e);
      ghost var h := seen + [e];
      if idx == 0 {
        BadIndex(seen, e);
        buf, index := [], 0;
        seen := h;
        return;
      }
      if IsLast(e) {
        index := idx;
        chksum := e.checksum;
        buf := Resize(buf, 13 * idx);
        top := idx;
        StartRun(seen, e, Put(buf, 13 * (idx - 1), NameOf(e)));
      } else if index == 0 || idx != index - 1 || e.checksum != chksum {
        if index == 0 { NoRun(seen, e); } else { WrongNext(seen, top, index, buf, chksum, e); }
        buf, index := [], 0;
        seen := h;
        return;
      } else {
        GoOn(seen, top, index, buf, chksum, e);
        index := index - 1;
      }
      buf := Put(buf, 13 * (idx - 1), NameOf(e));
      seen := h;
    }

    method Truncate()
      modifies this`buf
      ensures buf == Strip(old(buf)) && buf <= old(buf)
      ensures |buf| > 0 ==> buf[|buf| - 1] != 0 && buf[|buf| - 1] != 0xFFFF
      ensures forall i :: |buf| <= i < |old(buf)| ==> old(buf)[i] == 0 || old(buf)[i] == 0xFFFF
    {
      var n := |buf|;
      while n > 0
        invariant 0 <= n <= |buf| && Strip(buf[..n]) == Strip(buf)
      {
        assert buf[..n][..n - 1] == buf[..n - 1];
        if !Filler(buf[n - 1]) {
          break;
        }
        n := n - 1;
      }
      buf := buf[..n];
    }

    /** The name: empty unless the entries end in a complete run, and then of that run alone. */
    method IntoVec() returns (name: seq<Unit>)
      requires Valid()
      modifies this
      ensures name == Decoded(old(seen))
    {
      if index == 1 {
        Finished(seen, top, buf, chksum);
        Truncate();
      } else if index != 0 {
        NotFinished(seen, top, index);
        Clear();
      }
      name := buf;
    }

    /** Drop everything where the entries do not belong to the short name that follows them. */
    method ValidateChksum(shortName: seq<Byte>)
      requires Valid() && |shortName| == 11
      modifies this
      ensures Valid()
      ensures seen == if old(index) != 0 && old(chksum) != LfnChecksum(shortName) then [] else old(seen)
      ensures Complete(old(seen)) && old(seen)[|old(seen)| - 1].checksum == LfnChecksum(shortName) ==> seen == old(seen)
      ensures Complete(seen) ==> |seen| > 0 && seen[|seen| - 1].checksum == LfnChecksum(shortName)
    {
      if index != 0 && LfnChecksum(shortName) != chksum {
        Clear();
      }
    }
  }

  /** Rotate right and add, byte by byte. */
  function LfnChecksum(s: seq<Byte>): Byte {
    if |s| == 0 then 0 else
      var c: nat, b: nat := LfnChecksum(s[..|s| - 1]), s[|s| - 1];
      (c % 2 * 128 + c / 2 + b) % 256
  }

  /** One more byte: the eight bits of the checksum so far are rotated right, and the byte is added. */
  lemma {:induction false} ChecksumStep(s: seq<Byte>, b: Byte, bits: seq<bool>)
    requires |bits| == 8 && Value(bits) == LfnChecksum(s)
    ensures LfnChecksum(s + [b]) == (Value(RotatedRight(bits)) + b as int) % 256 && LfnChecksum([]) == 0
  {
    hide RotatedRight;
    var t := s + [b];
    assert t[..|t| - 1] == s && t[|t| - 1] == b;
    RotatedValue(bits);
    assert Pow2(7) == 128 by { assert Pow2(3) == 8 && Pow2(5) == 32; }
  }

  /** Short names that differ in one byte have different checksums. */
  lemma {:induction false} ChecksumDetects(s: seq<Byte>, k: nat, x: Byte)
    requires k < |s| && x != s[k]
    ensures LfnChecksum(s[k := x]) != LfnChecksum(s)
    decreases |s|
  {
    var n, t := |s| - 1, s[k := x];
    var c: nat, b: nat, b': nat := LfnChecksum(s[..n]), s[n], t[n];
    if k == n {
      assert t[..n] == s[..n];
      SumsDiffer(b, b', c % 2 * 128 + c / 2, 256);
    } else {
      assert t[..n] == s[..n][k := x];
      ChecksumDetects(s[..n], k, x);
      RotateAddDiffers(c, LfnChecksum(t[..n]), b, 128);
    }
  }

  function Resize(buf: seq<Unit>, n: nat): (r: seq<Unit>)
    ensures |r| == n
    decreases n
  {
    if n <= |buf| then buf[..n] else Resize(buf, n - 1) + [0]
  }

  function Put(buf: seq<Unit>, p: nat, part: seq<Unit>): (r: seq<Unit>)
    requires p + |part| <= |buf|
    ensures |r| == |buf| && r[p..p + |part|] == part && r[..p] == buf[..p] && r[p + |part|..] == buf[p + |part|..]
  {
    buf[..p] + part + buf[p + |part|..]
  }

  lemma {:induction false} BadIndex(h: seq<LfnEntry>, e: LfnEntry)
    requires IndexOf(e) == 0
    ensures forall k: nat, i: nat :: !EndsIn(h + [e], k, i)
  {
  }

  lemma {:induction false} StartRun(h: seq<LfnEntry>, e: LfnEntry, buf: seq<Unit>)
    requires IsLast(e) && IndexOf(e) > 0 && |buf| == 13 * IndexOf(e)
    requires buf[13 * (IndexOf(e) - 1)..] == NameOf(e)
    ensures Gathered(h + [e], IndexOf(e), IndexOf(e), buf, e.checksum)
  {
  }

  /** An entry that is not marked as last only continues a run. */
  lemma {:induction false} Continues(h: seq<LfnEntry>, e: LfnEntry, k: nat, i: nat)
    requires EndsIn(h + [e], k, i) && !IsLast(e)
    ensures i == IndexOf(e) && EndsIn(h, k, i + 1) && |h| > 0 && e.checksum == h[|h| - 1].checksum
  {
    assert (h + [e])[..|h + [e]| - 1] == h;
  }

  lemma {:induction false} NoRun(h: seq<LfnEntry>, e: LfnEntry)
    requires !IsLast(e) && forall k: nat, i: nat :: !EndsIn(h, k, i)
    ensures forall k: nat, i: nat :: !EndsIn(h + [e], k, i)
  {
    hide EndsIn;
    forall k: nat, i: nat ensures !EndsIn(h + [e], k, i) {
      if EndsIn(h + [e], k, i) { Continues(h, e, k, i); }
    }
  }

  lemma {:induction false} WrongNext(h: seq<LfnEntry>, top: nat, index: nat, buf: seq<Unit>, chksum: Byte, e: LfnEntry)
    requires Gathered(h, top, index, buf, chksum) && !IsLast(e) && (IndexOf(e) != index - 1 || e.checksum != chksum)
    ensures forall k: nat, i: nat :: !EndsIn(h + [e], k, i)
  {
    hide EndsIn;
    forall k: nat, i: nat ensures !EndsIn(h + [e], k, i) {
      if EndsIn(h + [e], k, i) {
        Continues(h, e, k, i);
        OneRun(h, k, i + 1, top, index);
      }
    }
  }

  lemma {:induction false} GoOn(h: seq<LfnEntry>, k: nat, i: nat, buf: seq<Unit>, chksum: Byte, e: LfnEntry)
    requires Gathered(h, k, i, buf, chksum) && !IsLast(e) && IndexOf(e) == i - 1 > 0 && e.checksum == chksum
    ensures 13 * (i - 2) + 13 <= |buf|
    ensures Gathered(h + [e], k, i - 1, Put(buf, 13 * (i - 2), NameOf(e)), chksum)
  {
    var g, b := h + [e], Put(buf, 13 * (i - 2), NameOf(e));
    assert g[..|g| - 1] == h;
    assert b[13 * (i - 2)..] == NameOf(e) + buf[13 * (i - 1)..];
  }

  lemma {:induction false} Finished(h: seq<LfnEntry>, k: nat, buf: seq<Unit>, chksum: Byte)
    requires Gathered(h, k, 1, buf, chksum)
    ensures Decoded(h) == Strip(buf)
  {
    hide EndsIn;
    assert buf[0..] == buf;
    TheRun(h, k);
  }

  /** The run that is decoded is the one the entries end in. */
  lemma {:induction false} TheRun(h: seq<LfnEntry>, k: nat)
    requires EndsIn(h, k, 1)
    ensures Complete(h) && Decoded(h) == Strip(Joined(h, k, 1))
  {
    hide EndsIn, Strip, Joined;
    assert Complete(h);
    var k': nat :| EndsIn(h, k', 1) && Decoded(h) == Strip(Joined(h, k', 1));
    OneRun(h, k, 1, k', 1);
  }

  lemma {:induction false} Prepended(before: seq<LfnEntry>, run: seq<LfnEntry>, k: nat, i: nat)
    requires EndsIn(run, k, i)
    ensures EndsIn(before + run, k, i) && Joined(before + run, k, i) == Joined(run, k, i)
    decreases |run|
  {
    var h := before + run;
    assert h[|h| - 1] == run[|run| - 1];
    if i < k {
      assert h[..|h| - 1] == before + run[..|run| - 1];
      Prepended(before, run[..|run| - 1], k, i + 1);
    }
  }

  /** What is decoded depends on the complete run alone. */
  lemma {:induction false} RunAlone(before: seq<LfnEntry>, run: seq<LfnEntry>, k: nat)
    requires EndsIn(run, k, 1)
    ensures Decoded(before + run) == Decoded(run) == Strip(Joined(run, k, 1))
  {
    Prepended(before, run, k, 1);
    TheRun(before + run, k);
    TheRun(run, k);
  }

  lemma {:induction false} NotFinished(h: seq<LfnEntry>, k: nat, i: nat)
    requires EndsIn(h, k, i) && i > 1
    ensures !Complete(h)
  {
  }

  // ---------- the generator ----------

  /** Number of entries for a name. */
  function Parts(name: seq<Unit>): nat { (|name| + 12) / 13 }

  /** A part filled up with a zero and 0xFFFF. */
  function Fill(part: seq<Unit>): (full: seq<Unit>)
    requires |part| <= 13
    ensures |full| == 13 && part <= full && forall i :: |part| <= i < 13 ==> Filler(full[i])
  {
    if |part| == 13 then part else part + [0] + seq(12 - |part|, i => 0xFFFF)
  }

  /** The `j`-th 13 units of the name, from 0; the last may be fewer. */
  function PartAt(name: seq<Unit>, j: nat): (part: seq<Unit>)
    requires j < Parts(name)
    ensures 0 < |part| <= 13
  {
    name[13 * j..if 13 * j + 13 <= |name| then 13 * j + 13 else |name|]
  }

  function OrderOf(num: nat, t: nat): Byte
    requires t <= num
  {
    var order := (num - t) % 256;
    if t == 0 && order / 64 % 2 == 0 then order + 64 else order
  }

  class LfnEntriesGenerator {
    const name: seq<Unit>
    const checksum: Byte
    const num: nat
    var index: nat
    var left: nat
    var ended: bool
    ghost var made: seq<LfnEntry>

    constructor (name: seq<Unit>, checksum: Byte)
      ensures Valid() && made == [] && this.name == name && this.checksum == checksum
    {
      this.name := name;
      this.checksum := checksum;
      this.num := (|name| + 12) / 13;
      this.left := (|name| + 12) / 13;
      this.index := 0;
      this.ended := false;
      this.made := [];
    }

    /** The parts not yet made are the first ones; the entries made are those of the others, the last one first. */
    ghost predicate Valid()
      reads this
    {
      && num == Parts(name) && index + left == num && |made| == index && (ended ==> left == 0)
      && forall t :: 0 <= t < index ==> made[t] == MadeEntry(name, checksum, t)
    }

    method Next() returns (r: Option<LfnEntry>)
      requires Valid()
      modifies this
      ensures Valid() && made == old(made) + (if r.Some? then [r.value] else [])
      ensures r.None? <==> old(left) == 0
    {
      hide EntryOf, Fill, PartAt, OrderOf, Parts;
      if ended {
        return None;
      }
      if left == 0 {
        ended := true;
        return None;
      }
      left := left - 1;
      var part := PartAt(name, left);
      var order := OrderOf(num, index);
      r := Some(EntryOf(order, checksum, Fill(part)));
      index := index + 1;
      made := made + [r.value];
    }
  }

  /** The `t`-th entry made. */
  ghost function MadeEntry(name: seq<Unit>, checksum: Byte, t: nat): LfnEntry
    requires t < Parts(name)
  {
    EntryOf(OrderOf(Parts(name), t), checksum, Fill(PartAt(name, Parts(name) - t - 1)))
  }

  /** Every entry made, field by field: its number, with 0x40 added in the first, which holds the last part; the
      checksum; and 13 units of the name in fields of 5, 6 and 2, a zero behind its end and 0xFFFF behind that. */
  lemma {:induction false} EntryMade(name: seq<Unit>, checksum: Byte, t: nat, i: nat)
    requires |name| <= 31 * 13 && t < Parts(name) && i < 13
    ensures (|name| + 12) / 13 == Parts(name) <= 31
    ensures var e, n, j := MadeEntry(name, checksum, t), (|name| + 12) / 13, 13 * ((|name| + 12) / 13 - t - 1) + i;
            && e.order == (if t == 0 then 0x40 + n else n - t) && e.checksum == checksum
            && |e.name0| == 5 && |e.name1| == 6 && |e.name2| == 2
            && (if i < 5 then e.name0[i] else if i < 11 then e.name1[i - 5] else e.name2[i - 11]) ==
               (if j < |name| then name[j] else if j == |name| then 0 else 0xFFFF)
  {
    var k := Parts(name) - t - 1;
    assert PartAt(name, k)[..] == name[13 * k..if 13 * k + 13 <= |name| then 13 * k + 13 else |name|];
  }

  /** The first `n` entries made. */
  ghost function Made(name: seq<Unit>, checksum: Byte, n: nat): (h: seq<LfnEntry>)
    requires n <= Parts(name)
    ensures |h| == n && forall t :: 0 <= t < n ==> h[t] == MadeEntry(name, checksum, t)
  {
    if n == 0 then [] else Made(name, checksum, n - 1) + [MadeEntry(name, checksum, n - 1)]
  }

  // ---------- round trip ----------

  /** The name from its `j`-th part on. */
  function From(name: seq<Unit>, j: nat): seq<Unit> { if 13 * j <= |name| then name[13 * j..] else [] }

  /** The entries end in a run down to entry `i`, which stands for the rest of the name from its part on. */
  ghost predicate RunFor(h: seq<LfnEntry>, name: seq<Unit>, checksum: Byte, k: nat, i: nat) {
    EndsIn(h, k, i) && h[|h| - 1].checksum == checksum && Extends(From(name, i - 1), Joined(h, k, i))
  }

  lemma {:induction false} FirstMade(before: seq<LfnEntry>, name: seq<Unit>, checksum: Byte)
    requires 0 < Parts(name) < 32
    ensures RunFor(before + [MadeEntry(name, checksum, 0)], name, checksum, Parts(name), Parts(name))
  {
    hide Fill, EntryOf, OrderOf, Parts, PartAt;
    var k := Parts(name);
    var h := before + [MadeEntry(name, checksum, 0)];
    OrderFacts(k, 0);
    LastPart(name);
    assert h[|h| - 1] == MadeEntry(name, checksum, 0);
    assert Joined(h, k, k) == Fill(PartAt(name, k - 1));
  }

  lemma {:induction false} LastPart(name: seq<Unit>)
    requires Parts(name) > 0
    ensures PartAt(name, Parts(name) - 1) == From(name, Parts(name) - 1)
  {
  }

  lemma {:induction false} NextMade(h: seq<LfnEntry>, name: seq<Unit>, checksum: Byte, n: nat)
    requires 0 < n < Parts(name) < 32 && RunFor(h, name, checksum, Parts(name), Parts(name) - n + 1)
    ensures RunFor(h + [MadeEntry(name, checksum, n)], name, checksum, Parts(name), Parts(name) - n)
  {
    hide Fill, EntryOf, OrderOf, Parts, PartAt, From, Extends;
    var k := Parts(name);
    var e := MadeEntry(name, checksum, n);
    var g := h + [e];
    OrderFacts(k, n);
    InnerPart(name, k - n - 1);
    assert g[..|g| - 1] == h && g[|g| - 1] == e;
    JoinPart(PartAt(name, k - n - 1), From(name, k - n), Joined(h, k, k - n + 1));
  }

  lemma {:induction false} InnerPart(name: seq<Unit>, j: nat)
    requires j + 1 < Parts(name)
    ensures |PartAt(name, j)| == 13 && From(name, j) == PartAt(name, j) + From(name, j + 1)
  {
  }

  /** Behind whatever entries, those made so far form a run. */
  lemma {:induction false} MadeRun(before: seq<LfnEntry>, name: seq<Unit>, checksum: Byte, n: nat)
    requires 0 < n <= Parts(name) < 32
    ensures RunFor(before + Made(name, checksum, n), name, checksum, Parts(name), Parts(name) - n + 1)
    decreases n
  {
    hide RunFor, MadeEntry, Parts;
    var e := MadeEntry(name, checksum, n - 1);
    if n == 1 {
      FirstMade(before, name, checksum);
      assert Made(name, checksum, 1) == [e];
    } else {
      MadeRun(before, name, checksum, n - 1);
      NextMade(before + Made(name, checksum, n - 1), name, checksum, n - 1);
      assert before + Made(name, checksum, n) == (before + Made(name, checksum, n - 1)) + [e];
    }
  }

  /** `s` followed by nothing but filler. */
  ghost predicate Extends(s: seq<Unit>, full: seq<Unit>) {
    s <= full && forall i :: |s| <= i < |full| ==> Filler(full[i])
  }

  lemma {:induction false} OrderFacts(k: nat, t: nat)
    requires t < k < 32
    ensures OrderOf(k, t) % 32 == k - t && (OrderOf(k, t) / 64 % 2 == 1 <==> t == 0)
  {
    var d := k - t;
    assert d % 256 == d && d / 64 == 0;
    assert (d + 64) / 64 == 1 && (d + 64) % 32 == d % 32 == d;
  }

  lemma {:induction false} JoinPart(part: seq<Unit>, s: seq<Unit>, rest: seq<Unit>)
    requires |part| == 13 && Extends(s, rest)
    ensures Fill(part) == part && Extends(part + s, part + rest)
  {
  }

  lemma {:induction false} StripExtends(s: seq<Unit>, full: seq<Unit>)
    requires Extends(s, full)
    ensures Strip(full) == Strip(s)
    decreases |full|
  {
    if |full| > |s| {
      StripExtends(s, full[..|full| - 1]);
    } else {
      assert full == s;
    }
  }

  lemma {:induction false} NothingToStrip(s: seq<Unit>)
    requires |s| > 0
    ensures Strip(s) == s <==> !Filler(s[|s| - 1])
  {
  }

  /** Entries made for a name give it back, whatever came before them, up to filler at its end. */
  lemma {:induction false} LongNameRoundTrip(before: seq<LfnEntry>, name: seq<Unit>, checksum: Byte)
    requires 1 <= |name| <= 31 * 13
    ensures var h := before + Made(name, checksum, Parts(name));
            Complete(h) && Decoded(h) == Strip(name) && h[|h| - 1].checksum == checksum
    ensures Strip(name) == name <==> name[|name| - 1] != 0 && name[|name| - 1] != 0xFFFF
  {
    hide Made, MadeEntry, EndsIn, Complete, Decoded, Joined, Strip;
    NothingToStrip(name);
    var k := Parts(name);
    var h := before + Made(name, checksum, k);
    MadeRun(before, name, checksum, k);
    assert From(name, 0) == name;
    TheRun(h, k);
    StripExtends(name, Joined(h, k, 1));
  }

  /** A name that ends in a filler unit loses it. */
  lemma {:induction false} FillerLost(checksum: Byte)
    ensures var h := Made([65, 0xFFFF], checksum, Parts([65, 0xFFFF]));
            Complete(h) && Decoded(h) == [65]
  {
    hide Made, Complete, Decoded;
    var name: seq<Unit> := [65, 0xFFFF];
    LongNameRoundTrip([], name, checksum);
    var h := Made(name, checksum, Parts(name));
    assert [] + h == h;
    assert name[..1] == [65] && Strip([65]) == [65];
  }
}

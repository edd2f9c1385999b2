/** The buddy heap over abstract free lists: what splitting, allocating, freeing and merging do to 32 sequences of
    block addresses, and the invariant every run keeps. */
module BuddySpec {
  import opened Basics
  import opened Dyadic

  const CLASSES: nat := 32
  /** 2^32: a heap of fewer bytes never needs a 33rd list. */
  const HEAP_LIMIT: nat := 0x1_0000_0000

  // ---------- layouts and size classes ----------

  datatype Layout = Layout(size: nat, align: nat)

  datatype Allocation = Allocation(ptr: nat, layout: Layout)

  function TrailingZeros(n: nat): (r: nat)
    requires n > 0
  {
    if n % 2 == 1 then 0 else 1 + TrailingZeros(n / 2)
  }

  predicate IsPowerOfTwo(n: nat) {
    n > 0 && n == Pow2(TrailingZeros(n))
  }

  function Max(a: nat, b: nat): nat { if a < b then b else a }

  function Min(a: nat, b: nat): nat { if a < b then a else b }

  /** The rounded size; a word is 8 bytes. */
  function RequestSize(l: Layout): (r: nat) {
    Max(NextPowerOfTwo(l.size), Max(l.align, 8))
  }

  function ClassOf(l: Layout): (r: nat)
  {
    if RequestSize(l) > 0 then TrailingZeros(RequestSize(l)) else 0
  }

  lemma {:induction false} TrailingZerosPow2(k: nat)
    ensures TrailingZeros(Pow2(k)) == k
  {
    if k > 0 { TrailingZerosPow2(k - 1); }
  }

  /** The class of a layout is the least power of two that holds the size, the alignment and one word. */
  lemma {:induction false} ClassIsTight(l: Layout)
    requires IsPowerOfTwo(l.align)
    ensures Pow2(ClassOf(l)) == RequestSize(l) && ClassOf(l) >= 3
    ensures l.size <= Pow2(ClassOf(l)) && l.align <= Pow2(ClassOf(l))
    ensures forall m: nat :: m >= 3 && l.size <= Pow2(m) && l.align <= Pow2(m) ==> ClassOf(l) <= m
    ensures forall a: nat :: Aligned(a, ClassOf(l)) ==> a % l.align == 0
  {
    var k := NextPowerOfTwoIs(l.size);
    var j := TrailingZeros(l.align);
    assert Pow2(3) == 8;
    var c := Max(k, Max(j, 3));
    Pow2Mono(k, j); Pow2Mono(j, k); Pow2Mono(k, 3); Pow2Mono(3, k); Pow2Mono(j, 3); Pow2Mono(3, j);
    assert RequestSize(l) == Pow2(c);
    TrailingZerosPow2(c);
    forall m: nat | m >= 3 && l.size <= Pow2(m) && l.align <= Pow2(m) ensures c <= m { Pow2Mono(j, m); }
    forall a: nat | Aligned(a, c) ensures a % l.align == 0 {
      AlignedDown(a, j, c);
      AlignedMod(a, j);
    }
  }

  // ---------- free lists ----------

  type Lists = seq<seq<nat>>

  function IndexOf(s: seq<nat>, x: nat): (k: nat)
    requires x in s
    ensures k < |s| && s[k] == x && x !in s[..k]
  {
    if s[0] == x then 0 else 1 + IndexOf(s[1..], x)
  }

  function RemoveAt<T>(s: seq<T>, k: nat): seq<T>
    requires k < |s|
  {
    s[..k] + s[k + 1..]
  }

  function FirstNonEmpty(free: Lists, c: nat): (i: nat)
    ensures i >= c
    ensures forall k :: c <= k < i && k < |free| ==> |free[k]| == 0
    ensures i < |free| ==> |free[i]| > 0
    decreases |free| - c
  {
    if c >= |free| || |free[c]| > 0 then c else FirstNonEmpty(free, c + 1)
  }

  function PushFront(free: Lists, c: nat, a: nat): (r: Lists)
    requires c < |free|
  {
    free[c := [a] + free[c]]
  }

  function PopFront(free: Lists, c: nat): (r: Lists)
    requires c < |free| && |free[c]| > 0
  {
    free[c := free[c][1..]]
  }

  function Unlinked(free: Lists, c: nat, a: nat): (r: Lists)
    requires c < |free| && a in free[c]
  {
    free[c := RemoveAt(free[c], IndexOf(free[c], a))]
  }

  /** Pop the first block of class `j` and push its two halves, the upper one first. */
  function Split(free: Lists, j: nat): (r: Lists)
    requires 0 < j < |free| && |free[j]| > 0
  {
    var a := free[j][0];
    PushFront(PushFront(PopFront(free, j), j - 1, a + Pow2(j - 1)), j - 1, a)
  }

  function SplitDown(free: Lists, i: nat, c: nat): (r: Lists)
    requires c <= i < |free| && |free[i]| > 0
    ensures |r| == |free| && |r[c]| > 0
    decreases i
  {
    if i == c then free else SplitDown(Split(free, i), i - 1, c)
  }

  datatype AllocResult = OutOfMemory | Got(ptr: nat, free: Lists)

  function AllocSpec(free: Lists, c: nat): (r: AllocResult)
    ensures r.OutOfMemory? <==> forall i :: c <= i < |free| ==> |free[i]| == 0
  {
    var i := FirstNonEmpty(free, c);
    if i >= |free| then
      OutOfMemory
    else
      var f := SplitDown(free, i, c);
      Got(f[c][0], PopFront(f, c))
  }

  /** One round of merging: unlink the buddy, pop the block itself, push the pair one class up. */
  function MergeOnce(free: Lists, c: nat, a: nat): (r: Lists)
    requires CanMerge(free, c, a)
  {
    PushFront(PopFront(Unlinked(free, c, FlipBit(a, c)), c), c + 1, Min(a, FlipBit(a, c)))
  }

  predicate CanMerge(free: Lists, c: nat, a: nat) {
    && c + 1 < |free| && |free[c]| >= 2 && FlipBit(a, c) in free[c]
  }

  function MergeUp(free: Lists, c: nat, a: nat): (r: Lists)
    ensures |r| == |free|
    decreases |free| - c
  {
    if CanMerge(free, c, a) then MergeUp(MergeOnce(free, c, a), c + 1, Min(a, FlipBit(a, c))) else free
  }

  function DeallocSpec(free: Lists, c: nat, a: nat): (r: Lists)
    requires c < |free|
  {
    MergeUp(PushFront(free, c, a), c, a)
  }

  // ---------- the blocks of a state ----------

  ghost function FreeSet(free: Lists): (S: set<Block>)
    ensures forall b :: b in S <==> b.order < |free| && b.addr in free[b.order]
  {
    set c: nat, a: nat | c < |free| && a in free[c] :: Block(a, c)
  }

  function BlockOf(x: Allocation): Block {
    Block(x.ptr, ClassOf(x.layout))
  }

  ghost function LiveSet(live: seq<Allocation>): (S: set<Block>) {
    set i | 0 <= i < |live| :: BlockOf(live[i])
  }

  ghost predicate LiveDistinct(live: seq<Allocation>) {
    forall i, j :: 0 <= i < j < |live| ==> BlockOf(live[i]) != BlockOf(live[j])
  }

  ghost predicate Tiles(free: Lists, live: seq<Allocation>, region: iset<nat>) {
    && (forall c :: 0 <= c < |free| ==> NoDup(free[c]))
    && LiveDistinct(live)
    && FreeSet(free) !! LiveSet(live)
    && Tiling(FreeSet(free) + LiveSet(live), region)
    && (forall b :: b in FreeSet(free) + LiveSet(live) ==> b.order >= 3)
    && 0 !in region
  }

  /** Free and live blocks together tile the region with aligned blocks of at least one word. */
  ghost predicate Tiled(free: Lists, live: seq<Allocation>, region: iset<nat>) {
    |free| == CLASSES && Tiles(free, live, region)
  }

  /** A block that starts inside a tile is that tile. */
  lemma {:induction false} StartsInTile(S: set<Block>, region: iset<nat>, b: Block, d: Block)
    requires Tiling(S, region) && b in S && d in S && Covers(b, d.addr)
    ensures d == b
  {
    assert Covers(d, d.addr);
    assert d != b ==> Disjoint(d, b);
  }

  /** No free-list node lies inside a tile, except the tile's own first word. */
  lemma {:induction false} NodesOutside(free: Lists, live: seq<Allocation>, region: iset<nat>, b: Block)
    requires Tiled(free, live, region) && b in FreeSet(free) + LiveSet(live)
    ensures forall c, x :: 0 <= c < |free| && x in free[c] && Covers(b, x) ==> Block(x, c) == b
  {
    forall c, x | 0 <= c < |free| && x in free[c] && Covers(b, x) ensures Block(x, c) == b {
      StartsInTile(FreeSet(free) + LiveSet(live), region, b, Block(x, c));
    }
  }

  lemma {:induction false} SplitTiled(free: Lists, live: seq<Allocation>, region: iset<nat>, j: nat)
    requires Tiled(free, live, region) && 3 < j < |free| && |free[j]| > 0
    ensures Tiled(Split(free, j), live, region)
  {
    var b := Block(free[j][0], j);
    var S := FreeSet(free) + LiveSet(live);
    SplitTiling(S, region, b);
    Halves(b);
    var f := Split(free, j);
    assert NoDup(free[j]);
    assert b.addr !in free[j][1..];
    assert FreeSet(f) == FreeSet(free) - {b} + {Lo(b), Hi(b)};
    assert FreeSet(f) + LiveSet(live) == S - {b} + {Lo(b), Hi(b)};
    forall c | 0 <= c < |free| ensures NoDup(f[c]) {
      assert NoDup(free[c]);
    }
  }

  /** The first block of class `c` leaves its list and becomes live. */
  lemma {:induction false} TakeTiled(free: Lists, live: seq<Allocation>, region: iset<nat>, c: nat, x: Allocation)
    requires Tiled(free, live, region) && c < |free| && |free[c]| > 0 && BlockOf(x) == Block(free[c][0], c)
    ensures Tiled(PopFront(free, c), live + [x], region)
  {
    var b, f, l := BlockOf(x), PopFront(free, c), live + [x];
    assert NoDup(free[c]);
    assert b.addr !in free[c][1..];
    assert FreeSet(f) == FreeSet(free) - {b};
    assert LiveSet(l) == LiveSet(live) + {b} by { LiveSnoc(live, x); }
    assert FreeSet(f) + LiveSet(l) == FreeSet(free) + LiveSet(live);
    forall i | 0 <= i < |live| ensures BlockOf(live[i]) != b { assert BlockOf(live[i]) in LiveSet(live); }
    forall k | 0 <= k < |f| ensures NoDup(f[k]) { assert NoDup(free[k]); }
  }

  lemma {:induction false} LiveSnoc(live: seq<Allocation>, x: Allocation)
    ensures LiveSet(live + [x]) == LiveSet(live) + {BlockOf(x)}
  {
    var l := live + [x];
    forall b | b in LiveSet(live) + {BlockOf(x)} ensures b in LiveSet(l) {
      if b == BlockOf(x) {
        assert l[|live|] == x;
      } else {
        var i :| 0 <= i < |live| && b == BlockOf(live[i]);
        assert l[i] == live[i];
      }
    }
  }

  lemma {:induction false} LiveRemove(live: seq<Allocation>, k: nat)
    requires LiveDistinct(live) && k < |live|
    ensures LiveDistinct(RemoveAt(live, k))
    ensures LiveSet(RemoveAt(live, k)) == LiveSet(live) - {BlockOf(live[k])}
  {
    var b, l := BlockOf(live[k]), RemoveAt(live, k);
    assert forall i :: 0 <= i < |l| ==> l[i] == live[if i < k then i else i + 1];
    forall d | d in LiveSet(live) - {b} ensures d in LiveSet(l) {
      var i :| 0 <= i < |live| && d == BlockOf(live[i]);
      assert live[i] == l[if i < k then i else i - 1];
    }
  }

  /** A live block goes to the front of its list. */
  lemma {:induction false} PutTiled(free: Lists, live: seq<Allocation>, region: iset<nat>, k: nat)
    requires Tiled(free, live, region) && k < |live| && BlockOf(live[k]).order < |free|
    ensures var b := BlockOf(live[k]); Tiled(PushFront(free, b.order, b.addr), RemoveAt(live, k), region)
  {
    var b := BlockOf(live[k]);
    var f, l := PushFront(free, b.order, b.addr), RemoveAt(live, k);
    assert b in LiveSet(live);
    LiveRemove(live, k);
    assert FreeSet(f) == FreeSet(free) + {b};
    assert FreeSet(f) + LiveSet(l) == FreeSet(free) + LiveSet(live);
    forall c | 0 <= c < |f| ensures NoDup(f[c]) { assert NoDup(free[c]); }
  }

  /** Unlinking the buddy leaves the block itself in front, so the pop that follows takes exactly it. */
  lemma {:induction false} UnlinkThenPop(s: seq<nat>, b: nat)
    requires NoDup(s) && |s| >= 2 && b in s && s[0] != b
    ensures var t := RemoveAt(s, IndexOf(s, b));
            t[0] == s[0] && NoDup(t[1..]) && forall x :: x in t[1..] <==> x in s && x != s[0] && x != b
  {
    var k := IndexOf(s, b);
    var t := RemoveAt(s, k);
    assert forall i :: 0 <= i < |t| ==> t[i] == s[if i < k then i else i + 1];
    forall x | x in s && x != s[0] && x != b ensures x in t[1..] {
      var i := IndexOf(s, x);
      assert t[1..][if i < k then i - 1 else i - 2] == x;
    }
  }

  lemma {:induction false} MergeFreeSet(free: Lists, c: nat, a: nat)
    requires CanMerge(free, c, a) && free[c][0] == a && NoDup(free[c]) && Aligned(a, c)
    ensures FreeSet(MergeOnce(free, c, a)) == FreeSet(free) - {Block(a, c), Buddy(Block(a, c))} + {Parent(Block(a, c))}
    ensures NoDup(MergeOnce(free, c, a)[c])
    ensures MergeOnce(free, c, a)[c + 1] == [Parent(Block(a, c)).addr] + free[c + 1]
  {
    UnlinkThenPop(free[c], FlipBit(a, c));
    ParentHalves(Block(a, c));
  }

  lemma {:induction false} MergeTiled(free: Lists, live: seq<Allocation>, region: iset<nat>, c: nat, a: nat)
    requires Tiled(free, live, region) && CanMerge(free, c, a) && free[c][0] == a
    ensures Tiled(MergeOnce(free, c, a), live, region)
  {
    var b, f := Block(a, c), MergeOnce(free, c, a);
    var S := FreeSet(free) + LiveSet(live);
    assert b in FreeSet(free) && Buddy(b) in FreeSet(free);
    MergeFreeSet(free, c, a);
    MergeTiling(S, region, b);
    assert FreeSet(f) + LiveSet(live) == S - {b, Buddy(b)} + {Parent(b)};
    forall d | 0 <= d < |f| ensures NoDup(f[d]) { assert NoDup(free[d]); }
  }

  // ---------- conservation of bytes ----------

  /** The bytes of `n` blocks of class `c`. */
  function BlockBytes(n: nat, c: nat): (r: nat) {
    if n == 0 then 0 else BlockBytes(n - 1, c) + Pow2(c)
  }

  /** The bytes in the lists of the first `n` classes. */
  function BytesBelow(free: Lists, n: nat): (r: nat)
    requires n <= |free|
  {
    if n == 0 then 0 else BytesBelow(free, n - 1) + BlockBytes(|free[n - 1]|, n - 1)
  }

  function FreeBytes(free: Lists): (r: nat) {
    BytesBelow(free, |free|)
  }

  lemma {:induction false} BytesBelowUpdate(free: Lists, n: nat, c: nat, s: seq<nat>)
    requires n <= |free| && c < |free|
    ensures if c < n then BytesBelow(free[c := s], n) + BlockBytes(|free[c]|, c) ==
            BytesBelow(free, n) + BlockBytes(|s|, c)
            else BytesBelow(free[c := s], n) == BytesBelow(free, n)
  {
    if n > 0 { BytesBelowUpdate(free, n - 1, c, s); }
  }

  lemma {:induction false} FreeBytesUpdate(free: Lists, c: nat, s: seq<nat>)
    requires c < |free|
    ensures FreeBytes(free[c := s]) + BlockBytes(|free[c]|, c) == FreeBytes(free) + BlockBytes(|s|, c)
  {
    BytesBelowUpdate(free, |free|, c, s);
  }

  lemma {:induction false} BytesAtLeast(free: Lists, n: nat, c: nat)
    requires c < n <= |free|
    ensures BlockBytes(|free[c]|, c) <= BytesBelow(free, n)
  {
    if c < n - 1 { BytesAtLeast(free, n - 1, c); }
  }

  lemma {:induction false} HeapLimitIs()
    ensures Pow2(CLASSES) == HEAP_LIMIT
  {
    assert Pow2(4) == 16;
    assert Pow2(8) == 256;
    assert Pow2(12) == 0x1000;
    assert Pow2(16) == 0x1_0000;
    assert Pow2(20) == 0x10_0000;
    assert Pow2(24) == 0x100_0000;
    assert Pow2(28) == 0x1000_0000;
  }

  lemma {:induction false} PushBytes(free: Lists, c: nat, a: nat)
    requires c < |free|
    ensures FreeBytes(PushFront(free, c, a)) == FreeBytes(free) + Pow2(c)
  {
    FreeBytesUpdate(free, c, [a] + free[c]);
  }

  lemma {:induction false} PopBytes(free: Lists, c: nat)
    requires c < |free| && |free[c]| > 0
    ensures FreeBytes(PopFront(free, c)) == FreeBytes(free) - Pow2(c)
  {
    FreeBytesUpdate(free, c, free[c][1..]);
  }

  lemma {:induction false} SplitBytes(free: Lists, j: nat)
    requires 0 < j < |free| && |free[j]| > 0
    ensures FreeBytes(Split(free, j)) == FreeBytes(free)
  {
    var a, f := free[j][0], PopFront(free, j);
    PopBytes(free, j);
    PushBytes(f, j - 1, a + Pow2(j - 1));
    PushBytes(PushFront(f, j - 1, a + Pow2(j - 1)), j - 1, a);
  }

  lemma {:induction false} MergeBytes(free: Lists, c: nat, a: nat)
    requires CanMerge(free, c, a)
    ensures FreeBytes(MergeOnce(free, c, a)) == FreeBytes(free)
  {
    var b := FlipBit(a, c);
    var f := Unlinked(free, c, b);
    FreeBytesUpdate(free, c, f[c]);
    PopBytes(f, c);
    PushBytes(PopFront(f, c), c + 1, Min(a, b));
  }
}

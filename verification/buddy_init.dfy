/** Handing memory to the buddy heap: the greedy carving of a range into aligned power-of-two blocks. */
module BuddyInit {
  import opened Basics
  import opened Dyadic
  import opened BuddySpec
  import opened BuddyRuns

  /** The position of the highest set bit. */
  function FloorLog2(n: nat): (r: nat)
    requires n > 0
  {
    if n == 1 then 0 else 1 + FloorLog2(n / 2)
  }

  function PrevPowerOfTwo(n: nat): (r: nat)
    requires n > 0
  {
    Pow2(FloorLog2(n))
  }

  function LowBit(n: nat): (r: nat)
    requires n > 0
  {
    Pow2(TrailingZeros(n))
  }

  function AlignUp(x: nat): nat { (x + 7) / 8 * 8 }

  function AlignDown(x: nat): nat { x / 8 * 8 }

  function CarveSize(cur: nat, end: nat): (r: nat)
    requires 0 < cur < end
  {
    Min(LowBit(cur), PrevPowerOfTwo(end - cur))
  }

  lemma {:induction false} FloorLog2Bounds(n: nat)
    requires n > 0
    ensures Pow2(FloorLog2(n)) <= n < Pow2(FloorLog2(n) + 1)
  {
    if n > 1 { FloorLog2Bounds(n / 2); }
  }

  lemma {:induction false} TrailingZerosBit(n: nat)
    requires n > 0
    ensures Aligned(n, TrailingZeros(n)) && BitAt(n, TrailingZeros(n))
  {
    if n % 2 == 0 { TrailingZerosBit(n / 2); }
  }

  lemma {:induction false} TrailingZerosAtLeast(n: nat, k: nat)
    requires n > 0 && Aligned(n, k)
    ensures TrailingZeros(n) >= k
  {
    if k > 0 { TrailingZerosAtLeast(n / 2, k - 1); }
  }

  /** The class of the block carved at `cur`: the lesser of its alignment and the room left. */
  function CarveClass(cur: nat, end: nat): (k: nat)
    requires 0 < cur < end
  {
    Min(TrailingZeros(cur), FloorLog2(end - cur))
  }

  /** The size taken is a power of two, its trailing zeros are its class, and it fits where it is put. */
  lemma {:induction false} CarveSizeIs(cur: nat, end: nat)
    requires 0 < cur < end
    ensures CarveSize(cur, end) == Pow2(CarveClass(cur, end))
    ensures TrailingZeros(CarveSize(cur, end)) == CarveClass(cur, end)
  {
    var t, m := TrailingZeros(cur), FloorLog2(end - cur);
    Pow2Mono(t, m);
    Pow2Mono(m, t);
    TrailingZerosPow2(CarveClass(cur, end));
  }

  lemma {:induction false} CarveFits(cur: nat, end: nat)
    requires 0 < cur && cur + 8 <= end && cur % 8 == 0 && end - cur < HEAP_LIMIT
    ensures 3 <= CarveClass(cur, end) < CLASSES && Aligned(cur, CarveClass(cur, end))
    ensures cur + Pow2(CarveClass(cur, end)) <= end && Pow2(CarveClass(cur, end)) % 8 == 0
  {
    var t, m := TrailingZeros(cur), FloorLog2(end - cur);
    TrailingZerosBit(cur);
    AlignedDown(cur, CarveClass(cur, end), t);
    WordAligned(cur);
    TrailingZerosAtLeast(cur, 3);
    FloorLog2Bounds(end - cur);
    assert Pow2(3) == 8;
    Pow2Mono(m + 1, 3);
    HeapLimitIs();
    Pow2Mono(CLASSES, m);
    Pow2Mono(CarveClass(cur, end), m);
    WordDivides(CarveClass(cur, end));
  }

  lemma {:induction false} WordAligned(a: nat)
    requires a % 8 == 0
    ensures Aligned(a, 3)
  {
    var k := a / 8;
    assert a == 8 * k && a / 2 == 4 * k && 4 * k / 2 == 2 * k;
    assert Aligned(2 * k, 1);
    assert Aligned(4 * k, 2);
  }

  lemma {:induction false} WordDivides(k: nat)
    requires k >= 3
    ensures Pow2(k) % 8 == 0
  {
    if k > 3 { WordDivides(k - 1); } else { assert Pow2(3) == 8; }
  }

  lemma {:induction false} AlignFacts(x: nat)
    ensures x <= AlignUp(x) < x + 8 && AlignUp(x) % 8 == 0
    ensures x - 8 < AlignDown(x) <= x && AlignDown(x) % 8 == 0
  {
    var q, r := x / 8, x % 8;
    assert x == 8 * q + r;
    assert x + 7 == if r == 0 then 8 * q + 7 else 8 * (q + 1) + (r - 1);
    assert (x + 7) / 8 == if r == 0 then q else q + 1;
  }

  predicate Carvable(lo: nat, hi: nat) {
    0 < lo <= hi && lo % 8 == 0 && hi % 8 == 0 && hi - lo < HEAP_LIMIT
  }

  /** The blocks the loop pushes, in order. */
  function CarveBlocks(cur: nat, end: nat): (bs: seq<Block>)
    requires cur > 0
    decreases end - cur
  {
    if cur + 8 > end then [] else
      var k := CarveClass(cur, end);
      [Block(cur, k)] + CarveBlocks(cur + Pow2(k), end)
  }

  function PushAll(free: Lists, bs: seq<Block>): (r: Lists)
    requires forall i :: 0 <= i < |bs| ==> bs[i].order < |free|
    ensures |r| == |free|
    decreases |bs|
  {
    if bs == [] then free else
      var b := bs[0];
      PushAll(PushFront(free, b.order, b.addr), bs[1..])
  }

  /** Aligned blocks of legal classes that follow one another from `lo` to `hi`. */
  predicate Contiguous(bs: seq<Block>, lo: nat, hi: nat)
    decreases |bs|
  {
    if bs == [] then lo == hi else
      && bs[0].addr == lo && Aligned(lo, bs[0].order) && 3 <= bs[0].order < CLASSES
      && Contiguous(bs[1..], lo + Pow2(bs[0].order), hi)
  }

  lemma {:induction false} ContiguousClasses(bs: seq<Block>, lo: nat, hi: nat)
    requires Contiguous(bs, lo, hi)
    ensures lo <= hi && forall i :: 0 <= i < |bs| ==> bs[i].order < CLASSES
    decreases |bs|
  {
    if bs != [] { ContiguousClasses(bs[1..], lo + Pow2(bs[0].order), hi); }
  }

  lemma {:induction false} CarveContiguous(cur: nat, end: nat)
    requires Carvable(cur, end)
    ensures Contiguous(CarveBlocks(cur, end), cur, end)
    decreases end - cur
  {
    if cur + 8 <= end {
      CarveNext(cur, end);
      CarveContiguous(cur + Pow2(CarveClass(cur, end)), end);
    }
  }

  lemma {:induction false} CarveNext(cur: nat, hi: nat)
    requires Carvable(cur, hi) && cur + 8 <= hi
    ensures var k := CarveClass(cur, hi); 3 <= k < CLASSES && Aligned(cur, k) && Carvable(cur + Pow2(k), hi)
  {
    CarveFits(cur, hi);
    SumOfWords(cur, Pow2(CarveClass(cur, hi)));
  }

  lemma {:induction false} SumOfWords(x: nat, y: nat)
    requires x % 8 == 0 && y % 8 == 0
    ensures (x + y) % 8 == 0
  {
  }

  /** The free lists once every block of `[lo, hi)` has been pushed. */
  function Carved(free: Lists, lo: nat, hi: nat): (r: Lists)
    requires |free| == CLASSES && Carvable(lo, hi)
  {
    CarveContiguous(lo, hi);
    ContiguousClasses(CarveBlocks(lo, hi), lo, hi);
    PushAll(free, CarveBlocks(lo, hi))
  }

  lemma {:induction false} CarvedDone(free: Lists, lo: nat, hi: nat)
    requires |free| == CLASSES && Carvable(lo, hi) && lo + 8 > hi
    ensures lo == hi && Carved(free, lo, hi) == free
  {
  }

  lemma {:induction false} CarvedStep(free: Lists, lo: nat, hi: nat)
    requires |free| == CLASSES && Carvable(lo, hi) && lo + 8 <= hi
    ensures var k := CarveClass(lo, hi);
            && k < CLASSES && Carvable(lo + Pow2(k), hi)
            && Carved(free, lo, hi) == Carved(PushFront(free, k, lo), lo + Pow2(k), hi)
  {
    CarveNext(lo, hi);
    var k := CarveClass(lo, hi);
    var bs := CarveBlocks(lo, hi);
    assert bs[0] == Block(lo, k) && bs[1..] == CarveBlocks(lo + Pow2(k), hi);
  }

  predicate Between(lo: nat, x: nat, hi: nat) { lo <= x < hi }

  ghost function Range(lo: nat, hi: nat): iset<nat> { iset x: nat | Between(lo, x, hi) }

  lemma {:induction false} PutFresh(free: Lists, live: seq<Allocation>, region: iset<nat>, b: Block)
    requires Tiled(free, live, region) && b.addr > 0 && Aligned(b.addr, b.order) && 3 <= b.order < |free|
    requires Range(b.addr, b.addr + Pow2(b.order)) !! region
    ensures Tiled(PushFront(free, b.order, b.addr), live, region + Range(b.addr, b.addr + Pow2(b.order)))
  {
    var f, S := PushFront(free, b.order, b.addr), FreeSet(free) + LiveSet(live);
    NotATile(S, region, b);
    ExtendTiling(S, region, b);
    hide Tiling;
    assert FreeSet(f) + LiveSet(live) == S + {b};
    forall c | 0 <= c < |f| ensures NoDup(f[c]) { assert NoDup(free[c]); }
  }

  lemma {:induction false} NotATile(S: set<Block>, region: iset<nat>, b: Block)
    requires Tiling(S, region) && Range(b.addr, b.addr + Pow2(b.order)) !! region
    ensures b !in S && b.addr !in region
  {
    assert b.addr in Range(b.addr, b.addr + Pow2(b.order));
    assert Covers(b, b.addr);
    assert b in S ==> CoveredBy(S, b.addr);
  }

  lemma {:induction false} ExtendTiling(S: set<Block>, region: iset<nat>, b: Block)
    requires Tiling(S, region) && Aligned(b.addr, b.order) && Range(b.addr, b.addr + Pow2(b.order)) !! region
    ensures Tiling(S + {b}, region + Range(b.addr, b.addr + Pow2(b.order)))
  {
    var R := Range(b.addr, b.addr + Pow2(b.order));
    assert forall x: nat :: x in R <==> Covers(b, x);
    forall d | d in S ensures Disjoint(b, d) {
      DisjointIff(b, d);
      assert forall x: nat :: Covers(d, x) ==> CoveredBy(S, x);
    }
    forall x: nat ensures x in region + R <==> CoveredBy(S + {b}, x) {
      assert CoveredBy(S + {b}, x) <==> CoveredBy(S, x) || Covers(b, x);
    }
  }

  lemma {:induction false} PushAllTiled(free: Lists, live: seq<Allocation>, region: iset<nat>, bs: seq<Block>, lo: nat,
                                        hi: nat)
    requires Tiled(free, live, region) && Contiguous(bs, lo, hi) && lo > 0 && Range(lo, hi) !! region
    requires forall i :: 0 <= i < |bs| ==> bs[i].order < |free|
    ensures Tiled(PushAll(free, bs), live, region + Range(lo, hi))
    ensures FreeBytes(PushAll(free, bs)) == FreeBytes(free) + (hi - lo)
    decreases |bs|
  {
    hide Tiles;
    if bs == [] {
      assert region + Range(lo, hi) == region;
    } else {
      var b, mid := bs[0], lo + Pow2(bs[0].order);
      var f := PushFront(free, b.order, lo);
      ContiguousClasses(bs[1..], mid, hi);
      RangeSplits(region, lo, mid, hi);
      PutFresh(free, live, region, b);
      PushBytes(free, b.order, lo);
      PushAllTiled(f, live, region + Range(lo, mid), bs[1..], mid, hi);
    }
  }

  lemma {:induction false} PushAllFreeSet(free: Lists, bs: seq<Block>)
    requires forall i :: 0 <= i < |bs| ==> bs[i].order < |free|
    ensures forall b :: b in FreeSet(PushAll(free, bs)) <==> b in FreeSet(free) || b in bs
    decreases |bs|
  {
    if bs != [] {
      var f := PushFront(free, bs[0].order, bs[0].addr);
      assert FreeSet(f) == FreeSet(free) + {bs[0]};
      PushAllFreeSet(f, bs[1..]);
    }
  }

  lemma {:induction false} RangeSplits(region: iset<nat>, lo: nat, mid: nat, hi: nat)
    requires lo <= mid <= hi && Range(lo, hi) !! region
    ensures Range(lo, mid) !! region && Range(mid, hi) !! region + Range(lo, mid)
    ensures region + Range(lo, mid) + Range(mid, hi) == region + Range(lo, hi)
  {
    forall x: nat ensures x in Range(lo, hi) <==> x in Range(lo, mid) || x in Range(mid, hi) { }
  }

  // ---------- the carved blocks are the maximal ones ----------

  ghost predicate AllMaximal(F: set<Block>, region: iset<nat>) {
    forall b :: b in F ==> !Inside(Parent(b), region)
  }

  /** Sizes first grow and then shrink: what was carved, or what is left, is below the alignment of the cursor. */
  ghost predicate Greedy(start: nat, cur: nat, end: nat)
    requires cur > 0
  {
    cur - start < LowBit(cur) || end - cur < LowBit(cur)
  }

  lemma {:induction false} CarvedBlockMaximal(start: nat, cur: nat, end: nat)
    requires 0 < start <= cur < end && Greedy(start, cur, end)
    ensures !Inside(Parent(Block(cur, CarveClass(cur, end))), Range(start, end))
  {
    var k, t, m := CarveClass(cur, end), TrailingZeros(cur), FloorLog2(end - cur);
    TrailingZerosBit(cur);
    FloorLog2Bounds(end - cur);
    var p := Parent(Block(cur, k));
    assert Covers(p, p.addr) && Covers(p, p.addr + Pow2(k + 1) - 1);
    if k == t {
      BitBound(cur, k);
      Pow2Mono(k, m);
      assert p.addr !in Range(start, end);
    } else {
      AlignedDown(cur, k, t);
      assert p.addr + Pow2(k + 1) - 1 !in Range(start, end);
    }
  }

  lemma {:induction false} StaysGreedy(start: nat, cur: nat, end: nat)
    requires 0 < start <= cur < end && Greedy(start, cur, end)
    ensures Greedy(start, cur + Pow2(CarveClass(cur, end)), end)
  {
    var k, t, m := CarveClass(cur, end), TrailingZeros(cur), FloorLog2(end - cur);
    var next := cur + Pow2(k);
    TrailingZerosBit(cur);
    FloorLog2Bounds(end - cur);
    AlignedDown(cur, k, t);
    ParentAligned(cur, k);
    if k == t {
      Pow2Mono(k, m);
      TrailingZerosAtLeast(next, k + 1);
      Pow2Mono(k + 1, TrailingZeros(next));
    } else {
      UpperHalf(cur, k);
      TrailingZerosAtLeast(next, k);
      Pow2Mono(k, TrailingZeros(next));
    }
  }

  lemma {:induction false} CarveMaximal(start: nat, cur: nat, end: nat)
    requires 0 < start <= cur <= end && Greedy(start, cur, end)
    ensures forall b :: b in CarveBlocks(cur, end) ==> !Inside(Parent(b), Range(start, end))
    decreases end - cur
  {
    if cur + 8 <= end {
      CarvedBlockMaximal(start, cur, end);
      StaysGreedy(start, cur, end);
      FloorLog2Bounds(end - cur);
      Pow2Mono(CarveClass(cur, end), FloorLog2(end - cur));
      CarveMaximal(start, cur + Pow2(CarveClass(cur, end)), end);
    }
  }

  function EmptyLists(n: nat): (r: Lists)
    ensures |r| == n && forall i :: 0 <= i < n ==> |r[i]| == 0
  {
    if n == 0 then [] else EmptyLists(n - 1) + [[]]
  }

  lemma {:induction false} EmptyBytes(n: nat)
    requires n <= CLASSES
    ensures BytesBelow(EmptyLists(CLASSES), n) == 0
  {
    if n > 0 { EmptyBytes(n - 1); }
  }

  /** The range `init` may use, or none where the source's assertion fails. */
  predicate Usable(start: nat, size: nat) {
    start > 0 && AlignUp(start) <= AlignDown(start + size) && AlignDown(start + size) - AlignUp(start) < HEAP_LIMIT
  }

  function InitState(start: nat, size: nat): (s: State)
    requires Usable(start, size)
  {
    AlignFacts(start);
    AlignFacts(start + size);
    var lo, hi := AlignUp(start), AlignDown(start + size);
    State(Carved(EmptyLists(CLASSES), lo, hi), [], hi - lo, 0, 0)
  }

  ghost function InitRegion(start: nat, size: nat): iset<nat> {
    Range(AlignUp(start), AlignDown(start + size))
  }

  lemma {:induction false} EmptyTiled()
    ensures Tiled(EmptyLists(CLASSES), [], iset{}) && FreeBytes(EmptyLists(CLASSES)) == 0
    ensures FreeSet(EmptyLists(CLASSES)) == {}
  {
    var E := EmptyLists(CLASSES);
    assert FreeSet(E) == {} && LiveSet([]) == {};
    assert FreeSet(E) + LiveSet([]) == {};
    EmptyBytes(CLASSES);
  }

  /** `init` on an empty heap: the state invariant holds, and no two free blocks are buddies. */
  lemma {:induction false} InitEstablishes(start: nat, size: nat)
    requires Usable(start, size)
    ensures Inv(InitState(start, size), InitRegion(start, size))
    ensures NoBuddiesIn(InitState(start, size).free)
  {
    hide Tiling, Tiles, CarveBlocks, FreeBytes, EmptyLists;
    var lo, hi := AlignUp(start), AlignDown(start + size);
    CarvedOk(lo, hi);
    CarvedApart(lo, hi);
  }

  lemma {:induction false} CarvedOk(lo: nat, hi: nat)
    requires Carvable(lo, hi) && hi - lo < HEAP_LIMIT
    ensures Tiled(Carved(EmptyLists(CLASSES), lo, hi), [], Range(lo, hi))
    ensures FreeBytes(Carved(EmptyLists(CLASSES), lo, hi)) == hi - lo
  {
    hide Tiling, Tiles, CarveBlocks, FreeBytes, EmptyLists;
    var E, bs := EmptyLists(CLASSES), CarveBlocks(lo, hi);
    EmptyTiled();
    CarveContiguous(lo, hi);
    ContiguousClasses(bs, lo, hi);
    PushAllTiled(E, [], iset{}, bs, lo, hi);
    assert iset{} + Range(lo, hi) == Range(lo, hi);
  }

  lemma {:induction false} CarvedApart(lo: nat, hi: nat)
    requires Carvable(lo, hi) && hi - lo < HEAP_LIMIT
    ensures NoBuddiesIn(Carved(EmptyLists(CLASSES), lo, hi))
  {
    hide Tiling, CarveBlocks, FreeBytes, EmptyLists;
    var E, bs := EmptyLists(CLASSES), CarveBlocks(lo, hi);
    EmptyTiled();
    CarvedOk(lo, hi);
    CarveContiguous(lo, hi);
    ContiguousClasses(bs, lo, hi);
    PushAllFreeSet(E, bs);
    CarveMaximal(lo, lo, hi);
    var F := FreeSet(PushAll(E, bs));
    assert F + LiveSet([]) == F;
    MaximalNoBuddies(F, Range(lo, hi));
  }

  lemma {:induction false} MaximalNoBuddies(F: set<Block>, region: iset<nat>)
    requires Tiling(F, region) && AllMaximal(F, region)
    ensures NoBuddies(F)
  {
    forall b | b in F ensures Buddy(b) !in F {
      ParentHalves(b);
      Halves(Parent(b));
      var x: nat :| Covers(Parent(b), x) && x !in region;
      assert Covers(b, x) || Covers(Buddy(b), x);
      assert b in F && Covers(b, x) ==> CoveredBy(F, x);
      assert Buddy(b) in F && Covers(Buddy(b), x) ==> CoveredBy(F, x);
    }
  }

  /** From one `init`, over any legal run: tiles and conservation hold, no two free blocks are
      buddies, and a run that frees everything leaves exactly the blocks `init` made. */
  lemma {:induction false} BuddyHeapTheorem(start: nat, size: nat, ops: seq<Op>)
    requires Usable(start, size) && LegalRun(InitState(start, size), ops)
    ensures var r := Run(InitState(start, size), ops);
            && Inv(r, InitRegion(start, size))
            && NoBuddiesIn(r.free)
            && (r.live == [] ==> FreeSet(r.free) == FreeSet(InitState(start, size).free))
  {
    var s, R := InitState(start, size), InitRegion(start, size);
    InitEstablishes(start, size);
    RunsKeepInvariant(s, R, ops);
    if Run(s, ops).live == [] { FreeingAllRestores(s, R, ops); }
  }
}

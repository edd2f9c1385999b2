/** Whole runs of the buddy heap: the invariant of every reachable state, and what is left when everything is freed. */
module BuddyRuns {
  import opened Dyadic
  import opened BuddySpec

  /** The counters of the heap next to its free lists and the blocks handed out and not yet returned. */
  datatype State = State(free: Lists, live: seq<Allocation>, total: int, actual: int, user: int)

  datatype Op = OpAlloc(layout: Layout) | OpFree(index: nat)

  /** What the caller owes: a valid layout, and only live blocks are freed. */
  predicate Legal(s: State, op: Op) {
    match op
    case OpAlloc(l) => IsPowerOfTwo(l.align)
    case OpFree(k) => k < |s.live| && ClassOf(s.live[k].layout) < |s.free|
  }

  function Step(s: State, op: Op): (r: State)
    requires Legal(s, op)
  {
    match op
    case OpAlloc(l) =>
      (match AllocSpec(s.free, ClassOf(l))
       case OutOfMemory => s
       case Got(p, f) =>
         State(f, s.live + [Allocation(p, l)], s.total, s.actual + RequestSize(l), s.user + l.size))
    case OpFree(k) =>
      var x := s.live[k];
      State(DeallocSpec(s.free, ClassOf(x.layout), x.ptr), RemoveAt(s.live, k), s.total,
            s.actual - RequestSize(x.layout), s.user - x.layout.size)
  }

  function LiveBytes(live: seq<Allocation>): (r: nat) {
    if live == [] then 0 else LiveBytes(live[1..]) + RequestSize(live[0].layout)
  }

  function LiveUser(live: seq<Allocation>): (r: nat) {
    if live == [] then 0 else LiveUser(live[1..]) + live[0].layout.size
  }

  ghost predicate Inv(s: State, region: iset<nat>) {
    && Tiled(s.free, s.live, region)
    && (forall i :: 0 <= i < |s.live| ==> IsPowerOfTwo(s.live[i].layout.align) && ClassOf(s.live[i].layout) < CLASSES)
    && s.actual == LiveBytes(s.live)
    && s.user == LiveUser(s.live)
    && s.total == s.actual + FreeBytes(s.free)
    && s.total < HEAP_LIMIT
  }

  // ---------- live sums ----------

  lemma {:induction false} LiveSumsSnoc(live: seq<Allocation>, x: Allocation)
    ensures LiveBytes(live + [x]) == LiveBytes(live) + RequestSize(x.layout)
    ensures LiveUser(live + [x]) == LiveUser(live) + x.layout.size
  {
    if live != [] {
      LiveSumsSnoc(live[1..], x);
      assert (live + [x])[1..] == live[1..] + [x];
    }
  }

  lemma {:induction false} LiveSumsRemove(live: seq<Allocation>, k: nat)
    requires k < |live|
    ensures LiveBytes(RemoveAt(live, k)) == LiveBytes(live) - RequestSize(live[k].layout)
    ensures LiveUser(RemoveAt(live, k)) == LiveUser(live) - live[k].layout.size
  {
    if k == 0 {
      assert RemoveAt(live, 0) == live[1..];
    } else {
      LiveSumsRemove(live[1..], k - 1);
      assert RemoveAt(live, k)[1..] == RemoveAt(live[1..], k - 1);
    }
  }

  // ---------- allocation ----------

  lemma {:induction false} SplitDownKeeps(free: Lists, live: seq<Allocation>, region: iset<nat>, i: nat, c: nat)
    requires Tiled(free, live, region) && 3 <= c <= i < |free| && |free[i]| > 0
    requires forall k :: c <= k < i ==> |free[k]| == 0
    ensures Tiled(SplitDown(free, i, c), live, region)
    ensures FreeBytes(SplitDown(free, i, c)) == FreeBytes(free)
    ensures var r := SplitDown(free, i, c);
            && (forall k :: 0 <= k < |free| && !(c <= k <= i) ==> r[k] == free[k])
            && (c < i ==> r[i] == free[i][1..] && |r[c]| == 2 && forall k :: c < k < i ==> |r[k]| == 1)
    decreases i
  {
    hide Tiles;
    if c < i {
      SplitTiled(free, live, region, i);
      SplitBytes(free, i);
      var f := Split(free, i);
      SplitDownKeeps(f, live, region, i - 1, c);
    }
  }

  ghost predicate NoBuddiesIn(free: Lists) {
    NoBuddies(FreeSet(free))
  }

  /** Lists that shrank, or hold at most one block, cannot hold two buddies. */
  lemma {:induction false} NoBuddiesShrink(was: Lists, free: Lists)
    requires NoBuddiesIn(was) && |was| == |free|
    requires forall k :: 0 <= k < |free| ==> |free[k]| <= 1 || (forall x :: x in free[k] ==> x in was[k])
    ensures NoBuddiesIn(free)
  {
    forall b | b in FreeSet(free) ensures Buddy(b) !in FreeSet(free) {
      assert Buddy(b).addr != b.addr;
      if |free[b.order]| > 1 {
        assert b in FreeSet(was);
      }
    }
  }

  /** The free lists after a successful allocation, and the block that left them. */
  lemma {:induction false} AllocLists(free: Lists, live: seq<Allocation>, region: iset<nat>, l: Layout)
    requires Tiled(free, live, region) && IsPowerOfTwo(l.align)
    requires AllocSpec(free, ClassOf(l)).Got?
    ensures var r := AllocSpec(free, ClassOf(l));
              && ClassOf(l) < CLASSES
              && Tiled(r.free, live + [Allocation(r.ptr, l)], region)
              && FreeBytes(r.free) == FreeBytes(free) - RequestSize(l)
  {
    hide Tiles;
    var c := ClassOf(l);
    ClassIsTight(l);
    var i := FirstNonEmpty(free, c);
    SplitDownKeeps(free, live, region, i, c);
    var f := SplitDown(free, i, c);
    TakeTiled(f, live, region, c, Allocation(f[c][0], l));
    PopBytes(f, c);
  }

  lemma {:induction false} AllocNoBuddies(free: Lists, live: seq<Allocation>, region: iset<nat>, l: Layout)
    requires Tiled(free, live, region) && IsPowerOfTwo(l.align)
    requires NoBuddiesIn(free) && AllocSpec(free, ClassOf(l)).Got?
    ensures NoBuddiesIn(AllocSpec(free, ClassOf(l)).free)
  {
    var c := ClassOf(l);
    ClassIsTight(l);
    var i := FirstNonEmpty(free, c);
    SplitDownKeeps(free, live, region, i, c);
    var f := SplitDown(free, i, c);
    NoBuddiesShrink(free, PopFront(f, c));
  }

  /** A live block lies in the region, away from address zero, and meets its layout. */
  lemma {:induction false} LiveBlockFits(free: Lists, live: seq<Allocation>, region: iset<nat>, k: nat)
    requires Tiled(free, live, region) && k < |live| && IsPowerOfTwo(live[k].layout.align)
    ensures var x := live[k]; && x.ptr > 0 && x.ptr % x.layout.align == 0
                              && forall y :: x.ptr <= y < x.ptr + x.layout.size ==> y in region
  {
    var x, b, S := live[k], BlockOf(live[k]), FreeSet(free) + LiveSet(live);
    ClassIsTight(x.layout);
    assert b in S && Covers(b, b.addr);
    assert CoveredBy(S, b.addr);
    forall y | x.ptr <= y < x.ptr + x.layout.size ensures y in region {
      assert Covers(b, y);
      assert CoveredBy(S, y);
    }
  }

  /** Allocation moves one block that meets the layout out of the free lists and loses no byte. */
  lemma {:induction false} AllocKeeps(s: State, region: iset<nat>, l: Layout)
    requires Inv(s, region) && IsPowerOfTwo(l.align)
    ensures Inv(Step(s, OpAlloc(l)), region)
    ensures NoBuddiesIn(s.free) ==> NoBuddiesIn(Step(s, OpAlloc(l)).free)
  {
    hide Tiles;
    var r := AllocSpec(s.free, ClassOf(l));
    if r.Got? {
      AllocLists(s.free, s.live, region, l);
      LiveSumsSnoc(s.live, Allocation(r.ptr, l));
      if NoBuddiesIn(s.free) { AllocNoBuddies(s.free, s.live, region, l); }
    }
  }

  // ---------- freeing ----------

  /** The only two free buddies, if any, are `b` and its buddy. */
  ghost predicate NoBuddiesBut(F: set<Block>, b: Block) {
    forall d :: d in F && d != b && d != Buddy(b) ==> Buddy(d) !in F
  }

  lemma {:induction false} BlockBytesAtLeastTwo(n: nat, c: nat)
    ensures n >= 2 ==> BlockBytes(n, c) >= Pow2(c + 1)
  {
    if n > 2 { BlockBytesAtLeastTwo(n - 1, c); } else if n == 2 { assert BlockBytes(1, c) == Pow2(c); }
  }

  /** Two buddies of the top class would already hold more bytes than the heap was given. */
  lemma {:induction false} TopClassNeverMerges(free: Lists, live: seq<Allocation>, region: iset<nat>, a: nat)
    requires Tiled(free, live, region) && FreeBytes(free) < HEAP_LIMIT
    requires a in free[CLASSES - 1]
    ensures FlipBit(a, CLASSES - 1) !in free[CLASSES - 1]
  {
    var c := CLASSES - 1;
    BytesAtLeast(free, |free|, c);
    HeapLimitIs();
    BlockBytesAtLeastTwo(|free[c]|, c);
    assert |free[c]| < 2;
    assert free[c] == [a];
  }

  lemma {:induction false} MergeUpKeeps(free: Lists, live: seq<Allocation>, region: iset<nat>, c: nat, a: nat)
    requires Tiled(free, live, region) && FreeBytes(free) < HEAP_LIMIT
    requires c < |free| && |free[c]| > 0 && free[c][0] == a
    ensures Tiled(MergeUp(free, c, a), live, region)
    ensures FreeBytes(MergeUp(free, c, a)) == FreeBytes(free)
    ensures NoBuddiesBut(FreeSet(free), Block(a, c)) ==> NoBuddiesIn(MergeUp(free, c, a))
    decreases |free| - c
  {
    var b := Block(a, c);
    if CanMerge(free, c, a) {
      MergeTiled(free, live, region, c, a);
      MergeFreeSet(free, c, a);
      MergeBytes(free, c, a);
      ParentHalves(b);
      var f := MergeOnce(free, c, a);
      if NoBuddiesBut(FreeSet(free), b) { MergeKeepsLonePair(FreeSet(free), FreeSet(f), b); }
      MergeUpKeeps(f, live, region, c + 1, Min(a, FlipBit(a, c)));
    } else {
      if c == CLASSES - 1 { TopClassNeverMerges(free, live, region, a); }
      assert Buddy(b).addr != b.addr;
      assert Buddy(b) !in FreeSet(free);
    }
  }

  lemma {:induction false} MergeKeepsLonePair(F: set<Block>, G: set<Block>, b: Block)
    requires NoBuddiesBut(F, b) && Aligned(b.addr, b.order)
    requires G == F - {b, Buddy(b)} + {Parent(b)}
    requires forall d :: d in G ==> Aligned(d.addr, d.order)
    ensures NoBuddiesBut(G, Parent(b))
  {
    forall d | d in G && d != Parent(b) && d != Buddy(Parent(b)) ensures Buddy(d) !in G {
      if Buddy(d) == Parent(b) {
        ParentHalves(d);
        Halves(Parent(d));
      }
    }
  }

  lemma {:induction false} PushLeavesOnePair(free: Lists, b: Block)
    requires NoBuddiesIn(free) && b.order < |free|
    requires forall d :: d in FreeSet(free) ==> Aligned(d.addr, d.order)
    ensures NoBuddiesBut(FreeSet(PushFront(free, b.order, b.addr)), b)
  {
    var F := FreeSet(PushFront(free, b.order, b.addr));
    assert F == FreeSet(free) + {b};
    forall d | d in F && d != b && d != Buddy(b) ensures Buddy(d) !in F {
      ParentHalves(d);
      Halves(Parent(d));
    }
  }

  lemma {:induction false} DeallocLists(free: Lists, live: seq<Allocation>, region: iset<nat>, k: nat)
    requires Tiled(free, live, region) && k < |live| && BlockOf(live[k]).order < CLASSES
    requires FreeBytes(free) + Pow2(BlockOf(live[k]).order) < HEAP_LIMIT
    ensures var b := BlockOf(live[k]); var f := DeallocSpec(free, b.order, b.addr);
            && Tiled(f, RemoveAt(live, k), region)
            && FreeBytes(f) == FreeBytes(free) + Pow2(b.order)
            && (NoBuddiesIn(free) ==> NoBuddiesIn(f))
  {
    var b := BlockOf(live[k]);
    PutTiled(free, live, region, k);
    var f := PushFront(free, b.order, b.addr);
    PushBytes(free, b.order, b.addr);
    if NoBuddiesIn(free) { PushLeavesOnePair(free, b); }
    hide Tiles;
    MergeUpKeeps(f, RemoveAt(live, k), region, b.order, b.addr);
  }

  lemma {:induction false} FreeKeeps(s: State, region: iset<nat>, k: nat)
    requires Inv(s, region) && k < |s.live|
    ensures Inv(Step(s, OpFree(k)), region)
    ensures NoBuddiesIn(s.free) ==> NoBuddiesIn(Step(s, OpFree(k)).free)
  {
    hide Tiles;
    var t := Step(s, OpFree(k));
    LiveSumsRemove(s.live, k);
    ClassIsTight(s.live[k].layout);
    DeallocLists(s.free, s.live, region, k);
    forall i | 0 <= i < |t.live| ensures IsPowerOfTwo(t.live[i].layout.align) && ClassOf(t.live[i].layout) < CLASSES {
      assert t.live[i] == s.live[if i < k then i else i + 1];
    }
  }

  // ---------- runs ----------

  predicate LegalRun(s: State, ops: seq<Op>)
    decreases |ops|
  {
    ops == [] || (Legal(s, ops[0]) && LegalRun(Step(s, ops[0]), ops[1..]))
  }

  function Run(s: State, ops: seq<Op>): (r: State)
    requires LegalRun(s, ops)
    decreases |ops|
  {
    if ops == [] then s else Run(Step(s, ops[0]), ops[1..])
  }

  /** Every reachable state: free and live blocks tile the region, bytes are conserved, buddies never stay apart. */
  lemma {:induction false} RunsKeepInvariant(s: State, region: iset<nat>, ops: seq<Op>)
    requires Inv(s, region) && LegalRun(s, ops)
    ensures Inv(Run(s, ops), region)
    ensures NoBuddiesIn(s.free) ==> NoBuddiesIn(Run(s, ops).free)
    decreases |ops|
  {
    hide Tiles;
    if ops != [] {
      match ops[0] {
        case OpAlloc(l) => AllocKeeps(s, region, l);
        case OpFree(k) => FreeKeeps(s, region, k);
      }
      RunsKeepInvariant(Step(s, ops[0]), region, ops[1..]);
    }
  }

  /** Whatever was allocated and in whatever order it was freed, an idle heap holds the blocks it started with. */
  lemma {:induction false} FreeingAllRestores(s: State, region: iset<nat>, ops: seq<Op>)
    requires Inv(s, region) && s.live == [] && NoBuddiesIn(s.free)
    requires LegalRun(s, ops) && Run(s, ops).live == []
    ensures FreeSet(Run(s, ops).free) == FreeSet(s.free)
    ensures FreeBytes(Run(s, ops).free) == s.total
  {
    RunsKeepInvariant(s, region, ops);
    var r := Run(s, ops);
    assert LiveSet(s.live) == {} && LiveSet(r.live) == {};
    assert FreeSet(s.free) + LiveSet(s.live) == FreeSet(s.free);
    assert FreeSet(r.free) + LiveSet(r.live) == FreeSet(r.free);
    CanonicalUnique(FreeSet(s.free), FreeSet(r.free), region);
    RunTotal(s, ops);
  }

  lemma {:induction false} RunTotal(s: State, ops: seq<Op>)
    requires LegalRun(s, ops)
    ensures Run(s, ops).total == s.total
    decreases |ops|
  {
    if ops != [] { RunTotal(Step(s, ops[0]), ops[1..]); }
  }
}

/** The buddy heap itself: 32 singly linked lists threaded through the free memory they describe. */
module BuddyHeap {
  import opened Basics
  import opened Dyadic
  import opened BuddySpec
  import opened BuddyRuns
  import opened BuddyInit

  type Memory = map<nat, nat>

  // ---------- one list in memory ----------

  /** Starting at `head`, the words of memory link exactly the nodes of `s`; 0 is null. */
  ghost predicate Linked(mem: Memory, head: nat, s: seq<nat>) {
    && head == (if |s| == 0 then 0 else s[0])
    && forall i :: 0 <= i < |s| ==> s[i] > 0 && s[i] in mem && mem[s[i]] == Next(s, i)
  }

  function Next(s: seq<nat>, i: int): nat {
    if 0 <= i + 1 < |s| then s[i + 1] else 0
  }

  lemma {:induction false} PushLinked(mem: Memory, head: nat, s: seq<nat>, item: nat)
    requires Linked(mem, head, s) && item > 0 && item !in s
    ensures Linked(mem[item := head], item, [item] + s)
  {
    var t := [item] + s;
    assert forall i :: 1 <= i < |t| ==> t[i] == s[i - 1];
  }

  lemma {:induction false} PopLinked(mem: Memory, head: nat, s: seq<nat>)
    requires Linked(mem, head, s) && |s| > 0
    ensures head == s[0] && head in mem && Linked(mem, mem[head], s[1..])
  {
    var t := s[1..];
    assert forall i :: 0 <= i < |t| ==> t[i] == s[i + 1];
  }

  lemma {:induction false} UnlinkLinked(mem: Memory, head: nat, s: seq<nat>, k: nat)
    requires Linked(mem, head, s) && NoDup(s) && k < |s|
    ensures k == 0 ==> Linked(mem, mem[s[0]], RemoveAt(s, 0))
    ensures k > 0 ==> Linked(mem[s[k - 1] := mem[s[k]]], head, RemoveAt(s, k))
  {
    if k == 0 {
      PopLinked(mem, head, s);
      assert RemoveAt(s, 0) == s[1..];
    } else {
      SkipLinked(mem, head, s, k);
    }
  }

  /** Linking a node past its successor. */
  lemma {:induction false} SkipLinked(mem: Memory, head: nat, s: seq<nat>, k: nat)
    requires Linked(mem, head, s) && NoDup(s) && 0 < k < |s|
    ensures Linked(mem[s[k - 1] := mem[s[k]]], head, RemoveAt(s, k))
  {
    hide RemoveAt, Next;
    var t := RemoveAt(s, k);
    forall i: nat | i < |s| - 1
      ensures i < |t| && t[i] > 0 && t[i] in mem[s[k - 1] := mem[s[k]]] &&
              mem[s[k - 1] := mem[s[k]]][t[i]] == Next(t, i)
    {
      SkipAt(mem, head, s, k, i);
    }
    RemovedSize(s, k);
  }

  lemma {:induction false} RemovedSize(s: seq<nat>, k: nat)
    requires 0 < k < |s|
    ensures |RemoveAt(s, k)| == |s| - 1 && RemoveAt(s, k)[0] == s[0]
  {
  }

  lemma {:induction false} LinkedAt(mem: Memory, head: nat, s: seq<nat>, i: nat)
    requires Linked(mem, head, s) && i < |s|
    ensures s[i] > 0 && s[i] in mem && mem[s[i]] == Next(s, i)
  {
    hide Next;
  }

  lemma {:induction false} SkipAt(mem: Memory, head: nat, s: seq<nat>, k: nat, i: nat)
    requires Linked(mem, head, s) && NoDup(s) && 0 < k < |s| && i < |s| - 1
    ensures s[k] in mem
    ensures var t, mem' := RemoveAt(s, k), mem[s[k - 1] := mem[s[k]]];
            i < |t| && t[i] > 0 && t[i] in mem' && mem'[t[i]] == Next(t, i)
  {
    hide Linked;
    var t := RemoveAt(s, k);
    var j := if i < k then i else i + 1;
    LinkedAt(mem, head, s, j);
    LinkedAt(mem, head, s, k);
    assert t[i] == s[j];
    assert i + 1 < |t| ==> t[i + 1] == s[if i + 1 < k then i + 1 else i + 2];
    assert j != k - 1 ==> s[j] != s[k - 1];
  }

  lemma {:induction false} OtherLinked(mem: Memory, head: nat, s: seq<nat>, a: nat, v: nat)
    requires Linked(mem, head, s) && a !in s
    ensures Linked(mem[a := v], head, s)
  {
  }

  // ---------- all lists ----------

  ghost predicate NodesDistinct(free: Lists) {
    && (forall c :: 0 <= c < |free| ==> NoDup(free[c]))
    && (forall c, d, x :: 0 <= c < |free| && 0 <= d < |free| && c != d && x in free[c] ==> x !in free[d])
  }

  /** Every address that serves as a list node. */
  ghost function Nodes(free: Lists): set<nat> {
    set c, x | 0 <= c < |free| && x in free[c] :: x
  }

  ghost predicate Fresh(free: Lists, a: nat) {
    a !in Nodes(free)
  }

  lemma {:induction false} TiledNodes(free: Lists, live: seq<Allocation>, region: iset<nat>)
    requires Tiled(free, live, region)
    ensures NodesDistinct(free)
  {
    forall c, d, x | 0 <= c < |free| && 0 <= d < |free| && c != d && x in free[c] ensures x !in free[d] {
      assert Covers(Block(x, c), x);
      NodesOutside(free, live, region, Block(x, c));
    }
  }

  /** Along the whole descent, each piece pushed is no node of any list. */
  ghost predicate ReadyToSplit(free: Lists, i: nat, c: nat)
    requires c <= i < |free|
    decreases i
  {
    i == c || (&& |free[i]| > 0 && free[i][0] > 0
               && Fresh(PopFront(free, i), free[i][0] + Pow2(i - 1))
               && Fresh(PushFront(PopFront(free, i), i - 1, free[i][0] + Pow2(i - 1)), free[i][0])
               && ReadyToSplit(Split(free, i), i - 1, c))
  }

  lemma {:induction false} PiecesFresh(free: Lists, live: seq<Allocation>, region: iset<nat>, j: nat)
    requires Tiled(free, live, region) && 0 < j < |free| && |free[j]| > 0
    ensures free[j][0] > 0
    ensures Fresh(PopFront(free, j), free[j][0] + Pow2(j - 1))
    ensures Fresh(PushFront(PopFront(free, j), j - 1, free[j][0] + Pow2(j - 1)), free[j][0])
  {
    var b := Block(free[j][0], j);
    NodesOutside(free, live, region, b);
    TiledNodes(free, live, region);
    assert Covers(b, b.addr) && Covers(b, b.addr + Pow2(j - 1));
    assert CoveredBy(FreeSet(free) + LiveSet(live), b.addr);
    assert NoDup(free[j]);
  }

  lemma {:induction false} TiledReadyToSplit(free: Lists, live: seq<Allocation>, region: iset<nat>, i: nat, c: nat)
    requires Tiled(free, live, region) && 3 <= c <= i < |free| && |free[i]| > 0
    ensures ReadyToSplit(free, i, c)
    decreases i
  {
    hide Tiles;
    if c < i {
      PiecesFresh(free, live, region, i);
      SplitTiled(free, live, region, i);
      TiledReadyToSplit(Split(free, i), live, region, i - 1, c);
    }
  }

  /** The block at `p` is aligned as asked and all its bytes belong to the heap. */
  ghost predicate Meets(p: nat, l: Layout, region: iset<nat>) {
    && p > 0 && l.align > 0 && p % l.align == 0
    && forall x: nat :: p <= x < p + l.size ==> x in region
  }

  lemma {:induction false} ReadyToAlloc(s: State, region: iset<nat>, l: Layout)
    requires Inv(s, region) && IsPowerOfTwo(l.align)
    ensures var i := FirstNonEmpty(s.free, ClassOf(l)); i < |s.free| == CLASSES ==> ReadyToSplit(s.free, i, ClassOf(l))
    ensures Inv(Step(s, OpAlloc(l)), region) && |s.free| == CLASSES
    ensures AllocSpec(s.free, ClassOf(l)).Got? ==> Meets(AllocSpec(s.free, ClassOf(l)).ptr, l, region)
  {
    hide Tiles;
    var i := FirstNonEmpty(s.free, ClassOf(l));
    ClassIsTight(l);
    AllocKeeps(s, region, l);
    if AllocSpec(s.free, ClassOf(l)).Got? {
      var t := Step(s, OpAlloc(l));
      LiveBlockFits(t.free, t.live, region, |s.live|);
    }
    if i < CLASSES { TiledReadyToSplit(s.free, s.live, region, i, ClassOf(l)); }
  }

  lemma {:induction false} LiveWordFresh(free: Lists, live: seq<Allocation>, region: iset<nat>, k: nat, a: nat)
    requires Tiled(free, live, region) && k < |live| && Covers(BlockOf(live[k]), a)
    ensures Fresh(free, a)
  {
    var b := BlockOf(live[k]);
    assert b in LiveSet(live);
    NodesOutside(free, live, region, b);
    assert b !in FreeSet(free);
  }

  /** Along the whole carving loop, each block pushed is no node of any list. */
  ghost predicate ReadyToCarve(free: Lists, cur: nat, hi: nat)
    requires cur > 0
    decreases hi - cur
  {
    cur + 8 > hi || (&& CarveClass(cur, hi) < |free| && Fresh(free, cur)
                     && ReadyToCarve(PushFront(free, CarveClass(cur, hi), cur), cur + Pow2(CarveClass(cur, hi)), hi))
  }

  lemma {:induction false} TiledReadyToCarve(free: Lists, live: seq<Allocation>, region: iset<nat>, cur: nat, hi: nat)
    requires Tiled(free, live, region) && Carvable(cur, hi) && Range(cur, hi) !! region
    ensures ReadyToCarve(free, cur, hi)
    decreases hi - cur
  {
    hide Tiles;
    if cur + 8 <= hi {
      CarveNext(cur, hi);
      var k := CarveClass(cur, hi);
      RangeSplits(region, cur, cur + Pow2(k), hi);
      PutFresh(free, live, region, Block(cur, k));
      assert cur in Range(cur, hi);
      OutsideFresh(free, live, region, cur);
      TiledReadyToCarve(PushFront(free, k, cur), live, region + Range(cur, cur + Pow2(k)), cur + Pow2(k), hi);
    }
  }

  lemma {:induction false} CarvedKeeps(s: State, region: iset<nat>, lo: nat, hi: nat)
    requires Inv(s, region) && Carvable(lo, hi) && Range(lo, hi) !! region && s.total + (hi - lo) < HEAP_LIMIT
    ensures Inv(s.(free := Carved(s.free, lo, hi), total := s.total + (hi - lo)), region + Range(lo, hi))
  {
    CarveContiguous(lo, hi);
    ContiguousClasses(CarveBlocks(lo, hi), lo, hi);
    PushAllTiled(s.free, s.live, region, CarveBlocks(lo, hi), lo, hi);
  }

  lemma {:induction false} OutsideFresh(free: Lists, live: seq<Allocation>, region: iset<nat>, a: nat)
    requires Tiled(free, live, region) && a !in region
    ensures Fresh(free, a)
  {
    var S := FreeSet(free) + LiveSet(live);
    forall c | 0 <= c < |free| ensures a !in free[c] {
      assert Covers(Block(a, c), a);
      assert Block(a, c) in S ==> CoveredBy(S, a);
    }
  }

  /** Along the whole climb, nodes are distinct, the block is in front, and its parent is no node of any list. */
  ghost predicate ReadyToMerge(free: Lists, c: nat, a: nat)
    decreases |free| - c
  {
    && c < |free| && |free[c]| > 0 && free[c][0] == a && NodesDistinct(free)
    && (FlipBit(a, c) in free[c] ==>
          && CanMerge(free, c, a) && Unlinked(free, c, FlipBit(a, c))[c][0] == a
          && Min(a, FlipBit(a, c)) > 0 && Fresh(PopFront(Unlinked(free, c, FlipBit(a, c)), c), Min(a, FlipBit(a, c)))
          && ReadyToMerge(MergeOnce(free, c, a), c + 1, Min(a, FlipBit(a, c))))
  }

  lemma {:induction false} PairLeaves(free: Lists, live: seq<Allocation>, region: iset<nat>, c: nat, a: nat)
    requires Tiled(free, live, region) && CanMerge(free, c, a) && free[c][0] == a
    ensures var b := FlipBit(a, c);
            Unlinked(free, c, b)[c][0] == a && Min(a, b) > 0 && Fresh(PopFront(Unlinked(free, c, b), c), Min(a, b))
  {
    var b := FlipBit(a, c);
    TiledNodes(free, live, region);
    UnlinkThenPop(free[c], b);
    var S := FreeSet(free) + LiveSet(live);
    assert Block(a, c) in S && Covers(Block(a, c), a) && CoveredBy(S, a);
    assert Block(b, c) in S && Covers(Block(b, c), b) && CoveredBy(S, b);
  }

  lemma {:induction false} TiledReadyToMerge(free: Lists, live: seq<Allocation>, region: iset<nat>, c: nat, a: nat)
    requires Tiled(free, live, region) && FreeBytes(free) < HEAP_LIMIT
    requires c < CLASSES && |free[c]| > 0 && free[c][0] == a
    ensures ReadyToMerge(free, c, a)
    decreases |free| - c
  {
    var b := FlipBit(a, c);
    TiledNodes(free, live, region);
    if c == CLASSES - 1 { TopClassNeverMerges(free, live, region, a); }
    if b in free[c] {
      assert IndexOf(free[c], b) != 0;
      PairLeaves(free, live, region, c, a);
      MergeTiled(free, live, region, c, a);
      MergeBytes(free, c, a);
      TiledReadyToMerge(MergeOnce(free, c, a), live, region, c + 1, Min(a, b));
    }
  }

  /** A live block may be put back: it is no node, and from its list the merge can start. */
  lemma {:induction false} ReadyToFree(s: State, region: iset<nat>, k: nat)
    requires Inv(s, region) && k < |s.live|
    ensures var b := BlockOf(s.live[k]);
            && b.order < |s.free| == CLASSES && b.addr > 0 && Fresh(s.free, b.addr)
            && ReadyToMerge(PushFront(s.free, b.order, b.addr), b.order, b.addr)
    ensures Legal(s, OpFree(k)) && Inv(Step(s, OpFree(k)), region)
  {
    hide Tiles;
    var b := BlockOf(s.live[k]);
    FreeKeeps(s, region, k);
    ClassIsTight(s.live[k].layout);
    LiveBlockFits(s.free, s.live, region, k);
    assert Covers(b, b.addr);
    LiveWordFresh(s.free, s.live, region, k, b.addr);
    PutTiled(s.free, s.live, region, k);
    PushBytes(s.free, b.order, b.addr);
    LiveSumsRemove(s.live, k);
    TiledReadyToMerge(PushFront(s.free, b.order, b.addr), RemoveAt(s.live, k), region, b.order, b.addr);
  }

  datatype Ref = HeadRef | NodeRef(addr: nat)

  /** Memory and list heads represent the abstract lists. */
  ghost predicate Represents(mem: Memory, heads: seq<nat>, free: Lists) {
    && |heads| == |free| == CLASSES
    && (forall c :: 0 <= c < CLASSES ==> Linked(mem, heads[c], free[c]))
  }

  class Heap {
    var mem: Memory
    var heads: seq<nat>
    var user: int
    var actual: int
    var total: int
    ghost var free: Lists
    ghost var live: seq<Allocation>
    ghost var region: iset<nat>

    ghost predicate Refines()
      reads this
    {
      Represents(mem, heads, free)
    }

    ghost function Abstract(): State
      reads this
    {
      State(free, live, total, actual, user)
    }

    ghost predicate Valid()
      reads this
    {
      Refines() && Inv(Abstract(), region)
    }

    constructor ()
      ensures Valid() && Abstract() == State(EmptyLists(CLASSES), [], 0, 0, 0) && region == iset{}
    {
      mem, heads, user, actual, total := map[], seq(CLASSES, i => 0), 0, 0, 0;
      free, live, region := EmptyLists(CLASSES), [], iset{};
      new;
      EmptyTiled();
    }

    /** Push `item` to the front of list `c`. */
    method Push(c: nat, item: nat)
      requires Refines() && c < CLASSES && item > 0 && Fresh(free, item)
      modifies this`mem, this`heads, this`free
      ensures Refines() && free == PushFront(old(free), c, item)
    {
      forall d | 0 <= d < CLASSES && d != c ensures Linked(mem[item := heads[c]], heads[d], free[d]) {
        OtherLinked(mem, heads[d], free[d], item, heads[c]);
      }
      PushLinked(mem, heads[c], free[c], item);
      mem := mem[item := heads[c]];
      heads := heads[c := item];
      free := PushFront(free, c, item);
    }

    /** Remove the first item of list `c`, if there is one. */
    method Pop(c: nat) returns (r: Option<nat>)
      requires Refines() && c < CLASSES
      modifies this`heads, this`free
      ensures Refines()
      ensures |old(free)[c]| == 0 ==> r.None? && free == old(free)
      ensures |old(free)[c]| > 0 ==> r == Some(old(free)[c][0]) && free == PopFront(old(free), c)
    {
      assert Linked(mem, heads[c], free[c]);
      if heads[c] == 0 {
        return None;
      }
      PopLinked(mem, heads[c], free[c]);
      var item := heads[c];
      heads := heads[c := mem[item]];
      free := PopFront(free, c);
      return Some(item);
    }

    /** Walk list `c` with the mutable iterator; unlink the node `target` where it is found. */
    method Unlink(c: nat, target: nat) returns (found: bool)
      requires Refines() && c < CLASSES && NodesDistinct(free)
      modifies this`mem, this`heads, this`free
      ensures Refines() && found == (target in old(free)[c])
      ensures !found ==> free == old(free)
      ensures found ==> free == Unlinked(old(free), c, target)
    {
      hide Represents, Linked, NodesDistinct, Unlinked;
      ListOf(mem, heads, free, c);
      ghost var s := free[c];
      ghost var k := 0;
      HeadIs(mem, heads[c], s);
      var prev, curr := HeadRef, heads[c];
      while curr != 0
        invariant k <= |s| && curr == (if k < |s| then s[k] else 0)
        invariant prev == (if k == 0 then HeadRef else NodeRef(s[k - 1]))
        invariant target !in s[..k]
        invariant mem == old(mem) && heads == old(heads) && free == old(free)
        decreases |s| - k
      {
        LinkedAt(mem, heads[c], s, k);
        if curr == target {
          UnlinkOne(mem, heads, free, c, target, k);
          match prev {
            case HeadRef =>
              heads := heads[c := mem[curr]];
            case NodeRef(a) =>
              mem := mem[a := mem[curr]];
          }
          free := Unlinked(free, c, target);
          return true;
        }
        prev := NodeRef(curr);
        curr := mem[curr];
        k := k + 1;
      }
      if k < |s| { LinkedAt(mem, heads[c], s, k); }
      return false;
    }

    /** The loop that carves `[lo, hi)` into blocks and pushes each. */
    method Carve(lo: nat, hi: nat) returns (added: nat)
      requires Refines() && Carvable(lo, hi) && ReadyToCarve(free, lo, hi)
      modifies this`mem, this`heads, this`free
      ensures Refines() && free == Carved(old(free), lo, hi) && added == hi - lo
    {
      hide Linked, Fresh, Carved, PushFront, Pow2;
      var cur := lo;
      added := 0;
      while cur + 8 <= hi
        invariant lo <= cur && Carvable(cur, hi) && added == cur - lo
        invariant Refines() && ReadyToCarve(free, cur, hi)
        invariant Carved(free, cur, hi) == Carved(old(free), lo, hi)
        decreases hi - cur
      {
        CarveSizeIs(cur, hi);
        CarvedStep(free, cur, hi);
        var size := CarveSize(cur, hi);
        added := added + size;
        Push(TrailingZeros(size), cur);
        cur := cur + size;
      }
      CarvedDone(free, cur, hi);
    }

    /** Add the words of `[start, end)` to the heap. */
    method AddToHeap(start: nat, end: nat)
      requires Valid() && start > 0 && AlignUp(start) <= AlignDown(end)
      requires Range(AlignUp(start), AlignDown(end)) !! region
      requires total + (AlignDown(end) - AlignUp(start)) < HEAP_LIMIT
      modifies this
      ensures Valid() && region == old(region) + Range(AlignUp(start), AlignDown(end))
      ensures Carvable(AlignUp(start), AlignDown(end))
      ensures var added := AlignDown(end) - AlignUp(start);
              Abstract() == old(Abstract()).(free := Carved(old(free), AlignUp(start), AlignDown(end)),
                                             total := old(total) + added)
    {
      var lo, hi := AlignUp(start), AlignDown(end);
      AlignFacts(start);
      AlignFacts(end);
      CarvedKeeps(Abstract(), region, lo, hi);
      TiledReadyToCarve(free, live, region, lo, hi);
      var added := Carve(lo, hi);
      total := total + added;
      region := region + Range(lo, hi);
    }

    /** The first class from `c` up whose list is not empty. */
    method FindClass(c: nat) returns (i: nat)
      requires Refines()
      ensures i == FirstNonEmpty(free, c)
    {
      i := c;
      while i < CLASSES && heads[i] == 0
        invariant c <= i && FirstNonEmpty(free, c) == FirstNonEmpty(free, i)
      {
        assert Linked(mem, heads[i], free[i]);
        i := i + 1;
      }
      assert i < CLASSES ==> Linked(mem, heads[i], free[i]);
    }

    /** Find the class, split one block down to `c` and pop it. */
    method Take(c: nat) returns (r: Option<nat>)
      requires Refines()
      requires var i := FirstNonEmpty(free, c); i < CLASSES ==> ReadyToSplit(free, i, c)
      modifies this`mem, this`heads, this`free
      ensures Refines()
      ensures AllocSpec(old(free), c).OutOfMemory? ==> r.None? && free == old(free)
      ensures AllocSpec(old(free), c).Got? ==> r.Some? && AllocSpec(old(free), c) == Got(r.value, free)
    {
      hide Linked, Fresh;
      assert |free| == CLASSES;
      var i := FindClass(c);
      if i >= CLASSES {
        return None;
      }
      var j := i;
      while j > c
        invariant c <= j <= i && Refines() && |free[j]| > 0 && ReadyToSplit(free, j, c)
        invariant SplitDown(free, j, c) == SplitDown(old(free), i, c)
      {
        var block := Pop(j);
        Push(j - 1, block.value + Pow2(j - 1));
        Push(j - 1, block.value);
        j := j - 1;
      }
      r := Pop(c);
    }

    /** Allocate: `None` exactly when no class from the layout's own up has a block. */
    method Alloc(l: Layout) returns (r: Option<nat>)
      requires Valid() && IsPowerOfTwo(l.align)
      modifies this
      ensures Valid() && region == old(region) && Abstract() == Step(old(Abstract()), OpAlloc(l))
      ensures r.None? <==> forall i :: ClassOf(l) <= i < CLASSES ==> |old(free)[i]| == 0
      ensures r.Some? ==> live == old(live) + [Allocation(r.value, l)] && Meets(r.value, l, region)
    {
      hide Inv, Represents, ReadyToSplit, SplitDown, Meets, AllocSpec, FirstNonEmpty, DeallocSpec, TrailingZeros;
      var size := RequestSize(l);
      ClassIsTight(l);
      ReadyToAlloc(Abstract(), region, l);
      r := Take(TrailingZeros(size));
      if r.Some? {
        user := user + l.size;
        actual := actual + size;
        live := live + [Allocation(r.value, l)];
      }
    }

    /** Merge the block at the front of list `c` with free buddies as far up as they go. */
    method Merge(c: nat, ptr: nat)
      requires Refines() && ReadyToMerge(free, c, ptr)
      modifies this`mem, this`heads, this`free
      ensures Refines() && free == MergeUp(old(free), c, ptr)
    {
      var cur, cc := ptr, c;
      while cc < CLASSES
        invariant cc < CLASSES && Refines() && ReadyToMerge(free, cc, cur)
        invariant MergeUp(free, cc, cur) == MergeUp(old(free), c, ptr)
        decreases CLASSES - cc
      {
        var buddy := FlipBit(cur, cc);
        var found := Unlink(cc, buddy);
        if !found { break; }
        var own := Pop(cc);
        assert own == Some(cur);
        Push(cc + 1, Min(cur, buddy));
        cur := Min(cur, buddy);
        cc := cc + 1;
      }
    }

    /** Return the live block number `k`. */
    method Dealloc(ptr: nat, l: Layout, ghost k: nat)
      requires Valid() && k < |live| && live[k] == Allocation(ptr, l)
      modifies this
      ensures Valid() && region == old(region) && Abstract() == Step(old(Abstract()), OpFree(k))
    {
      hide Inv, Represents, ReadyToMerge, MergeUp;
      var size := RequestSize(l);
      var c := TrailingZeros(size);
      ReadyToFree(Abstract(), region, k);
      hide Inv, Represents, ReadyToMerge, RequestSize, LiveBytes;
      Push(c, ptr);
      Merge(c, ptr);
      live := RemoveAt(live, k);
      user := user - l.size;
      actual := actual - size;
    }

    /** A user of the heap writes any word of a block it holds. */
    method UserWrite(a: nat, v: nat, ghost k: nat)
      requires Valid() && k < |live| && Covers(BlockOf(live[k]), a)
      modifies this`mem
      ensures Valid()
    {
      LiveWordFresh(free, live, region, k, a);
      forall c | 0 <= c < CLASSES ensures Linked(mem[a := v], heads[c], free[c]) {
        OtherLinked(mem, heads[c], free[c], a, v);
      }
      mem := mem[a := v];
    }
  }

  lemma {:induction false} ListOf(mem: Memory, heads: seq<nat>, free: Lists, c: nat)
    requires Represents(mem, heads, free) && c < CLASSES
    ensures c < |heads| == |free| && Linked(mem, heads[c], free[c])
  {
    hide Linked;
  }

  lemma {:induction false} HeadIs(mem: Memory, head: nat, s: seq<nat>)
    requires Linked(mem, head, s)
    ensures head == if |s| > 0 then s[0] else 0
  {
  }

  /** Storing the successor of the found node where the previous link is kept unlinks exactly that node. */
  lemma {:induction false} UnlinkOne(mem: Memory, heads: seq<nat>, free: Lists, c: nat, x: nat, k: nat)
    requires Represents(mem, heads, free) && NodesDistinct(free) && c < CLASSES
    requires c < |heads| == |free| && k < |free[c]| && free[c][k] == x && x !in free[c][..k] && x in mem
    ensures x in free[c]
    ensures k == 0 ==> Represents(mem, heads[c := mem[x]], Unlinked(free, c, x))
    ensures k > 0 ==> Represents(mem[free[c][k - 1] := mem[x]], heads, Unlinked(free, c, x))
  {
    hide Linked, RemoveAt, IndexOf;
    var s := free[c];
    FoundAt(s, x, k);
    UnlinkLinked(mem, heads[c], s, k);
    if k > 0 {
      var a := s[k - 1];
      forall d | 0 <= d < CLASSES && d != c ensures Linked(mem[a := mem[x]], heads[d], free[d]) {
        assert a in s && a !in free[d];
        OtherLinked(mem, heads[d], free[d], a, mem[x]);
      }
    }
  }

  lemma {:induction false} FoundAt(s: seq<nat>, x: nat, k: nat)
    requires k < |s| && s[k] == x && x !in s[..k]
    ensures x in s && IndexOf(s, x) == k
  {
    var i := IndexOf(s, x);
    assert forall j :: 0 <= j < k ==> s[..k][j] != x;
    assert forall j :: 0 <= j < i ==> s[..i][j] != x;
  }
}

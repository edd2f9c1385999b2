/** Power-of-two blocks of memory and the tilings they form: the geometry behind the buddy heap. */
module Dyadic {
  import Arith

  function Pow2(n: nat): (r: nat)
    ensures r > 0
  {
    if n == 0 then 1 else 2 * Pow2(n - 1)
  }

  function NextPowerOfTwo(n: nat): (r: nat) {
    if n <= 1 then 1 else 2 * NextPowerOfTwo((n + 1) / 2)
  }

  /** ... is the least power of two that is not below `n`. */
  lemma {:induction false} NextPowerOfTwoIs(n: nat) returns (k: nat)
    ensures NextPowerOfTwo(n) == Pow2(k) && n <= Pow2(k)
    ensures forall m: nat :: n <= Pow2(m) ==> k <= m
  {
    if n <= 1 {
      k := 0;
    } else {
      var j := NextPowerOfTwoIs((n + 1) / 2);
      k := j + 1;
      forall m: nat | n <= Pow2(m) ensures k <= m {
        assert m > 0;
        assert (n + 1) / 2 <= Pow2(m - 1);
      }
    }
  }

  lemma {:induction false} Pow2Mono(j: nat, k: nat)
    ensures j <= k <==> Pow2(j) <= Pow2(k)
    decreases j + k
  {
    if j > 0 && k > 0 { Pow2Mono(j - 1, k - 1); }
  }

  /** `addr` is the first byte; the block is `Pow2(order)` bytes long. */
  datatype Block = Block(addr: nat, order: nat)

  /** The low `c` bits of the address are zero. */
  predicate Aligned(a: nat, c: nat) {
    c == 0 || (a % 2 == 0 && Aligned(a / 2, c - 1))
  }

  /** Bit `c` of the address. */
  predicate BitAt(a: nat, c: nat) {
    if c == 0 then a % 2 == 1 else BitAt(a / 2, c - 1)
  }

  /** Bit `c` of the address flipped: `addr ^ (1 << c)`. */
  function FlipBit(a: nat, c: nat): (r: nat)
  {
    BitBound(a, c);
    if BitAt(a, c) then a - Pow2(c) else a + Pow2(c)
  }

  predicate Covers(b: Block, x: nat) {
    b.addr <= x < b.addr + Pow2(b.order)
  }

  predicate Disjoint(b: Block, d: Block) {
    b.addr + Pow2(b.order) <= d.addr || d.addr + Pow2(d.order) <= b.addr
  }

  function Lo(b: Block): Block
    requires b.order > 0
  {
    Block(b.addr, b.order - 1)
  }

  function Hi(b: Block): Block
    requires b.order > 0
  {
    Block(b.addr + Pow2(b.order - 1), b.order - 1)
  }

  function Buddy(b: Block): Block {
    Block(FlipBit(b.addr, b.order), b.order)
  }

  function Parent(b: Block): Block {
    BitBound(b.addr, b.order);
    Block(if BitAt(b.addr, b.order) then b.addr - Pow2(b.order) else b.addr, b.order + 1)
  }

  // ---------- addresses ----------

  lemma {:induction false} BitBound(a: nat, c: nat)
    ensures BitAt(a, c) ==> a >= Pow2(c)
  {
    if c > 0 { BitBound(a / 2, c - 1); }
  }

  /** The address with its low `c` bits cleared. */
  function Base(x: nat, c: nat): (r: nat) {
    if c == 0 then x else 2 * Base(x / 2, c - 1)
  }

  lemma {:induction false} BaseBounds(x: nat, c: nat)
    ensures Base(x, c) <= x < Base(x, c) + Pow2(c)
  {
    if c > 0 { BaseBounds(x / 2, c - 1); }
  }

  /** For an aligned block, covering a byte is being that byte's base. */
  lemma {:induction false} CoversBase(b: Block, x: nat)
    requires Aligned(b.addr, b.order)
    ensures Covers(b, x) <==> Base(x, b.order) == b.addr
    decreases b.order
  {
    BaseBounds(x, b.order);
    if b.order > 0 {
      CoversBase(Block(b.addr / 2, b.order - 1), x / 2);
    }
  }

  lemma {:induction false} SameBaseAbove(x: nat, y: nat, c: nat, d: nat)
    requires c <= d && Base(x, c) == Base(y, c)
    ensures Base(x, d) == Base(y, d)
    decreases c
  {
    if c > 0 { SameBaseAbove(x / 2, y / 2, c - 1, d - 1); }
  }

  lemma {:induction false} AlignedDown(a: nat, j: nat, k: nat)
    requires j <= k && Aligned(a, k)
    ensures Aligned(a, j)
    ensures j < k ==> !BitAt(a, j)
    decreases j
  {
    if j > 0 { AlignedDown(a / 2, j - 1, k - 1); }
  }

  /** Alignment is divisibility by the block size. */
  lemma {:induction false} AlignedMod(a: nat, c: nat)
    requires Aligned(a, c)
    ensures a % Pow2(c) == 0
  {
    if c > 0 {
      AlignedMod(a / 2, c - 1);
      DoubleMod(a / 2, Pow2(c - 1));
    }
  }

  lemma {:induction false} DoubleMod(x: nat, p: nat)
    requires p > 0 && x % p == 0
    ensures (2 * x) % (2 * p) == 0
  {
    var y := x / p;
    assert x == y * p;
    assert y * (2 * p) == 2 * (y * p);
    Arith.DivUnique(2 * x, 2 * p, y, 0);
  }

  /** Two aligned blocks that share a byte are nested: the larger one covers the smaller. */
  lemma {:induction false} Nested(b: Block, d: Block, x: nat, y: nat)
    requires Aligned(b.addr, b.order) && Aligned(d.addr, d.order) && b.order <= d.order
    requires Covers(b, x) && Covers(d, x) && Covers(b, y)
    ensures Covers(d, y)
  {
    CoversBase(b, x); CoversBase(d, x); CoversBase(b, y); CoversBase(d, y);
    SameBaseAbove(x, y, b.order, d.order);
  }

  lemma {:induction false} SameClassSame(b: Block, d: Block, x: nat)
    requires Aligned(b.addr, b.order) && Aligned(d.addr, d.order) && b.order == d.order
    requires Covers(b, x) && Covers(d, x)
    ensures b == d
  {
    CoversBase(b, x); CoversBase(d, x);
  }

  lemma {:induction false} DisjointIff(b: Block, d: Block)
    ensures Disjoint(b, d) <==> !exists x: nat :: Covers(b, x) && Covers(d, x)
  {
    if !Disjoint(b, d) {
      var x := if b.addr <= d.addr then d.addr else b.addr;
      assert Covers(b, x) && Covers(d, x);
    }
  }

  // ---------- halves, buddies, parents ----------

  lemma {:induction false} UpperHalf(a: nat, c: nat)
    requires Aligned(a, c + 1)
    ensures Aligned(a, c) && !BitAt(a, c) && Aligned(a + Pow2(c), c) && BitAt(a + Pow2(c), c)
  {
    if c > 0 {
      UpperHalf(a / 2, c - 1);
      assert (a + Pow2(c)) / 2 == a / 2 + Pow2(c - 1);
    }
  }

  lemma {:induction false} Halves(b: Block)
    requires Aligned(b.addr, b.order) && b.order > 0
    ensures Aligned(Lo(b).addr, Lo(b).order) && Aligned(Hi(b).addr, Hi(b).order)
    ensures forall x: nat :: Covers(b, x) <==> Covers(Lo(b), x) || Covers(Hi(b), x)
    ensures Disjoint(Lo(b), Hi(b))
    ensures Buddy(Lo(b)) == Hi(b) && Buddy(Hi(b)) == Lo(b)
    ensures Parent(Lo(b)) == b && Parent(Hi(b)) == b
  {
    UpperHalf(b.addr, b.order - 1);
  }

  lemma {:induction false} ParentAligned(a: nat, c: nat)
    requires Aligned(a, c)
    ensures BitAt(a, c) ==> Pow2(c) <= a && Aligned(a - Pow2(c), c + 1) && Aligned(a + Pow2(c), c + 1)
    ensures !BitAt(a, c) ==> Aligned(a, c + 1)
  {
    BitBound(a, c);
    if c > 0 {
      ParentAligned(a / 2, c - 1);
      if BitAt(a, c) {
        BitBound(a / 2, c - 1);
        assert (a - Pow2(c)) / 2 == a / 2 - Pow2(c - 1);
        assert (a + Pow2(c)) / 2 == a / 2 + Pow2(c - 1);
      }
    }
  }

  /** An aligned block is one of the two halves of its parent, and its buddy is the other. */
  lemma {:induction false} ParentHalves(b: Block)
    requires Aligned(b.addr, b.order)
    ensures Aligned(Parent(b).addr, Parent(b).order)
    ensures (b == Lo(Parent(b)) && Buddy(b) == Hi(Parent(b))) || (b == Hi(Parent(b)) && Buddy(b) == Lo(Parent(b)))
    ensures Parent(b).addr == (if b.addr <= Buddy(b).addr then b.addr else Buddy(b).addr)
  {
    ParentAligned(b.addr, b.order);
  }

  // ---------- tilings ----------

  ghost predicate CoveredBy(S: set<Block>, x: nat) {
    exists b :: b in S && Covers(b, x)
  }

  /** The blocks of `S` are aligned, pairwise disjoint, and together cover exactly `region`. */
  ghost predicate Tiling(S: set<Block>, region: iset<nat>) {
    && (forall b :: b in S ==> Aligned(b.addr, b.order))
    && (forall b, d :: b in S && d in S && b != d ==> Disjoint(b, d))
    && (forall x: nat :: x in region <==> CoveredBy(S, x))
  }

  ghost predicate Inside(b: Block, region: iset<nat>) {
    forall x: nat :: Covers(b, x) ==> x in region
  }

  ghost predicate NoBuddies(F: set<Block>) {
    forall b :: b in F ==> Buddy(b) !in F
  }

  lemma {:induction false} SplitCover(S: set<Block>, b: Block, x: nat)
    requires Aligned(b.addr, b.order) && b.order > 0 && b in S
    ensures CoveredBy(S, x) <==> CoveredBy(S - {b} + {Lo(b), Hi(b)}, x)
  {
    Halves(b);
    var T := S - {b} + {Lo(b), Hi(b)};
    assert Lo(b) in T && Hi(b) in T;
    if CoveredBy(S, x) {
      var d :| d in S && Covers(d, x);
      assert d != b ==> d in T;
    }
    if CoveredBy(T, x) {
      var d :| d in T && Covers(d, x);
      assert d in S || Covers(b, x);
    }
  }

  /** The halves of a block are apart, and from what the block is apart from. */
  lemma {:induction false} HalvesApart(b: Block, d: Block)
    requires b.order > 0
    ensures Disjoint(Lo(b), Hi(b)) && Disjoint(Hi(b), Lo(b)) && !Disjoint(b, Lo(b)) && !Disjoint(b, Hi(b))
    ensures Disjoint(b, d) ==> Disjoint(d, Lo(b)) && Disjoint(d, Hi(b)) && Disjoint(Lo(b), d) && Disjoint(Hi(b), d)
  {
    assert Pow2(b.order) == 2 * Pow2(b.order - 1);
  }

  lemma {:induction false} SplitTiling(S: set<Block>, region: iset<nat>, b: Block)
    requires Tiling(S, region) && b in S && b.order > 0
    ensures Lo(b) !in S && Hi(b) !in S
    ensures Tiling(S - {b} + {Lo(b), Hi(b)}, region)
  {
    hide CoveredBy, Covers, Aligned, Disjoint;
    Halves(b);
    HalvesApart(b, b);
    var T := S - {b} + {Lo(b), Hi(b)};
    forall d | d in S && d != b
      ensures Disjoint(d, Lo(b)) && Disjoint(d, Hi(b)) && Disjoint(Lo(b), d) && Disjoint(Hi(b), d)
    {
      HalvesApart(b, d);
    }
    forall c, d | c in T && d in T && c != d ensures Disjoint(c, d) { }
    forall x: nat ensures CoveredBy(S, x) <==> CoveredBy(S - {b} + {Lo(b), Hi(b)}, x) { SplitCover(S, b, x); }
  }

  lemma {:induction false} MergeTiling(S: set<Block>, region: iset<nat>, b: Block)
    requires Tiling(S, region) && b in S && Buddy(b) in S
    ensures Parent(b) !in S
    ensures Tiling(S - {b, Buddy(b)} + {Parent(b)}, region)
  {
    hide CoveredBy;
    ParentHalves(b);
    var p := Parent(b);
    Halves(p);
    var T := S - {b, Buddy(b)} + {p};
    assert Covers(b, b.addr) && Covers(p, b.addr);
    assert b != p;
    assert !Disjoint(b, p);
    forall d | d in T && d != p ensures Disjoint(d, p) {
      assert Disjoint(d, b) && Disjoint(d, Buddy(b));
      DisjointIff(d, b); DisjointIff(d, Buddy(b)); DisjointIff(d, p);
    }
    forall x: nat ensures CoveredBy(S, x) <==> CoveredBy(T, x) { MergeCover(S, b, x); }
  }

  lemma {:induction false} MergeCover(S: set<Block>, b: Block, x: nat)
    requires Aligned(b.addr, b.order) && b in S && Buddy(b) in S
    ensures CoveredBy(S, x) <==> CoveredBy(S - {b, Buddy(b)} + {Parent(b)}, x)
  {
    ParentHalves(b);
    var p := Parent(b);
    Halves(p);
    var T := S - {b, Buddy(b)} + {p};
    if CoveredBy(S, x) {
      var d :| d in S && Covers(d, x);
      if d == b || d == Buddy(b) { assert p in T && Covers(p, x); } else { assert d in T; }
    }
    if CoveredBy(T, x) {
      var d :| d in T && Covers(d, x);
      if d == p { assert Covers(b, x) || Covers(Buddy(b), x); }
    }
  }

  // ---------- the canonical tiling ----------

  /** No tile properly contains `r`, `r` is no tile, yet `r` is fully covered: some two tiles are buddies. */
  lemma {:induction false} FindBuddyPair(F: set<Block>, region: iset<nat>, r: Block) returns (b: Block)
    requires Tiling(F, region)
    requires Aligned(r.addr, r.order) && Inside(r, region) && r !in F
    requires forall d :: d in F && d.order > r.order ==> !Covers(d, r.addr)
    ensures b in F && Buddy(b) in F
    decreases r.order
  {
    assert Covers(r, r.addr);
    var d :| d in F && Covers(d, r.addr);
    if d.order == r.order {
      SameClassSame(d, r, r.addr);
    }
    assert d.order < r.order;
    Halves(r);
    if Lo(r) in F && Hi(r) in F {
      return Lo(r);
    }
    var h := if Lo(r) in F then Hi(r) else Lo(r);
    assert Covers(h, h.addr) && Covers(r, h.addr);
    forall d | d in F && d.order > h.order ensures !Covers(d, h.addr) {
      if Covers(d, h.addr) {
        if d.order == r.order {
          SameClassSame(d, r, h.addr);
        } else {
          Nested(r, d, h.addr, r.addr);
        }
      }
    }
    b := FindBuddyPair(F, region, h);
  }

  lemma {:induction false} TileInside(F: set<Block>, region: iset<nat>, b: Block)
    requires Tiling(F, region) && b in F
    ensures Inside(b, region)
  {
    forall x: nat | Covers(b, x) ensures x in region { assert CoveredBy(F, x); }
  }

  /** Around a tile, no tile is big enough to reach over to the buddy. */
  lemma {:induction false} NothingOverBuddy(F: set<Block>, region: iset<nat>, b: Block, d: Block)
    requires Tiling(F, region) && b in F && d in F && d.order > b.order
    ensures !Covers(d, Buddy(b).addr)
  {
    ParentHalves(b);
    Halves(Parent(b));
    assert Covers(b, b.addr) && Covers(Buddy(b), Buddy(b).addr);
    if Covers(d, Buddy(b).addr) { Nested(Parent(b), d, Buddy(b).addr, b.addr); }
  }

  lemma {:induction false} TileIsMaximal(F: set<Block>, region: iset<nat>, b: Block)
    requires Tiling(F, region) && NoBuddies(F) && b in F
    ensures Inside(b, region) && !Inside(Parent(b), region)
  {
    TileInside(F, region, b);
    ParentHalves(b);
    Halves(Parent(b));
    var r := Buddy(b);
    if Inside(Parent(b), region) {
      forall d | d in F && d.order > r.order ensures !Covers(d, r.addr) { NothingOverBuddy(F, region, b, d); }
      assert Inside(r, region) by {
        forall x: nat | Covers(r, x) ensures x in region { assert Covers(Parent(b), x); }
      }
      var w := FindBuddyPair(F, region, r);
    }
  }

  /** A buddy-free tiling of a region is the set of maximal dyadic blocks inside that region, so it is unique. */
  lemma {:induction false} Canonical(F: set<Block>, region: iset<nat>, b: Block)
    requires Tiling(F, region) && NoBuddies(F) && Aligned(b.addr, b.order)
    ensures b in F <==> Inside(b, region) && !Inside(Parent(b), region)
  {
    if b in F {
      TileIsMaximal(F, region, b);
    } else if Inside(b, region) && !Inside(Parent(b), region) {
      assert Covers(b, b.addr);
      var d :| d in F && Covers(d, b.addr);
      TileIsMaximal(F, region, d);
      ParentHalves(b); ParentHalves(d);
      Halves(Parent(b)); Halves(Parent(d));
      if d.order == b.order {
        SameClassSame(b, d, b.addr);
      } else if d.order < b.order {
        forall x: nat | Covers(Parent(d), x) ensures x in region { Nested(Parent(d), b, b.addr, x); }
        assert false;
      } else {
        forall x: nat | Covers(Parent(b), x) ensures x in region { Nested(Parent(b), d, b.addr, x); }
        assert false;
      }
    }
  }

  lemma {:induction false} CanonicalUnique(F: set<Block>, G: set<Block>, region: iset<nat>)
    requires Tiling(F, region) && NoBuddies(F)
    requires Tiling(G, region) && NoBuddies(G)
    ensures F == G
  {
    forall b ensures b in F <==> b in G {
      if b in F || b in G {
        Canonical(F, region, b);
        Canonical(G, region, b);
      }
    }
  }
}

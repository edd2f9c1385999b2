/** Words as their bits, the highest first, and rotating them. */
module Bits {
  import opened Arith
  import opened Dyadic

  function Value(bits: seq<bool>): nat {
    if |bits| == 0 then 0 else 2 * Value(bits[..|bits| - 1]) + (if bits[|bits| - 1] then 1 else 0)
  }

  /** The lowest bit becomes the highest, all others move down. */
  function RotatedRight(bits: seq<bool>): seq<bool>
    requires |bits| > 0
  {
    [bits[|bits| - 1]] + bits[..|bits| - 1]
  }

  lemma {:induction false} FrontBit(b: bool, bits: seq<bool>)
    ensures Value([b] + bits) == (if b then Pow2(|bits|) else 0) + Value(bits)
    decreases |bits|
  {
    if |bits| == 0 {
      assert [b] + bits == [b] && [b][..0] == [];
    } else {
      var n, all := |bits| - 1, [b] + bits;
      assert all[..|all| - 1] == [b] + bits[..n] && all[|all| - 1] == bits[n];
      FrontBit(b, bits[..n]);
    }
  }

  /** High bits and low bits. */
  lemma {:induction false} ValueConcat(a: seq<bool>, b: seq<bool>)
    ensures Value(a + b) == Value(a) * Pow2(|b|) + Value(b) && Value(b) < Pow2(|b|)
    decreases |b|
  {
    hide Pow2;
    PowerUp(|b|);
    if |b| == 0 {
      assert a + b == a;
    } else {
      var n := |b| - 1;
      assert (a + b)[..|a + b| - 1] == a + b[..n] && (a + b)[|a + b| - 1] == b[n];
      ValueConcat(a, b[..n]);
      Double(Value(a), Pow2(n));
    }
  }

  lemma {:induction false} PowerUp(n: nat)
    ensures Pow2(n) == if n == 0 then 1 else 2 * Pow2(n - 1)
  {
  }

  lemma {:induction false} Double(x: nat, y: nat)
    ensures x * (2 * y) == 2 * (x * y)
  {
  }

  /** Rotating in numbers. */
  lemma {:induction false} RotatedValue(bits: seq<bool>)
    requires |bits| > 0
    ensures Value(RotatedRight(bits)) == Value(bits) % 2 * Pow2(|bits| - 1) + Value(bits) / 2
  {
    var n := |bits| - 1;
    FrontBit(bits[n], bits[..n]);
    assert Value(bits) % 2 == (if bits[n] then 1 else 0) && Value(bits) / 2 == Value(bits[..n]);
  }

  /** Rotating and adding is one to one: words of `p` values that differ still differ after it. */
  lemma {:induction false} RotateAddDiffers(c: nat, d: nat, b: nat, h: nat)
    requires c < 2 * h && d < 2 * h && c != d && h > 0
    ensures (c % 2 * h + c / 2 + b) % (2 * h) != (d % 2 * h + d / 2 + b) % (2 * h)
  {
    var x, y := c % 2 * h + c / 2, d % 2 * h + d / 2;
    assert 0 <= x < 2 * h && 0 <= y < 2 * h && x != y;
    SumsDiffer(x, y, b, 2 * h);
  }

  lemma {:induction false} SumsDiffer(x: nat, y: nat, b: nat, p: nat)
    requires x < p && y < p && x != y
    ensures (x + b) % p != (y + b) % p
  {
    if x < y { SumsApart(x, y, b, p); } else { SumsApart(y, x, b, p); }
  }

  lemma {:induction false} SumsApart(x: nat, y: nat, b: nat, p: nat)
    requires x < y < p
    ensures (x + b) % p != (y + b) % p
  {
    SameRemainder(x + b, y - x, p);
    DivUnique(y - x, p, 0, y - x);
  }
}

/** Facts about multiplication and division by a variable, each small enough to be proved on its own. */
module Arith {

  /** Multiplication is strictly monotonic, one whole step at a time. */
  lemma {:induction false} MulStep(m: nat, n: nat, p: nat)
    ensures m < n ==> m * p + p <= n * p
    ensures m <= n ==> m * p <= n * p
  {
    if m < n {
      MulStep(m, n - 1, p);
      assert n * p == (n - 1) * p + p;
    }
  }

  lemma {:induction false} DivUnique(x: nat, p: nat, q: nat, r: nat)
    requires p > 0 && x == q * p + r && r < p
    ensures x / p == q && x % p == r
  {
    var q', r' := x / p, x % p;
    assert x == q' * p + r';
    MulStep(q', q, p);
    MulStep(q, q', p);
  }

  lemma {:induction false} DivFacts(x: nat, p: nat)
    requires p > 0
    ensures x == (x / p) * p + x % p && 0 <= x % p < p && x / p >= 0
  {
  }

  /** The quotient and remainder of the successor. */
  lemma {:induction false} DivSucc(k: nat, m: nat)
    requires m > 0
    ensures (k + 1) % m == 0 ==> (k + 1) / m == k / m + 1
    ensures (k + 1) % m != 0 ==> (k + 1) / m == k / m && (k + 1) % m == k % m + 1
  {
    DivFacts(k, m);
    if k % m + 1 == m {
      assert (k / m + 1) * m == (k / m) * m + m;
      DivUnique(k + 1, m, k / m + 1, 0);
    } else {
      DivUnique(k + 1, m, k / m, k % m + 1);
    }
  }

  lemma {:induction false} DivBelow(k: nat, n: nat, m: nat)
    requires m > 0
    ensures k < n * m <==> k / m < n
  {
    DivFacts(k, m);
    MulStep(k / m, n, m);
    MulStep(n, k / m, m);
  }

  /** Two digits in base `m` determine the number and are determined by it. */
  lemma {:induction false} DigitsUnique(a: nat, s: nat, b: nat, t: nat, m: nat)
    requires s < m && t < m && a * m + s == b * m + t
    ensures a == b && s == t
  {
    MulStep(a, b, m);
    MulStep(b, a, m);
  }

  /** Dividing by a product is dividing twice; the middle digit is what the subtraction leaves. */
  lemma {:induction false} DivDiv(x: nat, m: nat)
    requires m > 0
    ensures x / (m * 512) == (x / 512) / m
    ensures (x - (x / (m * 512)) * (m * 512)) / 512 == (x / 512) % m
    ensures x % 512 == 0 ==> (x % (m * 512) == 0 <==> (x / 512) % m == 0)
  {
    var k, r := x / 512, x % 512;
    var q, d := k / m, k % m;
    DivFacts(k, m);
    assert k == q * m + d;
    assert q * (m * 512) == (q * m) * 512;
    assert x == q * (m * 512) + (d * 512 + r);
    assert d * 512 + r < m * 512;
    DivUnique(x, m * 512, q, d * 512 + r);
  }

  function CeilDiv(x: nat, p: nat): (r: nat)
    requires p > 0
  {
    (x + p - 1) / p
  }

  /** The rounded-up quotient is the least number of pieces that covers `x`. */
  lemma {:induction false} CeilBounds(x: nat, p: nat)
    requires p > 0
    ensures x <= CeilDiv(x, p) * p < x + p
    ensures CeilDiv(x, p) == 0 <==> x == 0
  {
    DivFacts(x + p - 1, p);
    MulStep(0, CeilDiv(x, p), p);
  }

  lemma {:induction false} CeilMono(x: nat, y: nat, p: nat)
    requires p > 0 && x <= y
    ensures CeilDiv(x, p) <= CeilDiv(y, p)
  {
    CeilBounds(x, p);
    CeilBounds(y, p);
    MulStep(CeilDiv(y, p), CeilDiv(x, p), p);
  }

  lemma {:induction false} CeilWithin(x: nat, k: nat, p: nat)
    requires p > 0 && x <= k * p
    ensures CeilDiv(x, p) <= k
  {
    CeilBounds(x, p);
    if CeilDiv(x, p) > k { MulStep(k + 1, CeilDiv(x, p), p); }
  }

  /** Rounding up: the least number of pieces that cover `x`. */
  lemma {:induction false} CeilExact(x: nat, p: nat, k: nat)
    requires p > 0
    ensures CeilDiv(x, p) == k <==> x <= k * p && (k > 0 ==> (k - 1) * p < x)
  {
    CeilBounds(x, p);
    var c := CeilDiv(x, p);
    if k > 0 { assert k * p == (k - 1) * p + p; }
    if c > 0 { assert c * p == (c - 1) * p + p; }
    if x <= k * p {
      CeilWithin(x, k, p);
      if c < k { MulStep(c, k - 1, p); }
    }
  }

  lemma {:induction false} SameRemainder(e: nat, d: nat, p: nat)
    requires p > 0
    ensures (e + d) % p == e % p <==> d % p == 0
  {
    DivFacts(e, p);
    DivFacts(d, p);
    var q, r := e / p + d / p, e % p + d % p;
    assert q * p == (e / p) * p + (d / p) * p;
    if r < p {
      DivUnique(e + d, p, q, r);
    } else {
      DivUnique(e + d, p, q + 1, r - p);
    }
  }

  lemma {:induction false} ModInner(a: nat, x: nat, p: nat)
    requires p > 0
    ensures (a + x) % p == (a + x % p) % p
  {
    DivFacts(x, p);
    var m: nat := (x / p) * p;
    DivUnique(m, p, x / p, 0);
    SameRemainder(a + x % p, m, p);
  }
}

/** Generation of 8.3 names that collide with none a directory holds. */
module ShortNames {
  import opened Arith
  import opened Basics
  import opened Bits
  import opened Bytes
  import opened Dyadic

  /** An 8.3 name: eight bytes and three, filled up with spaces. */
  type Name = s: seq<Byte> | |s| == 11 witness [32, 32, 32, 32, 32, 32, 32, 32, 32, 32, 32]

  const TILDE: Byte := 126

  // ---------- names as they are stored ----------

  /** A character of the long name as it goes into the short one; none for spaces and dots. */
  function Fix(c: char): Option<char> {
    if c == ' ' || c == '.' then None
    else if 'A' <= c <= 'Z' || 'a' <= c <= 'z' || '0' <= c <= '9' || c in "!#$%&'()-@^_`{}~" then Some(c)
    else Some('_')
  }

  function Upper(c: char): (r: Byte)
    requires c < '\U{80}'
  {
    if 'a' <= c <= 'z' then c as int - 32 else c as int
  }

  lemma {:induction false} FixIsAscii(c: char)
    ensures Fix(c).Some? ==> Fix(c).value < '\U{80}'
  {
  }

  /** All of a part of the name that can be stored. */
  function Fixed(src: string): seq<Byte> {
    if |src| == 0 then [] else
      var rest, c := Fixed(src[..|src| - 1]), Fix(src[|src| - 1]);
      FixIsAscii(src[|src| - 1]);
      if c.None? then rest else rest + [Upper(c.value)]
  }

  /** The bytes of an 8.3 name: capital letters, digits, and the marks !#$%&'()-@^_`{}~ by their codes. */
  predicate ShortByte(b: int) {
    || 65 <= b <= 90 || 48 <= b <= 57
    || b in {33, 35, 36, 37, 38, 39, 40, 41, 45, 64, 94, 95, 96, 123, 125, 126}
  }

  /** The code of a character, letters as capitals. */
  function Capital(c: char): int { if 97 <= c as int <= 122 then c as int - 32 else c as int }

  /** What becomes of one character: spaces and dots vanish, what an 8.3 name may hold is stored as a capital, all else
      as an underscore. */
  lemma {:induction false} OneFixed(c: char)
    ensures Fixed([c]) == if c as int in {32, 46} then [] else if ShortByte(Capital(c)) then [Capital(c)] else [95]
    ensures Fix(c) == Some(c) <==> c as int !in {32, 46} && ShortByte(Capital(c))
  {
    var src := [c];
    assert src[..0] == [] && src[0] == c;
    CodesOf(c);
    assert Fixed([]) == [];
  }

  lemma {:induction false} CodesOf(c: char)
    ensures c as int in {32, 46} <==> c == ' ' || c == '.'
    ensures ('A' <= c <= 'Z' <==> 65 <= c as int <= 90) && ('a' <= c <= 'z' <==> 97 <= c as int <= 122)
    ensures ShortByte(Capital(c)) <==>
            'A' <= c <= 'Z' || 'a' <= c <= 'z' || '0' <= c <= '9' || c in "!#$%&'()-@^_`{}~"
  {
    assert "!#$%&'()-@^_`{}~" == ['!', '#', '$', '%', '&', '\'', '(', ')', '-', '@', '^', '_', '`', '{', '}', '~'];
  }

  /** A part is stored character by character. */
  lemma {:induction false} FixedConcat(a: string, b: string)
    ensures Fixed(a + b) == Fixed(a) + Fixed(b)
    decreases |b|
  {
    hide Fix, Upper;
    if |b| == 0 {
      assert a + b == a;
    } else {
      var n := |b| - 1;
      assert (a + b)[..|a + b| - 1] == a + b[..n] && (a + b)[|a + b| - 1] == b[n];
      FixedConcat(a, b[..n]);
    }
  }

  /** Everything stored is a byte of an 8.3 name: no small letter, no dot, no space. */
  lemma {:induction false} FixedIsShort(src: string)
    ensures forall i :: 0 <= i < |Fixed(src)| ==> ShortByte(Fixed(src)[i])
    decreases |src|
  {
    if |src| > 0 {
      var n := |src| - 1;
      FixedIsShort(src[..n]);
      assert src[..n] + [src[n]] == src;
      FixedConcat(src[..n], [src[n]]);
      OneFixed(src[n]);
    }
  }

  /** Parts that differ in case only are stored alike. */
  lemma {:induction false} CaseBlind(a: string, b: string)
    requires |a| == |b| && forall i :: 0 <= i < |a| ==> Capital(a[i]) == Capital(b[i])
    ensures Fixed(a) == Fixed(b)
    decreases |a|
  {
    if |a| > 0 {
      var n := |a| - 1;
      CaseBlind(a[..n], b[..n]);
      assert a[..n] + [a[n]] == a && b[..n] + [b[n]] == b;
      FixedConcat(a[..n], [a[n]]);
      FixedConcat(b[..n], [b[n]]);
      OneFixed(a[n]);
      OneFixed(b[n]);
    }
  }

  /** Where nothing is lost the characters are all there, as capitals. */
  lemma {:induction false} LosslessStores(src: string)
    requires Lossless(src)
    ensures |Fixed(src)| == |src| && forall i :: 0 <= i < |src| ==> Fixed(src)[i] == Capital(src[i])
    decreases |src|
  {
    hide Fix, Upper, ShortByte, Capital;
    if |src| > 0 {
      var n := |src| - 1;
      assert forall i :: 0 <= i < n ==> src[..n][i] == src[i];
      LosslessStores(src[..n]);
      assert src[..n] + [src[n]] == src;
      FixedConcat(src[..n], [src[n]]);
      OneFixed(src[n]);
    }
  }

  /** Storing it lost nothing but case. */
  predicate Lossless(src: string) { forall i :: 0 <= i < |src| ==> Fix(src[i]) == Some(src[i]) }

  /** Where copying into `n` bytes stops: at the end, or at the first character there is no room for. */
  function Stop(src: string, n: nat, k: nat): (r: nat)
    requires k <= |src|
    ensures k <= r <= |src|
    decreases |src| - k
  {
    if k == |src| || |Fixed(src[..k])| >= n then k else Stop(src, n, k + 1)
  }

  /** The part of the name that is copied. */
  function Copied(src: string, n: nat): string { src[..Stop(src, n, 0)] }

  /** Copying stops where the field has just been filled, or with the part: no shorter prefix fills it. */
  lemma {:induction false} CopiedExactly(src: string, n: nat)
    ensures Copied(src, n) <= src && |Fixed(Copied(src, n))| <= n
    ensures forall j :: 0 <= j < |Copied(src, n)| ==> |Fixed(src[..j])| < n
    ensures Copied(src, n) != src ==> |Fixed(Copied(src, n))| == n
  {
    hide Fix, Upper;
    assert src[..0] == [];
    StopExactly(src, n, 0);
  }

  lemma {:induction false} StopExactly(src: string, n: nat, k: nat)
    requires k <= |src| && |Fixed(src[..k])| <= n && forall j :: 0 <= j < k ==> |Fixed(src[..j])| < n
    ensures var r := Stop(src, n, k);
            && |Fixed(src[..r])| <= n && (r < |src| ==> |Fixed(src[..r])| == n)
            && forall j :: 0 <= j < r ==> |Fixed(src[..j])| < n
    decreases |src| - k
  {
    hide Fix, Upper;
    if k < |src| && |Fixed(src[..k])| < n {
      assert src[..k + 1][..k] == src[..k];
      StopExactly(src, n, k + 1);
    } else {
      assert src[..|src|] == src;
    }
  }

  /** The field holds what can be stored of the part, and then spaces. */
  predicate Stored(field: seq<Byte>, part: string) {
    Fixed(part) <= field && forall i :: |Fixed(part)| <= i < |field| ==> field[i] == 32
  }

  /** A field of an 8.3 name: `k` bytes it may hold, and then spaces. */
  predicate Filled(field: seq<Byte>, k: nat) {
    && k <= |field| && (forall i :: 0 <= i < k ==> ShortByte(field[i]))
    && forall i :: k <= i < |field| ==> field[i] == 32
  }

  /** An 8.3 name as the standard allows it. */
  ghost predicate LegalName(n: Name) {
    (exists k: nat :: Filled(n[..8], k)) && exists k: nat :: Filled(n[8..], k)
  }

  lemma {:induction false} StoredFills(field: seq<Byte>, part: string)
    requires Stored(field, part)
    ensures Filled(field, |Fixed(part)|)
  {
    hide Fixed;
    FixedIsShort(part);
  }

  /** Copy a part of the name into `n` bytes. */
  method CopyShortNamePart(src: string, n: nat) returns (dst: seq<Byte>, len: nat, fits: bool, lossy: bool)
    ensures |dst| == n && len == |Fixed(Copied(src, n))| <= n && Stored(dst, Copied(src, n))
    ensures fits <==> Copied(src, n) == src
    ensures fits <==> forall j :: 0 <= j < |src| ==> |Fixed(src[..j])| < n
    ensures forall i :: 0 <= i < len ==> ShortByte(dst[i])
    ensures lossy <==> !Lossless(Copied(src, n))
  {
    hide Fix, Upper, Lossless;
    CopiedExactly(src, n);
    FixedIsShort(Copied(src, n));
    dst := seq(n, i => 32);
    len, lossy := 0, false;
    var k := 0;
    NothingLost();
    while k < |src|
      invariant 0 <= k <= |src| && |dst| == n && len <= n && Stop(src, n, k) == Stop(src, n, 0)
      invariant dst[..len] == Fixed(src[..k]) && (lossy <==> !Lossless(src[..k]))
      invariant forall i :: len <= i < n ==> dst[i] == 32
    {
      if len == n {
        return dst, len, false, lossy;
      }
      assert src[..k + 1][..k] == src[..k];
      LostMore(src, k);
      FixIsAscii(src[k]);
      var c := Fix(src[k]);
      if c.None? {
        lossy := true;
      } else {
        lossy := lossy || c.value != src[k];
        dst := dst[len := Upper(c.value)];
        len := len + 1;
      }
      k := k + 1;
    }
    assert src[..k] == src;
    fits := true;
  }

  lemma {:induction false} NothingLost()
    ensures forall src: string :: Lossless(src[..0])
  {
  }

  lemma {:induction false} LostMore(src: string, k: nat)
    requires k < |src|
    ensures Lossless(src[..k + 1]) <==> Lossless(src[..k]) && Fix(src[k]) == Some(src[k])
  {
    hide Fix;
    var p, q := src[..k], src[..k + 1];
    assert q[k] == src[k];
    if Lossless(q) {
      forall i | 0 <= i < |p| ensures Fix(p[i]) == Some(p[i]) { assert q[i] == p[i]; }
    }
    if Lossless(p) && Fix(src[k]) == Some(src[k]) {
      forall i | 0 <= i < |q| ensures Fix(q[i]) == Some(q[i]) {
        if i < k { assert p[i] == q[i]; }
      }
    }
  }

  // ---------- digits ----------

  function HexDigit(d: nat): Byte
    requires d < 16
  {
    if d < 10 then 48 + d else 55 + d
  }

  function HexValue(b: Byte): (v: Option<nat>)
    ensures v.Some? ==> v.value < 16
  {
    if 48 <= b <= 57 then Some(b - 48)
    else if 65 <= b <= 70 then Some(b - 55)
    else if 97 <= b <= 102 then Some(b - 87)
    else None
  }

  function Digit(b: Byte): (v: Option<nat>)
    ensures v.Some? ==> v.value < 10
  {
    if 48 <= b <= 57 then Some(b - 48) else None
  }

  function HexDigits(x: nat): (s: seq<Byte>)
    requires x < 0x1_0000
    ensures |s| == 4
  {
    [HexDigit(x / 0x1000), HexDigit(x / 0x100 % 16), HexDigit(x / 16 % 16), HexDigit(x % 16)]
  }

  /** A number of up to four hexadecimal digits; a leading plus sign is accepted. */
  function ParseHex(s: seq<Byte>): (v: Option<nat>)
    requires |s| == 4
    ensures v.Some? ==> v.value < 0x1_0000
  {
    var a, b, c, d := if s[0] == 43 then Some(0) else HexValue(s[0]), HexValue(s[1]), HexValue(s[2]), HexValue(s[3]);
    if a.Some? && b.Some? && c.Some? && d.Some? then Some(((a.value * 16 + b.value) * 16 + c.value) * 16 + d.value)
        else None
  }

  lemma {:induction false} HexRoundTrip(x: nat)
    requires x < 0x1_0000
    ensures ParseHex(HexDigits(x)) == Some(x)
  {
    hide HexDigit, HexValue;
    OneDigit(x / 0x1000);
    OneDigit(x / 0x100 % 16);
    OneDigit(x / 16 % 16);
    OneDigit(x % 16);
    Sixteenth(x, 16);
    Sixteenth(x, 0x100);
    DivFacts(x, 16);
    DivFacts(x / 16, 16);
    DivFacts(x / 0x100, 16);
  }

  lemma {:induction false} Sixteenth(x: nat, m: nat)
    requires m > 0
    ensures x / (16 * m) == x / m / 16
  {
    DivFacts(x, m);
    DivFacts(x / m, 16);
    var k: nat, s: nat, r: nat := x / m / 16, x / m % 16, x % m;
    assert x == k * (16 * m) + (s * m + r);
    MulStep(s, 16, m);
    DivUnique(x, 16 * m, k, s * m + r);
  }

  lemma {:induction false} OneDigit(d: nat)
    requires d < 16
    ensures HexValue(HexDigit(d)) == Some(d) && HexDigit(d) != 43
  {
  }

  lemma {:induction false} DigitCodes(d: nat)
    requires d < 16
    ensures "0123456789ABCDEF"[d] as int == (if d < 10 then 48 + d else 55 + d)
  {
    assert '0' as int == 48 && 'A' as int == 65;
  }

  /** The digits are those of the number, the most significant first, and may stand in an 8.3 name. */
  lemma {:induction false} HexDigitsAre(x: nat)
    requires x < 0x1_0000
    ensures var h := HexDigits(x);
            && h[0] == "0123456789ABCDEF"[x / 0x1000] as int && h[1] == "0123456789ABCDEF"[x / 0x100 % 16] as int
            && h[2] == "0123456789ABCDEF"[x / 16 % 16] as int && h[3] == "0123456789ABCDEF"[x % 16] as int
            && forall i :: 0 <= i < 4 ==> ShortByte(h[i])
  {
    DigitCodes(x / 0x1000);
    DigitCodes(x / 0x100 % 16);
    DigitCodes(x / 16 % 16);
    DigitCodes(x % 16);
  }

  /** What counts as a digit, decimal or hexadecimal in either case. */
  lemma {:induction false} DigitsRead(b: Byte, v: nat)
    ensures v < 10 ==> (Digit(b) == Some(v) <==> b == 48 + v)
    ensures v < 10 ==> (HexValue(b) == Some(v) <==> b == 48 + v)
    ensures 10 <= v < 16 ==> (HexValue(b) == Some(v) <==> b == 55 + v || b == 87 + v)
    ensures Digit(b).Some? ==> Digit(b).value < 10
  {
  }

  /** Four bytes parse to what their digits stand for, the first being a digit or a plus sign. */
  lemma {:induction false} HexRead(s: seq<Byte>, a: nat, b: nat, c: nat, d: nat)
    requires |s| == 4 && a < 16 && HexValue(s[1]) == Some(b) && HexValue(s[2]) == Some(c) && HexValue(s[3]) == Some(d)
    ensures HexValue(s[0]) == Some(a) ==> ParseHex(s) == Some(0x1000 * a + 0x100 * b + 16 * c + d)
    ensures s[0] == 43 ==> ParseHex(s) == Some(0x100 * b + 16 * c + d)
  {
    hide HexValue;
    if HexValue(s[0]) == Some(a) { NotPlus(s[0]); }
  }

  lemma {:induction false} NotPlus(b: Byte)
    ensures HexValue(b).Some? ==> b != 43
  {
  }

  // ---------- collisions ----------

  function Short(len: nat, most: nat): nat { if len < most then len else most }

  /** The digit that an existing name takes from the form `PREFIX~1.EXT`. */
  function LongHit(base: Name, len: nat, e: Name): (d: Option<nat>)
    requires len <= 8
    ensures d.Some? ==> d.value < 10
  {
    var p := Short(len, 6);
    if e[p] == TILDE && e[..p] == base[..p] && e[8..] == base[8..] then Digit(e[p + 1]) else None
  }

  /** The checksum and the digit that an existing name takes from the form `PR1A2B~1.EXT`. */
  function SumHit(base: Name, len: nat, e: Name): (h: Option<(nat, nat)>)
    requires len <= 8
  {
    var p := Short(len, 2);
    if e[p + 4] == TILDE && Digit(e[p + 5]).Some? && e[..p] == base[..p] && e[8..] == base[8..] &&
        ParseHex(e[p..p + 4]).Some?
    then Some((ParseHex(e[p..p + 4]).value, Digit(e[p + 5]).value))
    else None
  }

  /** A name from what stands before the padding, and the extension. */
  function Assemble(front: seq<Byte>, ext: seq<Byte>): (r: Name)
    requires |front| <= 8 && |ext| == 3
    ensures r[..|front|] == front && r[8..] == ext && forall i :: |front| <= i < 8 ==> r[i] == 32
  {
    front + seq(8 - |front|, i => 32) + ext
  }

  /** A numbered name. */
  function Numbered(base: Name, len: nat, sum: Option<nat>, d: nat): (r: Name)
    requires len <= 8 && 1 <= d < 10 && (sum.Some? ==> sum.value < 0x1_0000)
  {
    var head := if sum.None? then base[..Short(len, 6)] else base[..Short(len, 2)] + HexDigits(sum.value);
    Assemble(head + [TILDE, 48 + d], base[8..])
  }

  /** A numbered name keeps the first six characters, or two and the checksum in hexadecimal, before the tilde and the
      digit; and the extension. */
  lemma {:induction false} NumberedIs(base: Name, len: nat, sum: Option<nat>, d: nat)
    requires len <= 8 && 1 <= d < 10 && (sum.Some? ==> sum.value < 0x1_0000)
    ensures var r := Numbered(base, len, sum, d);
            && r[8..] == base[8..]
            && (sum.None? ==> var p := if len < 6 then len else 6;
                              r[..p] == base[..p] && r[p] == 126 && r[p + 1] == 48 + d && Filler(r, p + 2))
            && (sum.Some? ==> var p := if len < 2 then len else 2;
                              && r[..p] == base[..p] && ParseHex(r[p..p + 4]) == Some(sum.value)
                              && r[p + 4] == 126 && r[p + 5] == 48 + d && Filler(r, p + 6))
  {
    hide Assemble, ParseHex, HexDigits;
    var r := Numbered(base, len, sum, d);
    if sum.None? {
      var p := Short(len, 6);
      Front(r, base[..p], [126, 48 + d]);
    } else {
      var p, h := Short(len, 2), HexDigits(sum.value);
      HexRoundTrip(sum.value);
      Front(r, base[..p] + h, [126, 48 + d]);
      assert r[..p + 4][..p] == r[..p] && r[..p + 4][p..] == r[p..p + 4];
    }
  }

  lemma {:induction false} Front(r: Name, a: seq<Byte>, b: seq<Byte>)
    requires |a| + |b| <= 8 && r[..|a| + |b|] == a + b && |b| == 2
    ensures r[..|a|] == a && r[|a|] == b[0] && r[|a| + 1] == b[1]
  {
    var all := r[..|a| + |b|];
    assert all[..|a|] == r[..|a|] && all[|a|] == b[0] && all[|a| + 1] == b[1];
  }

  /** Spaces from `k` to the extension. */
  predicate Filler(n: Name, k: nat) { forall i :: k <= i < 8 ==> n[i] == 32 }

  /** A number is taken by exactly the names that agree with the one it would give, up to the digit and in the
      extension. */
  lemma {:induction false} TakenExactly(base: Name, len: nat, d: nat, e: Name)
    requires len <= 8 && 1 <= d < 10
    ensures var p := if len < 6 then len else 6;
            LongHit(base, len, e) == Some(d) <==>
              e[..p + 2] == Numbered(base, len, None, d)[..p + 2] && e[8..] == Numbered(base, len, None, d)[8..]
  {
    hide Numbered;
    NumberedIs(base, len, None, d);
    var p, r := Short(len, 6), Numbered(base, len, None, d);
    assert e[..p + 2][..p] == e[..p] && r[..p + 2][..p] == r[..p];
    if LongHit(base, len, e) == Some(d) {
      forall i | 0 <= i < p + 2 ensures e[i] == r[i] {
        if i < p { assert e[..p][i] == r[..p][i]; }
      }
    }
    if e[..p + 2] == r[..p + 2] && e[8..] == r[8..] {
      assert e[p] == e[..p + 2][p] && e[p + 1] == e[..p + 2][p + 1];
      assert r[p] == r[..p + 2][p] && r[p + 1] == r[..p + 2][p + 1];
    }
  }

  /** A numbered name is as legal as the name it is made from. */
  lemma {:induction false} NumberedIsLegal(base: Name, len: nat, sum: Option<nat>, d: nat)
    requires len <= 8 && 1 <= d < 10 && (sum.Some? ==> sum.value < 0x1_0000)
    requires Filled(base[..8], len) && exists k: nat :: Filled(base[8..], k)
    ensures LegalName(Numbered(base, len, sum, d))
  {
    hide Numbered, HexDigits;
    NumberedIs(base, len, sum, d);
    var r := Numbered(base, len, sum, d);
    var p := if sum.None? then Short(len, 6) else Short(len, 2);
    var q := if sum.None? then p + 2 else p + 6;
    NumberedHead(base, len, sum, d);
    forall i | 0 <= i < q ensures ShortByte(r[..8][i]) {
      if i < p { assert r[..p][i] == base[..p][i] == base[..8][i]; }
    }
    assert Filled(r[..8], q);
  }

  lemma {:induction false} NumberedHead(base: Name, len: nat, sum: Option<nat>, d: nat)
    requires len <= 8 && 1 <= d < 10 && (sum.Some? ==> sum.value < 0x1_0000)
    ensures var r, p := Numbered(base, len, sum, d), if sum.None? then Short(len, 6) else Short(len, 2);
            forall i :: p <= i < (if sum.None? then p + 2 else p + 6) ==> ShortByte(r[i])
  {
    hide HexDigits;
    var r := Numbered(base, len, sum, d);
    if sum.None? {
      Front(r, base[..Short(len, 6)], [126, 48 + d]);
    } else {
      var p, h := Short(len, 2), HexDigits(sum.value);
      HexDigitsAre(sum.value);
      Front(r, base[..p] + h, [126, 48 + d]);
      var head := base[..p] + h;
      assert r[..p + 4] == head;
      assert r[p] == head[p] && r[p + 1] == head[p + 1] && r[p + 2] == head[p + 2] && r[p + 3] == head[p + 3];
    }
  }

  /** A numbered name takes its own number. */
  lemma {:induction false} NumberedHits(base: Name, len: nat, sum: Option<nat>, d: nat)
    requires len <= 8 && 1 <= d < 10 && (sum.Some? ==> sum.value < 0x1_0000)
    ensures sum.None? ==> LongHit(base, len, Numbered(base, len, sum, d)) == Some(d)
    ensures sum.Some? ==> SumHit(base, len, Numbered(base, len, sum, d)) == Some((sum.value, d))
  {
    hide Numbered, ParseHex;
    NumberedIs(base, len, sum, d);
  }

  ghost predicate LongMarked(base: Name, len: nat, seen: seq<Name>, taken: set<nat>)
    requires len <= 8
  {
    forall d :: d in taken <==> exists k :: 0 <= k < |seen| && LongHit(base, len, seen[k]) == Some(d)
  }

  ghost predicate SumMarked(base: Name, len: nat, seen: seq<Name>, sum: nat, taken: set<nat>)
    requires len <= 8
  {
    forall d :: d in taken <==> exists k :: 0 <= k < |seen| && SumHit(base, len, seen[k]) == Some((sum, d))
  }

  lemma {:induction false} LongMarkedMore(base: Name, len: nat, seen: seq<Name>, taken: set<nat>, e: Name)
    requires len <= 8 && LongMarked(base, len, seen, taken)
    ensures var h := LongHit(base, len, e);
            LongMarked(base, len, seen + [e], if h.Some? then taken + {h.value} else taken)
  {
    hide LongHit;
    var h, g := LongHit(base, len, e), seen + [e];
    var taken' := if h.Some? then taken + {h.value} else taken;
    assert g[|seen|] == e;
    forall d ensures d in taken' <==> exists k :: 0 <= k < |g| && LongHit(base, len, g[k]) == Some(d) {
      if d in taken {
        var k :| 0 <= k < |seen| && LongHit(base, len, seen[k]) == Some(d);
        assert g[k] == seen[k];
      }
    }
  }

  lemma {:induction false} SumMarkedMore(base: Name, len: nat, seen: seq<Name>, sum: nat, taken: set<nat>, e: Name)
    requires len <= 8 && SumMarked(base, len, seen, sum, taken)
    ensures var h := SumHit(base, len, e);
            SumMarked(base, len, seen + [e], sum, if h.Some? && h.value.0 == sum then taken + {h.value.1} else taken)
  {
    hide SumHit;
    var h, g := SumHit(base, len, e), seen + [e];
    var taken' := if h.Some? && h.value.0 == sum then taken + {h.value.1} else taken;
    assert g[|seen|] == e;
    forall d ensures d in taken' <==> exists k :: 0 <= k < |g| && SumHit(base, len, g[k]) == Some((sum, d)) {
      if d in taken {
        var k :| 0 <= k < |seen| && SumHit(base, len, seen[k]) == Some((sum, d));
        assert g[k] == seen[k];
      }
    }
  }

  ghost predicate AllTaken(taken: set<nat>, end: nat) { forall d :: 1 <= d < end ==> d in taken }

  // ---------- the generator ----------

  class ShortNameGenerator {
    const base: Name
    const baseLen: nat
    const nameFits: bool
    const lossyConv: bool
    var chksum: nat
    var longTaken: set<nat>
    var sumTaken: set<nat>
    var exactMatch: bool
    ghost var seen: seq<Name>

    constructor (name: string)
      ensures Valid() && seen == [] && chksum == Checksum(name)
      ensures Stored(base[..8], Copied(BasePart(name), 8)) && Stored(base[8..], Copied(ExtPart(name), 3))
      ensures LegalName(base)
      ensures baseLen == |Fixed(Copied(BasePart(name), 8))|
      ensures nameFits <==> Copied(BasePart(name), 8) == BasePart(name) && Copied(ExtPart(name), 3) == ExtPart(name)
      ensures lossyConv <==> !Lossless(Copied(BasePart(name), 8)) || !Lossless(Copied(ExtPart(name), 3))
    {
      hide Fixed, Lossless, Stop;
      var dot := LastDot(name);
      var b, blen, bfits, blossy := CopyShortNamePart(name[..dot], 8);
      var e, _, efits, elossy := CopyShortNamePart(if dot < |name| then name[dot + 1..] else [], 3);
      base := b + e;
      assert (b + e)[..8] == b && (b + e)[8..] == e;
      StoredFills(b, Copied(BasePart(name), 8));
      StoredFills(e, Copied(ExtPart(name), 3));
      baseLen := blen;
      nameFits := bfits && efits;
      lossyConv := blossy || elossy;
      chksum := Checksum(name);
      longTaken, sumTaken, exactMatch := {}, {}, false;
      seen := [];
    }

    /** The numbers taken are those of the names seen, in the second form those for this checksum. */
    ghost predicate Valid()
      reads this
    {
      && baseLen <= 8 && chksum < 0x1_0000
      && Filled(base[..8], baseLen) && (exists k: nat :: Filled(base[8..], k))
      && (base in seen ==> exactMatch)
      && LongMarked(base, baseLen, seen, longTaken)
      && SumMarked(base, baseLen, seen, chksum, sumTaken)
    }

    method AddExisting(e: Name)
      requires Valid()
      modifies this`longTaken, this`sumTaken, this`exactMatch, this`seen
      ensures Valid() && seen == old(seen) + [e] && (exactMatch <==> old(exactMatch) || e == base)
    {
      hide LongMarked, SumMarked, Digit, ParseHex, Filled;
      LongMarkedMore(base, baseLen, seen, longTaken, e);
      SumMarkedMore(base, baseLen, seen, chksum, sumTaken, e);
      if e == base {
        exactMatch := true;
      }
      var p := Short(baseLen, 6);
      var d := if e[p] == TILDE then Digit(e[p + 1]) else None;
      var ext := e[8..] == base[8..];
      if e[..p] == base[..p] && d.Some? && ext {
        longTaken := longTaken + {d.value};
      }
      p := Short(baseLen, 2);
      d := if e[p + 4] == TILDE then Digit(e[p + 5]) else None;
      if e[..p] == base[..p] && d.Some? && ext {
        if ParseHex(e[p..p + 4]) == Some(chksum) {
          sumTaken := sumTaken + {d.value};
        }
      }
      seen := seen + [e];
    }

    /** A name that is none of those seen: the plain one, else the first free number up to 4, else the first free one
        with the checksum. */
    method Generate() returns (r: Option<Name>)
      requires Valid()
      ensures r.Some? ==> r.value !in seen && LegalName(r.value)
      ensures r.None? ==> AllTaken(sumTaken, 10)
      ensures var plain := !lossyConv && nameFits && !exactMatch;
              && (plain ==> r == Some(base))
              && (!plain && !AllTaken(longTaken, 5) ==> Picked(r, longTaken, None, 5))
              && (!plain && AllTaken(longTaken, 5) && !AllTaken(sumTaken, 10) ==> Picked(r, sumTaken, Some(chksum), 10))
              && (!plain && AllTaken(longTaken, 5) && AllTaken(sumTaken, 10) ==> r.None?)
    {
      hide LongHit, SumHit, Numbered, Filled;
      if !lossyConv && nameFits && !exactMatch {
        return Some(base);
      }
      for i := 1 to 5
        invariant AllTaken(longTaken, i)
      {
        if i !in longTaken {
          NumberedHits(base, baseLen, None, i);
          NumberedIsLegal(base, baseLen, None, i);
          return Some(Numbered(base, baseLen, None, i));
        }
      }
      for i := 1 to 10
        invariant AllTaken(sumTaken, i)
      {
        if i !in sumTaken {
          NumberedHits(base, baseLen, Some(chksum), i);
          NumberedIsLegal(base, baseLen, Some(chksum), i);
          return Some(Numbered(base, baseLen, Some(chksum), i));
        }
      }
      r := None;
    }

    /** The name with the first number below `end` that is not taken. */
    ghost predicate Picked(r: Option<Name>, taken: set<nat>, sum: Option<nat>, end: nat)
      requires baseLen <= 8 && end <= 10 && (sum.Some? ==> sum.value < 0x1_0000)
    {
      exists d :: 1 <= d < end && d !in taken && AllTaken(taken, d) && r == Some(Numbered(base, baseLen, sum, d))
    }

    method NextIteration()
      requires Valid()
      modifies this`chksum, this`longTaken, this`sumTaken, this`seen
      ensures Valid() && seen == [] && chksum == (old(chksum) + 1) % 0x1_0000
    {
      chksum := (chksum + 1) % 0x1_0000;
      longTaken, sumTaken := {}, {};
      seen := [];
    }
  }

  /** Position of the last dot, or the length of the name. */
  function LastDot(name: string): (i: nat)
    ensures i <= |name| && (i < |name| ==> name[i] == '.') && forall k :: i < k < |name| ==> name[k] != '.'
    ensures i == |name| ==> '.' !in name
  {
    if |name| == 0 then 0
    else if name[|name| - 1] == '.' then |name| - 1
    else
      var i := LastDot(name[..|name| - 1]);
      if i == |name| - 1 then |name| else i
  }

  function BasePart(name: string): string { name[..LastDot(name)] }

  function ExtPart(name: string): string { if LastDot(name) < |name| then name[LastDot(name) + 1..] else [] }

  /** The two parts are what stands before and behind the last dot; a name without a dot has no extension. */
  lemma {:induction false} PartsOfName(name: string)
    ensures if '.' in name then name == BasePart(name) + "." + ExtPart(name) && '.' !in ExtPart(name)
            else BasePart(name) == name && ExtPart(name) == []
  {
    hide LastDot;
    var i := LastDot(name);
    if i < |name| {
      assert name == name[..i] + [name[i]] + name[i + 1..];
    }
  }

  /** Rotate right and add, in 16 bits. */
  function Checksum(name: string): (c: nat)
    ensures c < 0x1_0000
  {
    if |name| == 0 then 0 else
      var c := Checksum(name[..|name| - 1]);
      (c / 2 + c % 2 * 0x8000 + name[|name| - 1] as int) % 0x1_0000
  }

  /** One more character: the sixteen bits of the checksum so far are rotated right, and the low sixteen bits of the
      character's code are added. */
  lemma {:induction false} ChecksumStep(name: string, c: char, bits: seq<bool>)
    requires |bits| == 16 && Value(bits) == Checksum(name)
    ensures Checksum(name + [c]) == (Value(RotatedRight(bits)) + c as int % 0x1_0000) % 0x1_0000 && Checksum([]) == 0
  {
    hide RotatedRight;
    var t := name + [c];
    assert t[..|t| - 1] == name && t[|t| - 1] == c;
    RotatedValue(bits);
    assert Pow2(15) == 0x8000 by { assert Pow2(5) == 32 && Pow2(10) == 1024; }
    ModInner(Value(RotatedRight(bits)), c as int, 0x1_0000);
  }

  // ---------- the retry loop ----------

  /** The checksums and numbers taken by the names of a directory: at most one by each. */
  ghost function Taken(base: Name, len: nat, names: seq<Name>): (t: set<(nat, nat)>)
    requires len <= 8
    ensures |t| <= |names|
    ensures forall k :: 0 <= k < |names| && SumHit(base, len, names[k]).Some? ==> SumHit(base, len, names[k]).value in t
  {
    if |names| == 0 then {} else
      var rest, h := Taken(base, len, names[..|names| - 1]), SumHit(base, len, names[|names| - 1]);
      if h.None? then rest else rest + {h.value}
  }

  /** The checksum of the `k`-th attempt. */
  function SumAt(c: nat, k: nat): nat { (c + k) % 0x1_0000 }

  lemma {:induction false} SumSteps(c: nat, k: nat)
    ensures SumAt(c, k + 1) == (SumAt(c, k) + 1) % 0x1_0000 && (c < 0x1_0000 ==> SumAt(c, 0) == c)
  {
  }

  /** Nine numbers for each of the first `n` checksums. */
  ghost function Tried(c: nat, n: nat): (t: set<(nat, nat)>)
    requires n <= 0x1_0000
    ensures forall p :: p in t ==> exists k :: 0 <= k < n && p.0 == SumAt(c, k)
    ensures |t| == 9 * n
  {
    if n == 0 then {} else
      var rest, nine := Tried(c, n - 1), Nine(SumAt(c, n - 1));
      Fresh(c, n);
      assert rest !! nine;
      rest + nine
  }

  ghost function Nine(s: nat): (t: set<(nat, nat)>)
    ensures |t| == 9 && forall p :: p in t <==> p.0 == s && 1 <= p.1 < 10
  {
    {(s, 1), (s, 2), (s, 3), (s, 4), (s, 5), (s, 6), (s, 7), (s, 8), (s, 9)}
  }

  lemma {:induction false} Fresh(c: nat, n: nat)
    requires 0 < n <= 0x1_0000
    ensures forall k :: 0 <= k < n - 1 ==> SumAt(c, k) != SumAt(c, n - 1)
  {
  }

  /** Pigeonhole: `n` failed attempts have found nine names of the directory each. */
  lemma {:induction false} AttemptsBounded(base: Name, len: nat, names: seq<Name>, c: nat, n: nat)
    requires len <= 8 && n <= 0x1_0000
    requires forall k, d :: 0 <= k < n && 1 <= d < 10 ==> (SumAt(c, k), d) in Taken(base, len, names)
    ensures 9 * n <= |names|
  {
    hide SumAt, Taken;
    TriedAre(c, n);
    SubsetSize(Tried(c, n), Taken(base, len, names));
  }

  lemma {:induction false} TriedAre(c: nat, n: nat)
    requires n <= 0x1_0000
    ensures forall p :: p in Tried(c, n) ==> 1 <= p.1 < 10 && exists k :: 0 <= k < n && p.0 == SumAt(c, k)
  {
    hide SumAt;
    if n > 0 { TriedAre(c, n - 1); }
  }

  /** One entry a directory scan yields: its raw short name, whether it has the wanted name, and its kind. */
  datatype Entry = Entry(raw: Name, matches: bool, isDir: bool)

  datatype FindResult = Found(k: nat) | WrongKind | NotFound

  datatype CheckResult = Existing(k: nat) | OtherKind | ShortName(name: Name)

  ghost predicate FirstMatch(dir: seq<Entry>, k: nat) {
    k < |dir| && dir[k].matches && forall i :: 0 <= i < k ==> !dir[i].matches
  }

  /** Look for the name; every entry passed on the way is shown to the generator. */
  method FindEntry(dir: seq<Entry>, isDir: Option<bool>, gen: ShortNameGenerator) returns (r: FindResult)
    requires gen.Valid() && gen.seen == []
    modifies gen`longTaken, gen`sumTaken, gen`exactMatch, gen`seen
    ensures gen.Valid()
    ensures r.Found? ==> FirstMatch(dir, r.k) && (isDir.Some? ==> dir[r.k].isDir == isDir.value)
    ensures r.WrongKind? ==> exists k: nat :: FirstMatch(dir, k) && isDir == Some(!dir[k].isDir)
    ensures r.NotFound? ==> (forall i :: 0 <= i < |dir| ==> !dir[i].matches) && gen.seen == Raws(dir)
  {
    hide LongMarked, SumMarked;
    for k := 0 to |dir|
      invariant gen.Valid() && gen.seen == Raws(dir[..k]) && forall i :: 0 <= i < k ==> !dir[i].matches
    {
      assert dir[..k + 1][..k] == dir[..k];
      if dir[k].matches {
        assert FirstMatch(dir, k);
        if isDir.Some? && dir[k].isDir != isDir.value {
          return WrongKind;
        }
        return Found(k);
      }
      gen.AddExisting(dir[k].raw);
    }
    assert dir[..|dir|] == dir;
    r := NotFound;
  }

  function Raws(dir: seq<Entry>): (s: seq<Name>)
    ensures |s| == |dir| && forall k :: 0 <= k < |dir| ==> s[k] == dir[k].raw
  {
    if |dir| == 0 then [] else Raws(dir[..|dir| - 1]) + [dir[|dir| - 1].raw]
  }

  /** The entry of that name, or a short name that no entry has: found after a bounded number of attempts in every
      directory with fewer than 9 * 65536 entries. */
  method CheckForExistence(dir: seq<Entry>, name: string, isDir: Option<bool>) returns (r: CheckResult)
    requires |dir| < 9 * 0x1_0000
    ensures r.Existing? ==> FirstMatch(dir, r.k) && (isDir.Some? ==> dir[r.k].isDir == isDir.value)
    ensures r.OtherKind? ==> exists k: nat :: FirstMatch(dir, k) && isDir == Some(!dir[k].isDir)
    ensures r.ShortName? ==> LegalName(r.name) && forall i :: 0 <= i < |dir| ==> !dir[i].matches && dir[i].raw != r.name
  {
    hide LegalName, Filled, SumAt, Taken, SumMarked, LongMarked, FirstMatch, Raws, AllTaken, Checksum, Stored,
        ShortNameGenerator.Picked;
    var gen := new ShortNameGenerator(name);
    ghost var n, c := 0, gen.chksum;
    SumSteps(c, 0);
    while true
      invariant gen.Valid() && gen.seen == [] && fresh(gen) && 0 <= n < 0x1_0000 && gen.chksum == SumAt(c, n) &&
                c < 0x1_0000
      invariant forall k, d :: 0 <= k < n && 1 <= d < 10 ==> (SumAt(c, k), d) in Taken(gen.base, gen.baseLen, Raws(dir))
      decreases 0x1_0000 - n
    {
      var found := FindEntry(dir, isDir, gen);
      match found {
        case Found(k) => return Existing(k);
        case WrongKind => return OtherKind;
        case NotFound =>
      }
      var short := gen.Generate();
      if short.Some? {
        return ShortName(short.value);
      }
      NineTaken(gen.base, gen.baseLen, Raws(dir), gen.chksum, gen.sumTaken);
      AttemptsBounded(gen.base, gen.baseLen, Raws(dir), c, n + 1);
      SumSteps(c, n);
      gen.NextIteration();
      n := n + 1;
    }
  }

  lemma {:induction false} NineTaken(base: Name, len: nat, names: seq<Name>, sum: nat, taken: set<nat>)
    requires len <= 8 && SumMarked(base, len, names, sum, taken) && AllTaken(taken, 10)
    ensures forall d :: 1 <= d < 10 ==> (sum, d) in Taken(base, len, names)
  {
    hide SumHit;
    forall d | 1 <= d < 10 ensures (sum, d) in Taken(base, len, names) {
      var k :| 0 <= k < |names| && SumHit(base, len, names[k]) == Some((sum, d));
    }
  }
}

/** Cluster chains in the kernel's FAT: entries, links, free entries, and what linking and freeing do to them. */
module KernelChain {
  import opened Basics

  const FREE: nat := 0
  const BAD: nat := 0x0FFF_FFF7
  const END: nat := 0x0FFF_FFF8

  /** `count_claster_num` takes any larger number for the end of a chain. */
  const MAX_CLUSTER: nat := 0xF00_0000

  type Table = seq<nat>

  predicate IsEnd(v: nat) { v % 0x1000_0000 >= END }

  /** What `get_next_cluster` makes of an entry; both copies of the table agree. */
  function NextOf(v: nat): nat { if v == BAD then 0 else v % 0x1000_0000 }

  /** The entries link exactly the clusters of `s`, in this order, and the last one ends the chain. */
  ghost predicate IsChain(fat: Table, s: seq<nat>) {
    && (forall i :: 0 <= i < |s| ==> 2 <= s[i] < |fat|)
    && (forall i :: 0 <= i < |s| - 1 ==> fat[s[i]] == s[i + 1])
    && (|s| > 0 ==> IsEnd(fat[s[|s| - 1]]))
    && NoDup(s)
  }

  /** One link of a walk. */
  lemma {:induction false} ChainNext(fat: Table, s: seq<nat>, i: nat)
    requires IsChain(fat, s) && i < |s| && |fat| <= MAX_CLUSTER
    ensures i + 1 < |s| ==> NextOf(fat[s[i]]) == s[i + 1] && 2 <= s[i + 1] < MAX_CLUSTER
    ensures i + 1 == |s| ==> NextOf(fat[s[i]]) >= END
  {
  }

  /** Changing an entry outside a chain leaves the chain. */
  lemma {:induction false} ChainFrame(fat: Table, fat': Table, s: seq<nat>)
    requires IsChain(fat, s) && |fat'| == |fat|
    requires forall i :: 0 <= i < |s| ==> fat'[s[i]] == fat[s[i]]
    ensures IsChain(fat', s)
  {
  }

  /** Two chains from the same cluster are the same chain. */
  lemma {:induction false} ChainUnique(fat: Table, s: seq<nat>, t: seq<nat>, k: nat)
    requires IsChain(fat, s) && IsChain(fat, t) && |fat| <= MAX_CLUSTER
    requires |s| > 0 && |t| > 0 && s[0] == t[0]
    requires k < |s|
    ensures k < |t| && s[k] == t[k]
  {
    if k > 0 {
      ChainUnique(fat, s, t, k - 1);
      ChainNext(fat, s, k - 1);
      ChainNext(fat, t, k - 1);
    }
  }

  // ---------- free entries ----------

  /** The number of zero entries in `[lo, |fat|)`. */
  function ZeroCount(fat: Table, lo: nat): (r: nat)
    requires lo <= |fat|
    decreases |fat| - lo
  {
    if lo == |fat| then 0 else (if fat[lo] == FREE then 1 else 0) + ZeroCount(fat, lo + 1)
  }

  lemma {:induction false} ZeroCountUpdate(fat: Table, lo: nat, c: nat, v: nat)
    requires lo <= |fat| && c < |fat|
    ensures var d := (if v == FREE then 1 else 0) - (if fat[c] == FREE then 1 else 0);
            ZeroCount(fat[c := v], lo) == ZeroCount(fat, lo) + (if lo <= c then d else 0)
    decreases |fat| - lo
  {
    if lo < |fat| { ZeroCountUpdate(fat, lo + 1, c, v); }
  }

  /** The first zero entry from `lo` on. */
  function FirstZero(fat: Table, lo: nat): (c: nat)
    requires lo <= |fat|
    ensures lo <= c <= |fat| && (forall k :: lo <= k < c ==> fat[k] != FREE) && (c < |fat| ==> fat[c] == FREE)
    decreases |fat| - lo
  {
    if lo == |fat| || fat[lo] == FREE then lo else FirstZero(fat, lo + 1)
  }

  lemma {:induction false} SomeZero(fat: Table, lo: nat)
    requires lo <= |fat|
    ensures ZeroCount(fat, lo) > 0 <==> FirstZero(fat, lo) < |fat|
    ensures FirstZero(fat, lo) < |fat| ==> ZeroCount(fat, FirstZero(fat, lo) + 1) == ZeroCount(fat, lo) - 1
    decreases |fat| - lo
  {
    if lo < |fat| && fat[lo] != FREE { SomeZero(fat, lo + 1); }
  }

  lemma {:induction false} FirstZeroAgrees(fat: Table, fat': Table, lo: nat)
    requires |fat| == |fat'| && lo <= |fat| && forall k :: lo <= k < |fat| ==> fat[k] == fat'[k]
    ensures FirstZero(fat, lo) == FirstZero(fat', lo) && ZeroCount(fat, lo) == ZeroCount(fat', lo)
    decreases |fat| - lo
  {
    if lo < |fat| { FirstZeroAgrees(fat, fat', lo + 1); }
  }

  // ---------- taking free clusters ----------

  /** The next `n` free clusters above `c`, in order: what repeated calls of `next_free_cluster` return. */
  function Pick(fat: Table, c: nat, n: nat): (s: seq<nat>)
    requires c < |fat| && ZeroCount(fat, c + 1) >= n
    ensures |s| == n
    decreases n
  {
    if n == 0 then [] else
      SomeZero(fat, c + 1);
      var f := FirstZero(fat, c + 1);
      [f] + Pick(fat, f, n - 1)
  }

  ghost predicate FreeAscending(fat: Table, c: nat, s: seq<nat>) {
    && (forall i :: 0 <= i < |s| ==> c < s[i] < |fat| && fat[s[i]] == FREE)
    && (forall i, j :: 0 <= i < j < |s| ==> s[i] < s[j])
  }

  /** Picked clusters are free, distinct and ascending. */
  lemma {:induction false} PickFacts(fat: Table, c: nat, n: nat)
    requires c < |fat| && ZeroCount(fat, c + 1) >= n
    ensures FreeAscending(fat, c, Pick(fat, c, n))
    decreases n
  {
    if n > 0 {
      SomeZero(fat, c + 1);
      var f := FirstZero(fat, c + 1);
      PickFacts(fat, f, n - 1);
      var t := Pick(fat, f, n - 1);
      assert FreeAscending(fat, c, [f] + t);
    }
  }

  lemma {:induction false} PickStep(fat: Table, c: nat, n: nat)
    requires c < |fat| && n > 0 && ZeroCount(fat, c + 1) >= n
    ensures var f := FirstZero(fat, c + 1);
            f < |fat| && ZeroCount(fat, f + 1) >= n - 1 && Pick(fat, c, n)[0] == f &&
                Pick(fat, c, n)[1..] == Pick(fat, f, n - 1)
  {
    SomeZero(fat, c + 1);
  }

  /** The table after the clusters of `s` have been linked one to the next and the last one ended. */
  function Link(fat: Table, s: seq<nat>): (r: Table)
    requires forall i :: 0 <= i < |s| ==> s[i] < |fat|
    ensures |r| == |fat|
    decreases |s|
  {
    if |s| == 0 then fat else Link(fat[s[0] := if |s| == 1 then END else s[1]], s[1..])
  }

  /** One turn of the allocation loop: the head of what is left is linked to its successor. */
  lemma {:induction false} LinkStep(fat: Table, s: seq<nat>, i: nat)
    requires 0 < i <= |s| && forall k :: 0 <= k < |s| ==> s[k] < |fat|
    ensures var v := if i == |s| then END else s[i];
            Link(fat, s[i - 1..]) == Link(fat[s[i - 1] := v], s[i..])
  {
    var t := s[i - 1..];
    assert t[0] == s[i - 1] && t[1..] == s[i..] && |t| == |s| - i + 1;
  }

  lemma {:induction false} LinkFrame(fat: Table, s: seq<nat>, c: nat)
    requires (forall i :: 0 <= i < |s| ==> s[i] < |fat|) && c < |fat| && c !in s
    ensures Link(fat, s)[c] == fat[c]
    decreases |s|
  {
    if |s| > 0 {
      assert forall i :: 0 <= i < |s[1..]| ==> s[1..][i] == s[i + 1];
      LinkFrame(fat[s[0] := if |s| == 1 then END else s[1]], s[1..], c);
    }
  }

  lemma {:induction false} LinkAt(fat: Table, s: seq<nat>, i: nat)
    requires NoDup(s) && (forall k :: 0 <= k < |s| ==> s[k] < |fat|) && i < |s|
    ensures Link(fat, s)[s[i]] == if i == |s| - 1 then END else s[i + 1]
    decreases |s|
  {
    var f, t := fat[s[0] := if |s| == 1 then END else s[1]], s[1..];
    assert forall k :: 0 <= k < |t| ==> t[k] == s[k + 1];
    if i == 0 { LinkFrame(f, t, s[0]); } else { LinkAt(f, t, i - 1); }
  }

  /** Linked clusters form a chain, and no other entry changes. */
  lemma {:induction false} LinkFacts(fat: Table, s: seq<nat>)
    requires NoDup(s) && forall i :: 0 <= i < |s| ==> 2 <= s[i] < |fat|
    ensures forall c :: 0 <= c < |fat| && c !in s ==> Link(fat, s)[c] == fat[c]
    ensures IsChain(Link(fat, s), s)
  {
    forall c | 0 <= c < |fat| && c !in s ensures Link(fat, s)[c] == fat[c] { LinkFrame(fat, s, c); }
    forall i | 0 <= i < |s| ensures Link(fat, s)[s[i]] == if i == |s| - 1 then END else s[i + 1] { LinkAt(fat, s, i); }
    if |s| > 0 { LinkAt(fat, s, |s| - 1); }
  }

  lemma {:induction false} LinkZeros(fat: Table, s: seq<nat>)
    requires |fat| >= 2 && NoDup(s) && forall i :: 0 <= i < |s| ==> 2 <= s[i] < |fat| && fat[s[i]] == FREE
    ensures ZeroCount(Link(fat, s), 2) == ZeroCount(fat, 2) - |s|
    decreases |s|
  {
    if |s| > 0 {
      var v := if |s| == 1 then END else s[1];
      assert forall i :: 0 <= i < |s[1..]| ==> s[1..][i] == s[i + 1];
      ZeroCountUpdate(fat, 2, s[0], v);
      LinkZeros(fat[s[0] := v], s[1..]);
    }
  }

  /** Appending a chain behind another. */
  lemma {:induction false} JoinChains(fat: Table, s: seq<nat>, t: seq<nat>)
    requires IsChain(fat, s) && IsChain(fat, t) && |s| > 0 && |t| > 0
    requires forall i :: 0 <= i < |t| ==> t[i] !in s
    ensures IsChain(fat[s[|s| - 1] := t[0]], s + t)
  {
    var u, last := s + t, s[|s| - 1];
    var f := fat[last := t[0]];
    assert forall i :: 0 <= i < |u| ==> u[i] == if i < |s| then s[i] else t[i - |s|];
    assert forall i :: 0 <= i < |s| - 1 ==> s[i] != last;
    assert forall i :: 0 <= i < |t| ==> t[i] != last;
  }

  // ---------- freeing ----------

  /** The table after every cluster of `s` has been marked free. */
  function Unlink(fat: Table, s: seq<nat>): (r: Table)
    requires forall i :: 0 <= i < |s| ==> s[i] < |fat|
    ensures |r| == |fat|
    decreases |s|
  {
    if |s| == 0 then fat else Unlink(fat[s[0] := FREE], s[1..])
  }

  lemma {:induction false} UnlinkFacts(fat: Table, s: seq<nat>)
    requires |fat| >= 2 && NoDup(s) && forall i :: 0 <= i < |s| ==> 2 <= s[i] < |fat| && fat[s[i]] != FREE
    ensures forall c :: 0 <= c < |fat| ==> Unlink(fat, s)[c] == if c in s then FREE else fat[c]
    ensures ZeroCount(Unlink(fat, s), 2) == ZeroCount(fat, 2) + |s|
    decreases |s|
  {
    if |s| > 0 {
      var f, t := fat[s[0] := FREE], s[1..];
      assert forall i :: 0 <= i < |t| ==> t[i] == s[i + 1];
      ZeroCountUpdate(fat, 2, s[0], FREE);
      UnlinkFacts(f, t);
      forall c | 0 <= c < |fat| ensures Unlink(fat, s)[c] == if c in s then FREE else fat[c] {
        assert c in s <==> c == s[0] || c in t;
      }
    }
  }

  /** No entry of a chain is free. */
  lemma {:induction false} ChainUsed(fat: Table, s: seq<nat>)
    requires IsChain(fat, s)
    ensures forall i :: 0 <= i < |s| ==> fat[s[i]] != FREE
  {
    forall i | 0 <= i < |s| ensures fat[s[i]] != FREE {
      if i < |s| - 1 { assert fat[s[i]] == s[i + 1]; }
    }
  }

  // ---------- the hint ----------

  /** No free entry lies at or below the hint: what a search that only goes up needs. */
  ghost predicate AllAbove(fat: Table, hint: nat) {
    forall k :: 2 <= k <= hint && k < |fat| ==> fat[k] != FREE
  }

  /** The hint after a chain has been freed. */
  function NewHint(s: seq<nat>, hint: nat): nat {
    if |s| > 0 && 2 < s[0] < hint then s[0] - 1 else hint
  }

  /** The search above the hint can serve everything the count promises exactly when no free entry lies below it. */
  lemma {:induction false} CountServed(fat: Table, hint: nat)
    requires 1 <= hint < |fat|
    ensures ZeroCount(fat, hint + 1) <= ZeroCount(fat, 2)
    ensures ZeroCount(fat, hint + 1) == ZeroCount(fat, 2) <==> AllAbove(fat, hint)
  {
    ZerosUpTo(fat, 2, hint + 1);
  }

  lemma {:induction false} ZerosUpTo(fat: Table, lo: nat, hi: nat)
    requires lo <= hi <= |fat|
    ensures ZeroCount(fat, hi) <= ZeroCount(fat, lo)
    ensures ZeroCount(fat, hi) == ZeroCount(fat, lo) <==> forall k :: lo <= k < hi ==> fat[k] != FREE
    decreases hi - lo
  {
    if lo < hi { ZerosUpTo(fat, lo + 1, hi); }
  }

  /** Freeing a chain keeps every free entry above the hint exactly when none of its clusters lies below the first,
      where the hint follows that down, or at or below the hint, where it stays. */
  lemma {:induction false} FreeKeepsAbove(fat: Table, s: seq<nat>, hint: nat)
    requires IsChain(fat, s) && AllAbove(fat, hint) && |fat| >= 2 && 1 <= hint < |fat|
    ensures forall i :: 0 <= i < |s| ==> s[i] < |fat|
    ensures AllAbove(Unlink(fat, s), NewHint(s, hint)) <==>
            forall c :: c in s ==> if 2 < s[0] < hint then c >= s[0] else c > hint
    ensures 1 <= NewHint(s, hint) <= hint
  {
    hide Unlink;
    ChainUsed(fat, s);
    UnlinkFacts(fat, s);
    var h := NewHint(s, hint);
    if AllAbove(Unlink(fat, s), h) {
      forall c | c in s ensures c > h { assert Unlink(fat, s)[c] == FREE; }
    }
  }

  /** Picking leaves no free entry between the hint and the last cluster picked. */
  lemma {:induction false} PickCovers(fat: Table, c: nat, n: nat, k: nat)
    requires c < |fat| && n > 0 && ZeroCount(fat, c + 1) >= n && c < k <= Pick(fat, c, n)[n - 1] < |fat| &&
             fat[k] == FREE
    ensures k in Pick(fat, c, n)
    decreases n
  {
    SomeZero(fat, c + 1);
    PickStep(fat, c, n);
    var f, s := FirstZero(fat, c + 1), Pick(fat, c, n);
    if k > f {
      assert s[1..][n - 2] == s[n - 1];
      PickCovers(fat, f, n - 1, k);
      assert k in s[1..];
    } else {
      assert s[0] == f;
    }
  }

  /** Allocating keeps every free entry above the hint. */
  lemma {:induction false} AllocKeepsAbove(fat: Table, hint: nat, n: nat)
    requires 1 <= hint < |fat| && AllAbove(fat, hint) && n > 0 && ZeroCount(fat, hint + 1) >= n
    ensures forall i :: 0 <= i < n ==> Pick(fat, hint, n)[i] < |fat|
    ensures AllAbove(Link(fat, Pick(fat, hint, n)), Pick(fat, hint, n)[n - 1])
  {
    hide Pick, Link, ZeroCount, IsChain;
    var s := Pick(fat, hint, n);
    PickFacts(fat, hint, n);
    LinkFacts(fat, s);
    forall k | 2 <= k <= s[n - 1] && k < |fat| ensures Link(fat, s)[k] != FREE {
      if k in s {
        ChainUsed(Link(fat, s), s);
      } else if k > hint && fat[k] == FREE {
        PickCovers(fat, hint, n, k);
      }
    }
  }
}

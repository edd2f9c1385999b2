/** Cluster chains in a table of values: allocating, freeing and cutting them, and what that leaves of every chain. */
module FatfsChain {
  import opened FatfsBytes
  import opened Basics

  type Table = seq<FatValue>

  ghost predicate InRange(tab: Table) {
    forall c :: 0 <= c < |tab| && tab[c].Data? ==> tab[c].n < |tab|
  }

  /** The cluster an entry links to, if any. */
  function NextOf(v: FatValue): Option<nat> { if v.Data? then Some(v.n) else None }

  /** The number of free entries in `[lo, hi)`. */
  function FreeCount(tab: Table, lo: nat, hi: nat): (n: nat)
    requires lo <= hi <= |tab|
    ensures n <= hi - lo
    decreases hi - lo
  {
    if lo == hi then 0 else (if tab[hi - 1].Free? then 1 else 0) + FreeCount(tab, lo, hi - 1)
  }

  lemma {:induction false} FreeCountUpdate(tab: Table, lo: nat, hi: nat, c: nat, v: FatValue)
    requires lo <= hi <= |tab| && c < |tab|
    ensures var d := (if v.Free? then 1 else 0) - (if tab[c].Free? then 1 else 0);
            FreeCount(tab[c := v], lo, hi) == FreeCount(tab, lo, hi) + (if lo <= c < hi then d else 0)
    decreases hi - lo
  {
    if lo < hi { FreeCountUpdate(tab, lo, hi - 1, c, v); }
  }

  /** No entry counted, none there. */
  lemma {:induction false} NoneFree(tab: Table, lo: nat, hi: nat)
    requires lo <= hi <= |tab|
    ensures FreeCount(tab, lo, hi) == 0 <==> forall k :: lo <= k < hi ==> !tab[k].Free?
    decreases hi - lo
  {
    if lo < hi { NoneFree(tab, lo, hi - 1); }
  }

  /** Entries in use: what freeing uses up. */
  function Used(tab: Table): nat { |tab| - FreeCount(tab, 0, |tab|) }

  // ---------- freeing ----------

  /** What following the links from `cur` and freeing on the way makes of any table with links in range, cyclic ones
      included, and how many entries are written: a used entry becomes free, a free one ends the walk. */
  function FreeFrom(tab: Table, cur: Option<nat>): (r: (Table, nat))
    requires InRange(tab) && (cur.Some? ==> cur.value < |tab|)
    ensures |r.0| == |tab| && InRange(r.0)
    decreases Used(tab), if cur.Some? then 1 else 0
  {
    if cur.None? then (tab, 0) else
      var c := cur.value;
      FreeCountUpdate(tab, 0, |tab|, c, Free);
      var rest := FreeFrom(tab[c := Free], NextOf(tab[c]));
      (rest.0, rest.1 + 1)
  }

  /** Distinct entries, each linked to the next, the last one linked nowhere and not free. */
  ghost predicate Links(tab: Table, s: seq<nat>) {
    && (forall i :: 0 <= i < |s| ==> s[i] < |tab|)
    && (forall i :: 0 <= i < |s| - 1 ==> tab[s[i]] == Data(s[i + 1]))
    && (|s| > 0 ==> tab[s[|s| - 1]].EndOfChain? || tab[s[|s| - 1]].Bad?)
    && NoDup(s)
  }

  /** A chain of data clusters. */
  ghost predicate IsChain(tab: Table, s: seq<nat>) {
    Links(tab, s) && forall i :: 0 <= i < |s| ==> 2 <= s[i]
  }

  lemma {:induction false} ChainUsed(tab: Table, s: seq<nat>)
    requires Links(tab, s)
    ensures forall i :: 0 <= i < |s| ==> !tab[s[i]].Free?
  {
    forall i | 0 <= i < |s| ensures !tab[s[i]].Free? {
      if i < |s| - 1 { assert tab[s[i]] == Data(s[i + 1]); }
    }
  }

  lemma {:induction false} ChainNext(tab: Table, s: seq<nat>, i: nat)
    requires Links(tab, s) && i < |s|
    ensures NextOf(tab[s[i]]) == if i + 1 < |s| then Some(s[i + 1]) else None
  {
  }

  lemma {:induction false} ChainFrame(tab: Table, tab': Table, s: seq<nat>)
    requires IsChain(tab, s) && |tab'| == |tab| && forall i :: 0 <= i < |s| ==> tab'[s[i]] == tab[s[i]]
    ensures IsChain(tab', s)
  {
  }

  lemma {:induction false} ChainTail(tab: Table, s: seq<nat>)
    requires Links(tab, s) && |s| > 0
    ensures s[0] < |tab| && Links(tab[s[0] := Free], s[1..]) && s[0] !in s[1..]
    ensures NextOf(tab[s[0]]) == if |s| > 1 then Some(s[1..][0]) else None
  {
    var t := s[1..];
    assert forall i :: 0 <= i < |t| ==> t[i] == s[i + 1];
  }

  /** A used entry in front of the chain it links to. */
  lemma {:induction false} ChainFront(tab: Table, c: nat, t: seq<nat>)
    requires c < |tab| && Links(tab[c := Free], t) && |t| > 0 && tab[c] == Data(t[0])
    ensures Links(tab, [c] + t)
  {
    var s := [c] + t;
    ChainUsed(tab[c := Free], t);
    FrontLinks(tab, c, t);
    assert s[|s| - 1] == t[|t| - 1];
  }

  lemma {:induction false} FrontLinks(tab: Table, c: nat, t: seq<nat>)
    requires c < |tab| && Links(tab[c := Free], t) && |t| > 0 && tab[c] == Data(t[0])
    ensures var s := [c] + t;
            && NoDup(s) && (forall i :: 0 <= i < |s| ==> s[i] < |tab|)
            && forall i :: 0 <= i < |s| - 1 ==> tab[s[i]] == Data(s[i + 1])
  {
    var s := [c] + t;
    ChainUsed(tab[c := Free], t);
    assert forall i :: 0 < i < |s| ==> s[i] == t[i - 1];
    forall i | 0 <= i < |s| - 1 ensures tab[s[i]] == Data(s[i + 1]) {
      if i > 0 { LinkAt(tab[c := Free], t, i - 1); }
    }
  }

  lemma {:induction false} LinkAt(tab: Table, s: seq<nat>, i: nat)
    requires Links(tab, s) && i + 1 < |s|
    ensures s[i] < |tab| && tab[s[i]] == Data(s[i + 1])
  {
  }

  /** Freeing along linked entries frees exactly those and counts them. */
  lemma {:induction false} FreesChain(tab: Table, s: seq<nat>)
    requires InRange(tab) && Links(tab, s) && |s| > 0
    ensures var r := FreeFrom(tab, Some(s[0]));
            && r.1 == |s|
            && forall c :: 0 <= c < |tab| ==> r.0[c] == if c in s then Free else tab[c]
    decreases |s|
  {
    hide Links;
    var c, t := s[0], s[1..];
    ChainTail(tab, s);
    if |t| > 0 {
      FreesChain(tab[c := Free], t);
    }
    forall k | 0 <= k < |tab| ensures k in s <==> k == c || k in t { }
  }

  /** The links from `c` on end, and meet no entry twice. */
  ghost predicate StartsChain(tab: Table, c: nat) {
    exists s :: |s| > 0 && s[0] == c && Links(tab, s)
  }

  /** On every table with links in range: the number returned is the number of entries that became free exactly when the
      links end without meeting an entry twice; on a cycle, or a link to a free entry, it is one too many. */
  lemma {:induction false} FreedExactly(tab: Table, c: nat)
    requires InRange(tab) && c < |tab|
    ensures FreeFrom(tab, Some(c)).1 ==
            Used(tab) - Used(FreeFrom(tab, Some(c)).0) + (if StartsChain(tab, c) then 0 else 1)
    decreases Used(tab)
  {
    hide Links, FreeCount;
    var tab', next := tab[c := Free], NextOf(tab[c]);
    FreeCountUpdate(tab, 0, |tab|, c, Free);
    if tab[c].Free? {
      NotFromFree(tab, c);
    } else if next.None? {
      LastOne(tab, c);
    } else {
      FreedExactly(tab', next.value);
      StartsDown(tab, c);
      StartsUp(tab, c);
    }
  }

  /** Two clusters linked to each other: both become free, and three are counted. */
  lemma {:induction false} CycleMiscounted()
    ensures var tab := [EndOfChain, EndOfChain, Data(3), Data(2)];
            InRange(tab) && FreeFrom(tab, Some(2)) == ([EndOfChain, EndOfChain, Free, Free], 3)
  {
    var t0: Table := [EndOfChain, EndOfChain, Data(3), Data(2)];
    var t1: Table := [EndOfChain, EndOfChain, Free, Data(2)];
    var t2: Table := [EndOfChain, EndOfChain, Free, Free];
    assert InRange(t0) && InRange(t1) && InRange(t2);
    assert t0[2 := Free] == t1 && t1[3 := Free] == t2 && t2[2 := Free] == t2;
    assert FreeFrom(t2, None) == (t2, 0);
    assert FreeFrom(t2, Some(2)) == (t2, 1);
    assert FreeFrom(t1, Some(3)) == (t2, 2);
  }

  lemma {:induction false} LastOne(tab: Table, c: nat)
    requires c < |tab| && !tab[c].Free? && !tab[c].Data?
    ensures StartsChain(tab, c)
  {
    assert Links(tab, [c]);
  }

  lemma {:induction false} NotFromFree(tab: Table, c: nat)
    requires c < |tab| && tab[c].Free?
    ensures !StartsChain(tab, c)
  {
    if StartsChain(tab, c) {
      var s :| |s| > 0 && s[0] == c && Links(tab, s);
      ChainUsed(tab, s);
    }
  }

  lemma {:induction false} StartsDown(tab: Table, c: nat)
    requires c < |tab| && tab[c].Data?
    ensures StartsChain(tab, c) ==> StartsChain(tab[c := Free], tab[c].n)
  {
    hide Links;
    if StartsChain(tab, c) {
      var s :| |s| > 0 && s[0] == c && Links(tab, s);
      ChainTail(tab, s);
    }
  }

  lemma {:induction false} StartsUp(tab: Table, c: nat)
    requires c < |tab| && tab[c].Data?
    ensures StartsChain(tab[c := Free], tab[c].n) ==> StartsChain(tab, c)
  {
    hide Links;
    if StartsChain(tab[c := Free], tab[c].n) {
      var t :| |t| > 0 && t[0] == tab[c].n && Links(tab[c := Free], t);
      ChainFront(tab, c, t);
      assert ([c] + t)[0] == c;
    }
  }

  // ---------- every chain of a volume ----------

  type Chains = map<nat, seq<nat>>

  ghost predicate ChainsOk(tab: Table, chains: Chains) {
    && (forall f :: f in chains ==> IsChain(tab, chains[f]))
    && (forall f, h :: f in chains && h in chains && f != h ==> Apart(chains[f], chains[h]))
  }

  function LastOf(s: seq<nat>): Option<nat> { if |s| == 0 then None else Some(s[|s| - 1]) }

  /** The table after `c` has been allocated behind `prev`. */
  function Allocated(tab: Table, prev: Option<nat>, c: nat): Table
    requires c < |tab| && (prev.Some? ==> prev.value < |tab|)
  {
    if prev.None? then tab[c := EndOfChain] else tab[c := EndOfChain][prev.value := Data(c)]
  }

  lemma {:induction false} AllocatedChain(tab: Table, s: seq<nat>, c: nat)
    requires IsChain(tab, s) && 2 <= c < |tab| && tab[c].Free?
    ensures IsChain(Allocated(tab, LastOf(s), c), s + [c]) && c !in s
  {
    ChainUsed(tab, s);
    var u := s + [c];
    assert forall i :: 0 <= i < |s| ==> u[i] == s[i] && s[i] != c;
  }

  lemma {:induction false} AllocatedOther(tab: Table, s: seq<nat>, c: nat, o: seq<nat>)
    requires IsChain(tab, s) && IsChain(tab, o) && Apart(s, o) && Apart(o, s) && 2 <= c < |tab| && tab[c].Free?
    ensures IsChain(Allocated(tab, LastOf(s), c), o) && Apart(s + [c], o) && Apart(o, s + [c])
  {
    ChainUsed(tab, o);
    if |s| > 0 { assert s[|s| - 1] !in o; }
    ChainFrame(tab, Allocated(tab, LastOf(s), c), o);
  }

  lemma {:induction false} AllocatedCount(tab: Table, s: seq<nat>, c: nat)
    requires IsChain(tab, s) && 2 <= c < |tab| && tab[c].Free?
    ensures FreeCount(Allocated(tab, LastOf(s), c), 2, |tab|) == FreeCount(tab, 2, |tab|) - 1
  {
    ChainUsed(tab, s);
    FreeCountUpdate(tab, 2, |tab|, c, EndOfChain);
    if |s| > 0 { FreeCountUpdate(tab[c := EndOfChain], 2, |tab|, s[|s| - 1], Data(c)); }
  }

  /** Allocating behind one chain extends it by one cluster and leaves the others. */
  lemma {:induction false} AllocKeeps(tab: Table, chains: Chains, f: nat, c: nat)
    requires ChainsOk(tab, chains) && f in chains && 2 <= c < |tab| && tab[c].Free? && InRange(tab)
    ensures LastOf(chains[f]).Some? ==> LastOf(chains[f]).value < |tab|
    ensures ChainsOk(Allocated(tab, LastOf(chains[f]), c), chains[f := chains[f] + [c]])
    ensures InRange(Allocated(tab, LastOf(chains[f]), c))
  {
    hide Apart;
    AllocatedChain(tab, chains[f], c);
    forall h | h in chains && h != f
      ensures IsChain(Allocated(tab, LastOf(chains[f]), c), chains[h])
      ensures Apart(chains[f] + [c], chains[h]) && Apart(chains[h], chains[f] + [c])
    {
      AllocatedOther(tab, chains[f], c, chains[h]);
    }
  }

  /** Freeing everything of a chain but its first `k` clusters, the last of which has been ended, leaves those and the
      others. */
  lemma {:induction false} CutKeeps(tab: Table, tab': Table, chains: Chains, f: nat, k: nat)
    requires ChainsOk(tab, chains) && f in chains && k <= |chains[f]| && |tab'| == |tab|
    requires forall c :: 0 <= c < |tab| ==> tab'[c] == Cut(tab, chains[f], k, c)
    ensures ChainsOk(tab', chains[f := chains[f][..k]])
  {
    hide Apart, Cut;
    CutSelf(tab, tab', chains[f], k);
    forall h | h in chains && h != f
      ensures IsChain(tab', chains[h]) && Apart(chains[f][..k], chains[h]) && Apart(chains[h], chains[f][..k])
    {
      CutOther(tab, tab', chains[f], k, chains[h]);
    }
  }

  /** One entry after a chain has been cut to its first `k` clusters. */
  function Cut(tab: Table, s: seq<nat>, k: nat, c: nat): FatValue
    requires k <= |s| && c < |tab|
  {
    if c in s[k..] then Free else if k > 0 && c == s[k - 1] then EndOfChain else tab[c]
  }

  lemma {:induction false} CutSelf(tab: Table, tab': Table, s: seq<nat>, k: nat)
    requires IsChain(tab, s) && k <= |s| && |tab'| == |tab|
    requires forall c :: 0 <= c < |tab| ==> tab'[c] == Cut(tab, s, k, c)
    ensures IsChain(tab', s[..k])
  {
    forall i | 0 <= i < k ensures s[i] !in s[k..] { }
    var t := s[..k];
    assert forall i :: 0 <= i < |t| ==> t[i] == s[i] && tab'[t[i]] == Cut(tab, s, k, t[i]);
  }

  lemma {:induction false} CutOther(tab: Table, tab': Table, s: seq<nat>, k: nat, o: seq<nat>)
    requires IsChain(tab, s) && IsChain(tab, o) && Apart(s, o) && Apart(o, s) && k <= |s| && |tab'| == |tab|
    requires forall c :: 0 <= c < |tab| ==> tab'[c] == Cut(tab, s, k, c)
    ensures IsChain(tab', o) && Apart(s[..k], o) && Apart(o, s[..k])
  {
    forall i | 0 <= i < |o| ensures tab'[o[i]] == tab[o[i]] && o[i] !in s[..k] {
      assert o[i] !in s;
      assert tab'[o[i]] == Cut(tab, s, k, o[i]);
    }
    ChainFrame(tab, tab', o);
  }
}

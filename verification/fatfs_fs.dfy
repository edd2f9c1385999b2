/** The cluster allocator of a mounted volume: its table, its FSInfo counters and the chains of its files. */
module FatfsFs {
  import opened Basics
  import opened Bytes
  import opened FatfsBytes
  import opened FatfsChain
  import opened FatfsTable

  /** Where the clusters lie on the disk, in bytes. */
  datatype Geometry = Geometry(base: nat, size: nat)

  /** The counters of the FSInfo sector; each may be unknown. */
  datatype FsInfo = FsInfo(free: Option<nat>, next: Option<nat>)

  function AddFree(info: FsInfo, d: int): FsInfo
    requires info.free.Some? ==> info.free.value + d >= 0
  {
    if info.free.None? then info else info.(free := Some(info.free.value + d))
  }

  /** A known free count is exact, and a hint is no reserved entry. */
  ghost predicate InfoOk(info: FsInfo, tab: Table) {
    && |tab| >= 2
    && (info.free.Some? ==> info.free.value == FreeCount(tab, 2, |tab|))
    && (info.next.Some? ==> info.next.value >= 2)
  }

  ghost predicate FsOk(tab: Table, chains: Chains, info: FsInfo) {
    InRange(tab) && ChainsOk(tab, chains) && InfoOk(info, tab)
  }

  lemma {:induction false} AllocInfo(tab: Table, s: seq<nat>, c: nat, info: FsInfo)
    requires IsChain(tab, s) && 2 <= c < |tab| && tab[c].Free? && InfoOk(info, tab)
    ensures info.free.Some? ==> info.free.value >= 1
    ensures InfoOk(AddFree(info.(next := Some(c + 1)), -1), Allocated(tab, LastOf(s), c))
  {
    AllocatedCount(tab, s, c);
  }

  /** What cutting a chain gives back is counted exactly. */
  lemma {:induction false} CutCount(tab: Table, tab': Table, s: seq<nat>, k: nat)
    requires IsChain(tab, s) && k <= |s| && |tab| == |tab'| >= 2
    requires forall c :: 0 <= c < |tab| ==> tab'[c] == Cut(tab, s, k, c)
    ensures FreeCount(tab', 2, |tab|) == FreeCount(tab, 2, |tab|) + |s| - k
    decreases |s| - k
  {
    hide FreeCount;
    ChainUsed(tab, s);
    if k == |s| {
      assert s[k..] == [];
      if k > 0 {
        FreeCountUpdate(tab, 2, |tab|, s[k - 1], EndOfChain);
        assert tab' == tab[s[k - 1] := EndOfChain];
      } else {
        assert tab' == tab;
      }
    } else {
      var mid := seq(|tab|, c requires 0 <= c < |tab| => Cut(tab, s, k + 1, c));
      CutCount(tab, mid, s, k + 1);
      CutStep(tab, s, k);
      FreeCountUpdate(mid, 2, |tab|, s[k], Free);
      if k == 0 {
        assert tab' == mid[s[0] := Free];
      } else {
        FreeCountUpdate(mid[s[k] := Free], 2, |tab|, s[k - 1], EndOfChain);
        assert tab' == mid[s[k] := Free][s[k - 1] := EndOfChain];
      }
    }
  }

  lemma {:induction false} CutStep(tab: Table, s: seq<nat>, k: nat)
    requires IsChain(tab, s) && k < |s|
    ensures Cut(tab, s, k + 1, s[k]) == EndOfChain
    ensures k > 0 ==> s[k - 1] != s[k] && Cut(tab, s, k + 1, s[k - 1]) == tab[s[k - 1]]
    ensures forall c :: 0 <= c < |tab| && c != s[k] && (k > 0 ==> c != s[k - 1]) ==>
            Cut(tab, s, k, c) == Cut(tab, s, k + 1, c)
    ensures Cut(tab, s, k, s[k]) == Free && (k > 0 ==> Cut(tab, s, k, s[k - 1]) == EndOfChain)
  {
    assert s[k..] == [s[k]] + s[k + 1..];
    assert forall i :: 0 <= i <= k ==> s[i] !in s[k + 1..];
  }

  class FileSystem {
    const fat: FatSlice
    const total: nat
    const g: Geometry
    var info: FsInfo
    var disk: seq<Byte>
    ghost var chains: Chains

    constructor (fat: FatSlice, total: nat, g: Geometry, info: FsInfo, disk: seq<Byte>, ghost chains: Chains)
      requires fat.Valid() && |fat.tab| == total + 2 && FsOk(fat.tab, chains, info)
      requires g.size > 0 && g.base + total * g.size <= |disk|
      ensures Valid() && this.fat == fat && this.total == total && this.g == g
      ensures this.info == info && this.disk == disk && this.chains == chains
    {
      this.fat := fat;
      this.total := total;
      this.g := g;
      this.info := info;
      this.disk := disk;
      this.chains := chains;
    }

    ghost predicate Valid()
      reads this, fat
    {
      && fat.Valid() && |fat.tab| == total + 2 && FsOk(fat.tab, chains, info)
      && g.size > 0 && g.base + total * g.size <= |disk|
    }

    /** Take one cluster for the chain of `f`: fails exactly when none is free. */
    method AllocCluster(prev: Option<nat>, ghost f: nat) returns (r: Option<nat>)
      requires Valid() && f in chains && prev == LastOf(chains[f])
      modifies this`info, this`chains, fat
      ensures Valid()
      ensures r.None? <==> forall k :: 2 <= k < total + 2 ==> !old(fat.tab)[k].Free?
      ensures r.None? ==> fat.tab == old(fat.tab) && info == old(info) && chains == old(chains)
      ensures r.Some? ==> 2 <= r.value < total + 2 && old(fat.tab)[r.value].Free?
      ensures r.Some? ==> chains == old(chains)[f := old(chains)[f] + [r.value]] && info.next == Some(r.value + 1)
      ensures info.free.Some? <==> old(info).free.Some?
    {
      hide Holds, FreeCount, IsChain, Links;
      ghost var tab, s := fat.tab, chains[f];
      PrevInTable(tab, s);
      r := fat.AllocCluster(prev, info.next, total);
      if r.Some? {
        AllocKeeps(tab, chains, f, r.value);
        AllocInfo(tab, s, r.value, info);
        info := info.(next := Some(r.value + 1));
        info := AddFree(info, -1);
        chains := chains[f := s + [r.value]];
      }
    }

    /** Free a whole chain, given by its first cluster. */
    method FreeClusterChain(cluster: nat, ghost f: nat)
      requires Valid() && f in chains && |chains[f]| > 0 && cluster == chains[f][0]
      modifies this`info, this`chains, fat
      ensures Valid() && chains == old(chains)[f := []]
      ensures forall c :: 0 <= c < total + 2 ==> fat.tab[c] == if c in old(chains)[f] then Free else old(fat.tab)[c]
      ensures info == AddFree(old(info), |old(chains)[f]|)
      ensures info.next == old(info).next && (info.free.Some? <==> old(info).free.Some?)
    {
      hide Holds, FreeCount, IsChain, Links, FreeFrom;
      ghost var tab, s := fat.tab, chains[f];
      PrevInTable(tab, s);
      FreesChain(tab, s);
      var iter := new ClusterIterator(fat, cluster);
      var n := iter.Free();
      FreedCut(tab, fat.tab, s);
      CutKeeps(tab, fat.tab, chains, f, 0);
      CutCount(tab, fat.tab, s, 0);
      info := AddFree(info, n);
      assert s[..0] == [];
      chains := chains[f := []];
    }

    /** Cut a chain behind one of its clusters. */
    method TruncateClusterChain(cluster: nat, ghost f: nat, ghost k: nat)
      requires Valid() && f in chains && k < |chains[f]| && cluster == chains[f][k]
      modifies this`info, this`chains, fat
      ensures Valid() && chains == old(chains)[f := old(chains)[f][..k + 1]]
      ensures info == AddFree(old(info), |old(chains)[f]| - k - 1)
      ensures info.next == old(info).next && (info.free.Some? <==> old(info).free.Some?)
    {
      hide Holds, FreeCount, IsChain, Links, CutFrom, FreeFrom, Cut;
      ghost var tab, s := fat.tab, chains[f];
      PrevInTable(tab, s);
      CutsChain(tab, s, k);
      var iter := new ClusterIterator(fat, cluster);
      var n := iter.Truncate();
      CutKeeps(tab, fat.tab, chains, f, k + 1);
      CutCount(tab, fat.tab, s, k + 1);
      info := AddFree(info, n);
      chains := chains[f := s[..k + 1]];
    }

    /** The stored count, or the counted one, which is then stored. */
    method FreeClusters() returns (n: nat)
      requires Valid()
      modifies this`info, fat`pos
      ensures Valid() && n == FreeCount(fat.tab, 2, total + 2) && info.free == Some(n)
    {
      if info.free.Some? {
        return info.free.value;
      }
      n := fat.CountFree(total);
      info := info.(free := Some(n));
    }
  }

  lemma {:induction false} PrevInTable(tab: Table, s: seq<nat>)
    requires IsChain(tab, s)
    ensures Links(tab, s) && forall i :: 0 <= i < |s| ==> 2 <= s[i] < |tab|
  {
  }

  lemma {:induction false} FreedCut(tab: Table, tab': Table, s: seq<nat>)
    requires |tab| == |tab'| && forall c :: 0 <= c < |tab| ==> tab'[c] == if c in s then Free else tab[c]
    ensures forall c :: 0 <= c < |tab| ==> tab'[c] == Cut(tab, s, 0, c)
  {
    assert s[0..] == s;
  }
}

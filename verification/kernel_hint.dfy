/** When the allocator's hint hides free clusters: exactly how that comes about, and a run that does it. */
module KernelHint {
  import opened Arith
  import opened BlockCache
  import opened Bytes
  import opened KernelChain
  import opened KernelFs
  import opened KernelVfs
  import opened KernelVolume
  import opened KernelRuns
  import D = KernelData

  ghost predicate HintOk(v: Vol) {
    1 <= v.hint < |v.fat| && AllAbove(v.fat, v.hint)
  }

  /** Every request the count allows is served exactly when no free cluster lies at or below the hint. */
  lemma {:induction false} HintServes(v: Vol)
    requires VolumeOk(v) && 1 <= v.hint < |v.fat|
    ensures (forall num: nat :: Served(v, num)) <==> HintOk(v)
  {
    hide ZeroCount, AllAbove, FilesOk;
    CountServed(v.fat, v.hint);
    if forall num: nat :: Served(v, num) {
      assert Served(v, v.free);
    }
  }

  /** Clearing this file leaves no cluster of it at or below the hint: the hint goes down with the file's first cluster
      where that lies below it and is not cluster 2. */
  ghost predicate Tidy(v: Vol, op: Op) {
    op.Clear? && op.f in v.chains ==>
      var s := v.chains[op.f];
      forall c :: c in s ==> if 2 < s[0] < v.hint then c >= s[0] else c > v.hint
  }

  lemma {:induction false} GrowKeepsHint(v: Vol, f: nat, more: nat)
    requires VolumeOk(v) && CanGrow(v, f, more) && HintOk(v)
    ensures HintOk(GrowStep(v, f, more))
  {
    hide VolumeOk, AllAbove, Pick, Link, ZeroCount, Zeroed, IsChain, CeilDiv, FreeAscending;
    var n := Needed(v, f, more);
    if more > v.files[f].size && 0 < n <= v.free {
      PickFits(v, n);
      FileFacts(v, f);
      AllocKeepsAbove(v.fat, v.hint, n);
      GrownAbove(v.fat, v.chains[f], Pick(v.fat, v.hint, n), v.hint);
    }
  }

  /** Attaching the new clusters frees nothing. */
  lemma {:induction false} GrownAbove(fat: Table, c: seq<nat>, s: seq<nat>, hint: nat)
    requires IsChain(fat, c) && FreeAscending(fat, hint, s) && |s| > 0 && hint >= 1
    requires (forall i :: 0 <= i < |s| ==> s[i] < |fat|) && (forall i :: 0 <= i < |c| ==> c[i] < |fat|)
    requires AllAbove(Link(fat, s), s[|s| - 1])
    ensures |Grown(fat, c, s)| == |fat| && AllAbove(Grown(fat, c, s), s[|s| - 1])
  {
    hide Link, IsChain;
  }

  lemma {:induction false} ClearKeepsHint(v: Vol, f: nat)
    requires VolumeOk(v) && f in v.files && HintOk(v)
    ensures Legal(v, Clear(f)) && (HintOk(Step(v, Clear(f))) <==> Tidy(v, Clear(f)))
  {
    hide VolumeOk, AllAbove, Unlink, IsChain, NewHint;
    FileFacts(v, f);
    ClearVolume(v, f);
    FreeKeepsAbove(v.fat, v.chains[f], v.hint);
    UnlinkSize(v.fat, v.chains[f]);
  }

  lemma {:induction false} UnlinkSize(fat: Table, s: seq<nat>)
    requires forall i :: 0 <= i < |s| ==> s[i] < |fat|
    ensures |Unlink(fat, s)| == |fat|
  {
  }

  /** No operation but an untidy clearing ever hides a free cluster, and an untidy clearing always does. */
  lemma {:induction false} HintKept(v: Vol, op: Op)
    requires VolumeOk(v) && Legal(v, op) && HintOk(v)
    ensures HintOk(Step(v, op)) <==> Tidy(v, op)
  {
    hide VolumeOk, HintOk, GrowStep, WriteIn, ClearedVol;
    match op
    case Add(f) => AddKeepsHint(v, f);
    case Grow(f, more) => GrowKeepsHint(v, f, more);
    case Write(f, off, buf) => WriteKeepsHint(v, f, off, buf);
    case Clear(f) => ClearKeepsHint(v, f);
  }

  /** So a file whose first cluster is its lowest, above 2 and not the hint itself, can be cleared and leaves all that
      is free in reach. */
  lemma {:induction false} LowestFirstIsTidy(v: Vol, f: nat)
    requires VolumeOk(v) && HintOk(v) && f in v.files && f in v.chains && |v.chains[f]| > 0
    requires 2 < v.chains[f][0] != v.hint && forall c :: c in v.chains[f] ==> c >= v.chains[f][0]
    ensures Legal(v, Clear(f)) && HintOk(Step(v, Clear(f)))
  {
    hide VolumeOk, HintOk, Step;
    HintKept(v, Clear(f));
  }

  lemma {:induction false} AddKeepsHint(v: Vol, f: nat)
    requires HintOk(v)
    ensures HintOk(WithNew(v, f))
  {
  }

  lemma {:induction false} WriteKeepsHint(v: Vol, f: nat, off: nat, buf: seq<Byte>)
    requires VolumeOk(v) && |buf| > 0 && CanGrow(v, f, off + |buf|) && HintOk(v)
    ensures HintOk(WriteStep(v, f, off, buf))
  {
    hide VolumeOk, GrowStep, AllAbove, D.WriteSpec;
    GrowKeepsHint(v, f, off + |buf|);
    if Enough(v, f, off + |buf|) {
      GrownWritable(v, f, off, buf);
    }
  }

  // ---------- runs that the count alone serves ----------

  /** What is asked of an operation apart from the hint. */
  ghost predicate Asked(v: Vol, op: Op) {
    match op
    case Add(f) => f !in v.files
    case Grow(f, more) => f in v.files && Fits(v, more)
    case Write(f, off, buf) => f in v.files && |buf| > 0 && Fits(v, off + |buf|)
    case Clear(f) => f in v.files
  }

  lemma {:induction false} AskedIsLegal(v: Vol, op: Op)
    requires VolumeOk(v) && HintOk(v) && Asked(v, op)
    ensures Legal(v, op)
  {
    hide FilesOk, ZeroCount, HintOk;
    HintFacts(v);
  }

  lemma {:induction false} HintFacts(v: Vol)
    requires VolumeOk(v) && HintOk(v)
    ensures forall num: nat :: Served(v, num)
  {
    hide VolumeOk;
    HintServes(v);
  }

  ghost predicate TidyRun(v: Vol, ops: seq<Op>)
    requires VolumeOk(v) && HintOk(v)
    decreases |ops|
  {
    |ops| == 0 || (&& Asked(v, ops[0]) && Tidy(v, ops[0])
                   && (AskedIsLegal(v, ops[0]); StepKeeps(v, ops[0]); HintKept(v, ops[0]);
                       TidyRun(Step(v, ops[0]), ops[1..])))
  }

  /** Runs whose clearings are tidy are legal whatever they allocate: the count alone decides what is served. */
  lemma {:induction false} TidyRunsServed(v: Vol, ops: seq<Op>)
    requires VolumeOk(v) && HintOk(v) && TidyRun(v, ops)
    ensures LegalRun(v, ops) && HintOk(Run(v, ops))
    decreases |ops|
  {
    hide VolumeOk, HintOk, Step, Legal, Asked, Tidy;
    if |ops| > 0 {
      AskedIsLegal(v, ops[0]);
      StepKeeps(v, ops[0]);
      HintKept(v, ops[0]);
      TidyRunsServed(Step(v, ops[0]), ops[1..]);
    }
  }

  // ---------- a run that hides a free cluster ----------

  /** Growing by the one cluster `c`, on a disk of zeros. */
  function OneMore(v: Vol, f: nat, more: nat, c: nat): Vol
    requires f in v.files && f in v.chains && c < |v.fat| && v.free >= 1
    requires forall i :: 0 <= i < |v.chains[f]| ==> v.chains[f][i] < |v.fat|
  {
    var s := v.chains[f];
    v.(fat := if |s| == 0 then v.fat[c := END] else v.fat[c := END][s[|s| - 1] := c], hint := c, free := v.free - 1,
       files := v.files[f := DirEntry(if |s| == 0 then c else v.files[f].first, more)],
       chains := v.chains[f := s + [c]])
  }

  lemma {:induction false} GrowsByOne(v: Vol, f: nat, more: nat, c: nat)
    requires VolumeOk(v) && f in v.files && f in v.chains && Fits(v, more) && Needed(v, f, more) == 1 && v.free >= 1
    requires 1 <= v.hint < c < |v.fat| && v.fat[c] == FREE && forall k :: v.hint < k < c ==> v.fat[k] != FREE
    requires forall t :: 0 <= t < |v.data| ==> v.data[t] == ZERO
    ensures Legal(v, Grow(f, more)) && forall i :: 0 <= i < |v.chains[f]| ==> v.chains[f][i] < |v.fat|
    ensures Step(v, Grow(f, more)) == OneMore(v, f, more, c)
  {
    hide VolumeOk, CeilDiv, Zeroed, InClusters, FirstZero, ZeroCount, Link;
    FileFacts(v, f);
    assert FirstZero(v.fat, v.hint + 1) == c;
    SomeZero(v.fat, v.hint + 1);
    PickOne(v.fat, v.hint, c);
    assert Zeroed(v.g, v.data, [c]) == v.data;
    SmallTables(v.fat, c, c);
  }

  /** The same by writing a zero byte into the new cluster. */
  lemma {:induction false} WritesOne(v: Vol, f: nat, off: nat, c: nat)
    requires VolumeOk(v) && f in v.files && f in v.chains && Fits(v, off + 1) && v.free >= 1
    requires Needed(v, f, off + 1) == 1
    requires 1 <= v.hint < c < |v.fat| && v.fat[c] == FREE && forall k :: v.hint < k < c ==> v.fat[k] != FREE
    requires forall t :: 0 <= t < |v.data| ==> v.data[t] == ZERO
    ensures Legal(v, Write(f, off, [0])) && forall i :: 0 <= i < |v.chains[f]| ==> v.chains[f][i] < |v.fat|
    ensures Step(v, Write(f, off, [0])) == OneMore(v, f, off + 1, c)
  {
    hide VolumeOk, CeilDiv, GrowStep, D.WriteSpec, D.OnDisk, D.InChain, ZeroCount;
    GrowsByOne(v, f, off + 1, c);
    GrownWritable(v, f, off, [0]);
    ZeroWritten(v.g, v.data, OneMore(v, f, off + 1, c).chains[f], off);
  }

  lemma {:induction false} ZeroWritten(g: D.Geometry, disk: D.Disk, chain: seq<nat>, off: nat)
    requires D.OnDisk(g, disk, chain) && D.InChain(g, chain, off)
    requires forall t :: 0 <= t < |disk| ==> disk[t] == ZERO
    ensures D.WriteSpec(g, disk, chain, off, [0]) == disk
  {
    hide D.OnDisk, D.InChain, D.FileSector;
    assert Splice(ZERO, off % 512, [0]) == ZERO;
    var buf: seq<Byte> := [0];
    assert D.Piece(off, 1) == 1 && buf[..1] == buf && buf[1..] == [];
    assert D.WriteSector(g, disk, chain, off, buf) == disk;
    D.WriteDone(g, disk, chain, off + 1, buf[1..]);
  }

  lemma {:induction false} PickOne(fat: Table, hint: nat, c: nat)
    requires hint < |fat| && ZeroCount(fat, hint + 1) >= 1 && FirstZero(fat, hint + 1) == c
    ensures Pick(fat, hint, 1) == [c]
  {
    hide FirstZero, ZeroCount;
    PickStep(fat, hint, 1);
  }

  /** Linking or freeing one or two clusters. */
  lemma {:induction false} SmallTables(fat: Table, c: nat, d: nat)
    requires c < |fat| && d < |fat|
    ensures Link(fat, [c]) == fat[c := END] && Unlink(fat, [c]) == fat[c := FREE]
    ensures Unlink(fat, [c, d]) == fat[c := FREE][d := FREE]
  {
    assert [c][1..] == [] && [c, d][1..] == [d] && [d][1..] == [];
    assert Unlink(fat[c := FREE], [d]) == fat[c := FREE][d := FREE];
  }

  /** A volume of four one-sector clusters; the first belongs to the root directory, the others are free. */
  ghost function Small(fat: Table, hint: nat, free: nat, files: Files, chains: Chains): Vol {
    Vol(D.Geometry(0, 1), fat, hint, free, [ZERO, ZERO, ZERO, ZERO], files, chains)
  }

  const E0 := DirEntry(0, 0)

  lemma {:induction false} Sizes()
    ensures CeilDiv(0, 1 * 512) == 0 && CeilDiv(1, 1 * 512) == 1 && CeilDiv(513, 1 * 512) == 2
  {
  }

  // The volumes the run goes through, from the two empty files on.
  ghost function V0(): Vol { Small([END, END, END, FREE, FREE, FREE], 2, 3, map[], map[]) }
  ghost function V2(): Vol { Small([END, END, END, FREE, FREE, FREE], 2, 3, map[0 := E0, 1 := E0],
                                   map[0 := [], 1 := []]) }
  ghost function V3(): Vol { Small([END, END, END, END, FREE, FREE], 3, 2, map[0 := DirEntry(3, 1), 1 := E0],
                                   map[0 := [3], 1 := []]) }
  ghost function V4(): Vol {
    Small([END, END, END, END, END, FREE], 4, 1, map[0 := DirEntry(3, 1), 1 := DirEntry(4, 1)],
          map[0 := [3], 1 := [4]])
  }
  ghost function V5(): Vol { Small([END, END, END, FREE, END, FREE], 2, 2, map[0 := E0, 1 := DirEntry(4, 1)],
                                   map[0 := [], 1 := [4]]) }
  ghost function V6(): Vol { Small([END, END, END, END, 3, FREE], 3, 1, map[0 := E0, 1 := DirEntry(4, 513)],
                                   map[0 := [], 1 := [4, 3]]) }
  ghost function V7(): Vol { Small([END, END, END, FREE, FREE, FREE], 3, 3, map[0 := E0, 1 := E0],
                                   map[0 := [], 1 := []]) }

  lemma {:induction false} SmallOk()
    ensures VolumeOk(V0())
  {
    var fat: Table := [END, END, END, FREE, FREE, FREE];
    assert ZeroCount(fat, 5) == 1;
    assert ZeroCount(fat, 3) == 3;
  }

  lemma {:induction false} To2()
    requires VolumeOk(V0())
    ensures Legal(V0(), Add(0)) && Step(V0(), Add(0)) == WithNew(V0(), 0) && VolumeOk(WithNew(V0(), 0)) &&
            Legal(WithNew(V0(), 0), Add(1)) && VolumeOk(V2())
    ensures Step(WithNew(V0(), 0), Add(1)) == V2()
  {
    hide VolumeOk;
    StepKeeps(V0(), Add(0));
    StepKeeps(WithNew(V0(), 0), Add(1));
    assert WithNew(WithNew(V0(), 0), 1) == V2();
  }

  lemma {:induction false} To3()
    requires VolumeOk(V2())
    ensures Legal(V2(), Write(0, 0, [0])) && Step(V2(), Write(0, 0, [0])) == V3() && VolumeOk(V3())
  {
    hide VolumeOk, CeilDiv, Step, Legal;
    Sizes();
    WritesOne(V2(), 0, 0, 3);
    StepKeeps(V2(), Write(0, 0, [0]));
    assert [] + [3] == [3] && V2().fat[3 := END] == V3().fat;
    assert V2().chains[0 := [3]] == V3().chains && V2().files[0 := DirEntry(3, 1)] == V3().files;
  }

  lemma {:induction false} To4()
    requires VolumeOk(V3())
    ensures Legal(V3(), Write(1, 0, [0])) && Step(V3(), Write(1, 0, [0])) == V4() && VolumeOk(V4())
  {
    hide VolumeOk, CeilDiv, Step, Legal;
    Sizes();
    WritesOne(V3(), 1, 0, 4);
    StepKeeps(V3(), Write(1, 0, [0]));
    assert [] + [4] == [4] && V3().fat[4 := END] == V4().fat;
    assert V3().chains[1 := [4]] == V4().chains && V3().files[1 := DirEntry(4, 1)] == V4().files;
  }

  lemma {:induction false} To5()
    requires VolumeOk(V4())
    ensures Legal(V4(), Clear(0)) && Step(V4(), Clear(0)) == V5() && VolumeOk(V5())
  {
    hide VolumeOk, Unlink;
    StepKeeps(V4(), Clear(0));
    SmallTables(V4().fat, 3, 3);
    assert V4().fat[3 := FREE] == V5().fat;
    assert V4().chains[0 := []] == V5().chains && V4().files[0 := E0] == V5().files;
  }

  lemma {:induction false} To6()
    requires VolumeOk(V5())
    ensures Legal(V5(), Write(1, 512, [0])) && Step(V5(), Write(1, 512, [0])) == V6() && VolumeOk(V6())
  {
    hide VolumeOk, CeilDiv, Step, Legal;
    Sizes();
    WritesOne(V5(), 1, 512, 3);
    StepKeeps(V5(), Write(1, 512, [0]));
    assert [4] + [3] == [4, 3] && V5().fat[3 := END][4 := 3] == V6().fat;
    assert V5().chains[1 := [4, 3]] == V6().chains && V5().files[1 := DirEntry(4, 513)] == V6().files;
  }

  lemma {:induction false} To7()
    requires VolumeOk(V6())
    ensures Legal(V6(), Clear(1)) && Step(V6(), Clear(1)) == V7() && VolumeOk(V7())
  {
    hide VolumeOk, Unlink;
    StepKeeps(V6(), Clear(1));
    SmallTables(V6().fat, 4, 3);
    assert V6().fat[4 := FREE][3 := FREE] == V7().fat;
    assert V6().chains[1 := []] == V7().chains && V6().files[1 := E0] == V7().files;
  }

  /** From a new volume, with every request served so far: a file that got cluster 3 behind cluster 4 is cleared while
      the hint is 3. Three clusters are counted free, and a request for three finds two above the hint. */
  lemma {:induction false} HintHidesFree()
    ensures VolumeOk(V0()) && HintOk(V0())
    ensures var ops := [Add(0), Add(1), Write(0, 0, [0]), Write(1, 0, [0]), Clear(0), Write(1, 512, [0]), Clear(1)];
            LegalRun(V0(), ops) && Run(V0(), ops) == V7() && !HintOk(V7()) && V7().free == 3 && !Served(V7(), 3)
  {
    hide VolumeOk, HintOk, Served, Step, Legal, LegalRun, Run, V0, V2, V3, V4, V5, V6, V7;
    SmallOk();
    To2();
    To3();
    To4();
    To5();
    To6();
    To7();
    NoOps(V7());
    var r6: seq<Op> := [Clear(1)] + [];
    var r5 := [Write(1, 512, [0])] + r6;
    var r4 := [Clear(0)] + r5;
    var r3 := [Write(1, 0, [0])] + r4;
    var r2 := [Write(0, 0, [0])] + r3;
    var r1 := [Add(1)] + r2;
    Chained(V6(), V7(), Clear(1), [], V7());
    Chained(V5(), V6(), Write(1, 512, [0]), r6, V7());
    Chained(V4(), V5(), Clear(0), r5, V7());
    Chained(V3(), V4(), Write(1, 0, [0]), r4, V7());
    Chained(V2(), V3(), Write(0, 0, [0]), r3, V7());
    Chained(WithNew(V0(), 0), V2(), Add(1), r2, V7());
    Chained(V0(), WithNew(V0(), 0), Add(0), r1, V7());
    assert [Add(0)] + r1 ==
           [Add(0), Add(1), Write(0, 0, [0]), Write(1, 0, [0]), Clear(0), Write(1, 512, [0]), Clear(1)];
    Hidden();
  }

  lemma {:induction false} NoOps(v: Vol)
    requires VolumeOk(v)
    ensures LegalRun(v, []) && Run(v, []) == v
  {
  }

  lemma {:induction false} Hidden()
    ensures V7().free == 3 && !HintOk(V7()) && !Served(V7(), 3) && HintOk(V0())
  {
    assert V7().fat[3] == FREE;
    assert ZeroCount(V7().fat, 5) == 1;
  }

  lemma {:induction false} Chained(v: Vol, w: Vol, op: Op, rest: seq<Op>, z: Vol)
    requires VolumeOk(v) && Legal(v, op) && Step(v, op) == w && VolumeOk(w) && LegalRun(w, rest) && Run(w, rest) == z
    ensures LegalRun(v, [op] + rest) && Run(v, [op] + rest) == z
  {
    hide VolumeOk, Legal, Step;
    assert ([op] + rest)[0] == op && ([op] + rest)[1..] == rest;
  }
}

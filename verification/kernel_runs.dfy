/** Runs of file operations on a volume: the invariant in every state, and what they make of the contents of the
    files. */
module KernelRuns {
  import opened Arith
  import opened Bytes
  import opened KernelChain
  import opened KernelFs
  import opened KernelVfs
  import opened KernelVolume
  import D = KernelData

  datatype Op = Add(f: nat) | Grow(f: nat, more: nat) | Write(f: nat, off: nat, buf: seq<Byte>) | Clear(f: nat)

  // ---------- one operation ----------

  /** Clusters to add when a file grows. */
  function Needed(v: Vol, f: nat, more: nat): nat
    requires f in v.files && v.g.spc > 0
  {
    if more <= v.files[f].size then 0 else
      CeilMono(v.files[f].size, more, v.g.spc * 512);
      CeilDiv(more, v.g.spc * 512) - CeilDiv(v.files[f].size, v.g.spc * 512)
  }

  /** What the allocator leaves to its caller: where the count allows a request, the entries above the hint do too. */
  ghost predicate Served(v: Vol, num: nat) {
    0 < num <= v.free ==> 1 <= v.hint < |v.fat| && ZeroCount(v.fat, v.hint + 1) >= num
  }

  /** Sizes stay within 32 bits, also when they are rounded up to clusters. */
  predicate Fits(v: Vol, more: nat) { more + v.g.spc * 512 - 1 < 0x1_0000_0000 }

  ghost predicate CanGrow(v: Vol, f: nat, more: nat) {
    f in v.files && v.g.spc > 0 && Fits(v, more) && Served(v, Needed(v, f, more))
  }

  ghost predicate Legal(v: Vol, op: Op) {
    match op
    case Add(f) => f !in v.files
    case Grow(f, more) => CanGrow(v, f, more)
    case Write(f, off, buf) => |buf| > 0 && CanGrow(v, f, off + |buf|)
    case Clear(f) => f in v.files
  }

  /** Enough clusters are counted free. */
  predicate Enough(v: Vol, f: nat, more: nat)
    requires f in v.files && v.g.spc > 0
  {
    Needed(v, f, more) <= v.free
  }

  lemma {:induction false} PickFits(v: Vol, n: nat)
    requires 0 < n <= v.free && Served(v, n)
    ensures 1 <= v.hint < |v.fat| && ZeroCount(v.fat, v.hint + 1) >= n
    ensures FreeAscending(v.fat, v.hint, Pick(v.fat, v.hint, n))
    ensures forall i :: 0 <= i < n ==> Pick(v.fat, v.hint, n)[i] < |v.fat|
  {
    PickFacts(v.fat, v.hint, n);
  }

  /** Growth by the next `n` free clusters above the hint. */
  ghost function Attached(v: Vol, f: nat, more: nat, n: nat): Vol
    requires VolumeOk(v) && f in v.files && 0 < n <= v.free && Served(v, n)
  {
    FileFacts(v, f);
    PickFits(v, n);
    var s := Pick(v.fat, v.hint, n);
    GrownVol(v, f, more, s, Zeroed(v.g, v.data, s))
  }

  ghost function GrowStep(v: Vol, f: nat, more: nat): Vol
    requires VolumeOk(v) && CanGrow(v, f, more)
  {
    var n := Needed(v, f, more);
    if more <= v.files[f].size || n > v.free then v
    else if n == 0 then Resized(v, f, more)
    else Attached(v, f, more, n)
  }

  /** Growth changes one file only, and where enough is free extends it. */
  lemma {:induction false} GrowStepOk(v: Vol, f: nat, more: nat)
    requires VolumeOk(v) && CanGrow(v, f, more)
    ensures OnlyFile(v, GrowStep(v, f, more), f)
    ensures !Enough(v, f, more) || more <= v.files[f].size ==> GrowStep(v, f, more) == v
    ensures Enough(v, f, more) && v.files[f].size <= more ==> Extended(v, GrowStep(v, f, more), f, more)
  {
    hide VolumeOk, OnlyFile, Extended, CeilDiv, Pick, Zeroed, GrownVol, FreeAscending, ZeroCount, IsChain;
    var n := Needed(v, f, more);
    Unchanged(v, f);
    FileFacts(v, f);
    if more > v.files[f].size && n <= v.free {
      if n == 0 {
        ResizeVolume(v, f, more);
      } else {
        PickFits(v, n);
        GrowVolume(v, f, more, Pick(v.fat, v.hint, n));
      }
      ExtendedOk(v, GrowStep(v, f, more), f, more);
    }
  }

  /** The file is as long as asked for once growth has succeeded. */
  lemma {:induction false} GrownTo(v: Vol, f: nat, more: nat)
    requires VolumeOk(v) && CanGrow(v, f, more) && Enough(v, f, more)
    ensures var w := GrowStep(v, f, more);
            VolumeOk(w) && f in w.files &&
                w.files[f].size == (if more <= v.files[f].size then v.files[f].size else more)
  {
    hide VolumeOk, CeilDiv, CellsIn;
    GrowStepOk(v, f, more);
    SameFiles(v, GrowStep(v, f, more), f);
  }

  /** The range lies within the clusters of the file. */
  ghost predicate Writable(w: Vol, f: nat, off: nat, buf: seq<Byte>) {
    f in w.files && f in w.chains && |buf| > 0 && D.OnDisk(w.g, w.data, w.chains[f]) &&
        D.InChain(w.g, w.chains[f], off + |buf| - 1)
  }

  ghost function WriteIn(w: Vol, f: nat, off: nat, buf: seq<Byte>): Vol
    requires Writable(w, f, off, buf)
  {
    w.(data := D.WriteSpec(w.g, w.data, w.chains[f], off, buf))
  }

  lemma {:induction false} GrownWritable(v: Vol, f: nat, off: nat, buf: seq<Byte>)
    requires VolumeOk(v) && |buf| > 0 && CanGrow(v, f, off + |buf|) && Enough(v, f, off + |buf|)
    ensures Writable(GrowStep(v, f, off + |buf|), f, off, buf)
  {
    hide VolumeOk, GrowStep, CanGrow, Enough, D.WriteSpec, OnlyFile;
    GrowKnown(v, f, off + |buf|);
    GrownTo(v, f, off + |buf|);
    WriteVolume(GrowStep(v, f, off + |buf|), f, off, buf);
  }

  ghost function WriteStep(v: Vol, f: nat, off: nat, buf: seq<Byte>): Vol
    requires VolumeOk(v) && |buf| > 0 && CanGrow(v, f, off + |buf|)
  {
    if !Enough(v, f, off + |buf|) then v
    else
      GrownWritable(v, f, off, buf);
      WriteIn(GrowStep(v, f, off + |buf|), f, off, buf)
  }

  ghost function Step(v: Vol, op: Op): Vol
    requires VolumeOk(v) && Legal(v, op)
  {
    match op
    case Add(f) => WithNew(v, f)
    case Grow(f, more) => GrowStep(v, f, more)
    case Write(f, off, buf) => WriteStep(v, f, off, buf)
    case Clear(f) => ClearVolume(v, f); ClearedVol(v, f)
  }

  /** `f` has been extended by zeros as far as needed, and then overwritten. */
  ghost predicate Overwritten(v: Vol, w: Vol, f: nat, off: nat, buf: seq<Byte>) {
    && OnlyFile(v, w, f) && f in v.files && f in w.files && f in v.chains && f in w.chains && v.chains[f] <= w.chains[f]
    && w.files[f].size == (if off + |buf| <= v.files[f].size then v.files[f].size else off + |buf|)
    && |CellsIn(v, f)| <= |CellsIn(w, f)| && off + |buf| <= |CellsIn(w, f)|
    && CellsIn(w, f) == Overwrite(CellsIn(v, f) + Zeros(|CellsIn(w, f)| - |CellsIn(v, f)|), off, buf)
  }

  lemma {:induction false} WriteInOk(v: Vol, w: Vol, f: nat, off: nat, buf: seq<Byte>)
    requires f in v.files && Extended(v, w, f, if off + |buf| <= v.files[f].size then v.files[f].size else off + |buf|)
    requires VolumeOk(w) && f in w.files && |buf| > 0
    ensures Writable(w, f, off, buf) && Overwritten(v, WriteIn(w, f, off, buf), f, off, buf)
  {
    hide VolumeOk, OnlyFile, CellsIn, Overwrite, D.WriteSpec, D.OnDisk, D.InChain;
    WriteVolume(w, f, off, buf);
    var z := WriteIn(w, f, off, buf);
    SameFiles(w, z, f);
    OnlyTrans(v, w, z, f);
    OverwriteSize(CellsIn(w, f), off, buf);
  }

  lemma {:induction false} OverwriteSize(c: seq<Byte>, off: nat, buf: seq<Byte>)
    requires off + |buf| <= |c|
    ensures |Overwrite(c, off, buf)| == |c|
  {
  }

  /** A write changes one file only; where enough is free it extends the file as needed and overwrites it. */
  lemma {:induction false} WriteStepOk(v: Vol, f: nat, off: nat, buf: seq<Byte>)
    requires VolumeOk(v) && |buf| > 0 && CanGrow(v, f, off + |buf|)
    ensures OnlyFile(v, WriteStep(v, f, off, buf), f)
    ensures if Enough(v, f, off + |buf|) then Overwritten(v, WriteStep(v, f, off, buf), f, off, buf)
            else WriteStep(v, f, off, buf) == v
  {
    hide VolumeOk, OnlyFile, Extended, CeilDiv, CellsIn, GrowStep, WriteIn;
    Unchanged(v, f);
    if Enough(v, f, off + |buf|) {
      GrownTo(v, f, off + |buf|);
      GrownWritable(v, f, off, buf);
      GrowStepOk(v, f, off + |buf|);
      WriteInOk(v, GrowStep(v, f, off + |buf|), f, off, buf);
    }
  }

  // ---------- files as byte sequences ----------

  type Contents = map<nat, seq<Byte>>

  ghost function ContentsOf(v: Vol): Contents
    requires VolumeOk(v)
  {
    map h | h in v.files :: ContentIn(v, h)
  }

  /** Between its size and `n` the clusters of a file hold zeros. */
  ghost predicate BlankTo(v: Vol, h: nat, n: nat)
    requires VolumeOk(v) && h in v.files
  {
    forall i :: v.files[h].size <= i < n && i < |CellsIn(v, h)| ==> CellsIn(v, h)[i] == 0
  }

  /** Beyond its size a file's last cluster holds zeros, as far as the file can grow. */
  ghost predicate CleanFile(v: Vol, h: nat)
    requires VolumeOk(v) && h in v.files
  {
    forall n: nat :: Fits(v, n) ==> BlankTo(v, h, n)
  }

  ghost predicate Clean(v: Vol)
    requires VolumeOk(v)
  {
    forall h :: h in v.files ==> CleanFile(v, h)
  }

  /** `c` filled up with zeros to at least `n` bytes. */
  function Padded(c: seq<Byte>, n: nat): (r: seq<Byte>)
    ensures n <= |r|
  {
    if n <= |c| then c else c + Zeros(n - |c|)
  }

  /** An operation on plain byte sequences; `ok` says whether there was room. */
  function Effect(a: Contents, op: Op, ok: bool): Contents {
    match op
    case Add(f) => a[f := []]
    case Grow(f, more) => if ok && f in a then a[f := Padded(a[f], more)] else a
    case Write(f, off, buf) => if ok && f in a then a[f := Overwrite(Padded(a[f], off + |buf|), off, buf)] else a
    case Clear(f) => a[f := []]
  }

  /** Whether there was room. */
  predicate Outcome(v: Vol, op: Op) {
    match op
    case Add(_) => true
    case Grow(f, more) => f in v.files && v.g.spc > 0 && Enough(v, f, more)
    case Write(f, off, buf) => f in v.files && v.g.spc > 0 && Enough(v, f, off + |buf|)
    case Clear(_) => true
  }

  /** The content of a grown file is the old one filled up with zeros exactly when what it uncovers is zero. */
  lemma {:induction false} PaddedCells(cells: seq<Byte>, size: nat, n: nat, more: nat)
    requires size <= |cells| <= n && size <= more <= n
    ensures (cells + Zeros(n - |cells|))[..more] == Padded(cells[..size], more) <==>
            forall i :: size <= i < more && i < |cells| ==> cells[i] == 0
  {
    var now, want := (cells + Zeros(n - |cells|))[..more], Padded(cells[..size], more);
    forall i | 0 <= i < more
      ensures now[i] == want[i] <==> (size <= i < |cells| ==> cells[i] == 0)
    {
      if i < size { assert now[i] == cells[i] == want[i]; }
    }
  }

  /** The same for a file written to: what lies under the written bytes does not matter. */
  lemma {:induction false} OverwrittenCells(cells: seq<Byte>, size: nat, n: nat, off: nat, buf: seq<Byte>)
    requires size <= |cells| <= n && off + |buf| <= n
    ensures var end := if off + |buf| <= size then size else off + |buf|;
            var r := Overwrite(cells + Zeros(n - |cells|), off, buf);
            |r| == n && (r[..end] == Overwrite(Padded(cells[..size], off + |buf|), off, buf) <==>
                         forall i :: size <= i < off && i < |cells| ==> cells[i] == 0)
  {
    var end := if off + |buf| <= size then size else off + |buf|;
    var c := cells + Zeros(n - |cells|);
    var now, pad := Overwrite(c, off, buf)[..end], Padded(cells[..size], off + |buf|);
    var want := Overwrite(pad, off, buf);
    forall i | 0 <= i < end
      ensures now[i] == want[i] <==> (size <= i < off && i < |cells| ==> cells[i] == 0)
    {
      if i < size { assert c[i] == cells[i] == pad[i]; }
    }
  }

  lemma {:induction false} ExtendedContent(v: Vol, w: Vol, f: nat, more: nat)
    requires VolumeOk(v) && VolumeOk(w) && f in v.files && f in w.files && Extended(v, w, f, more)
    ensures ContentIn(w, f) == Padded(ContentIn(v, f), more) <==> BlankTo(v, f, more)
    ensures CleanFile(v, f) ==> CleanFile(w, f)
  {
    hide VolumeOk, OnlyFile, CellsIn, Zeros, Padded;
    SizeInCells(v, f);
    SizeInCells(w, f);
    PaddedCells(CellsIn(v, f), v.files[f].size, |CellsIn(w, f)|, more);
    SameFiles(v, w, f);
    if CleanFile(v, f) {
      forall n: nat | Fits(w, n) ensures BlankTo(w, f, n) { BlankGrows(v, w, f, n); }
    }
  }

  lemma {:induction false} BlankGrows(v: Vol, w: Vol, f: nat, n: nat)
    requires VolumeOk(v) && VolumeOk(w) && f in v.files && f in w.files && v.files[f].size <= w.files[f].size
    requires |CellsIn(v, f)| <= |CellsIn(w, f)| && BlankTo(v, f, n)
    requires forall i :: w.files[f].size <= i < |CellsIn(w, f)| ==>
               CellsIn(w, f)[i] == (CellsIn(v, f) + Zeros(|CellsIn(w, f)| - |CellsIn(v, f)|))[i]
    ensures BlankTo(w, f, n)
  {
    hide VolumeOk, CellsIn;
  }

  lemma {:induction false} OverwrittenContent(v: Vol, w: Vol, f: nat, off: nat, buf: seq<Byte>)
    requires VolumeOk(v) && VolumeOk(w) && f in v.files && f in w.files && Overwritten(v, w, f, off, buf)
    ensures ContentIn(w, f) == Overwrite(Padded(ContentIn(v, f), off + |buf|), off, buf) <==> BlankTo(v, f, off)
    ensures CleanFile(v, f) ==> CleanFile(w, f)
  {
    hide VolumeOk, OnlyFile, CellsIn, Zeros, Overwrite;
    SizeInCells(v, f);
    SizeInCells(w, f);
    OverwrittenCells(CellsIn(v, f), v.files[f].size, |CellsIn(w, f)|, off, buf);
    SameFiles(v, w, f);
    if CleanFile(v, f) {
      BehindWritten(CellsIn(v, f) + Zeros(|CellsIn(w, f)| - |CellsIn(v, f)|), off, buf);
      forall n: nat | Fits(w, n) ensures BlankTo(w, f, n) { BlankGrows(v, w, f, n); }
    }
  }

  lemma {:induction false} BehindWritten(c: seq<Byte>, off: nat, buf: seq<Byte>)
    requires off + |buf| <= |c|
    ensures |Overwrite(c, off, buf)| == |c| && forall i :: off + |buf| <= i < |c| ==> Overwrite(c, off, buf)[i] == c[i]
  {
  }

  /** A file that is kept keeps content and cleanness. */
  lemma {:induction false} KeptContent(v: Vol, w: Vol, h: nat)
    requires VolumeOk(v) && VolumeOk(w) && w.g == v.g && Kept(v, w, h)
    ensures ContentIn(w, h) == ContentIn(v, h) && (CleanFile(v, h) ==> CleanFile(w, h))
  {
    hide VolumeOk, CellsIn;
    SizeInCells(v, h);
    SizeInCells(w, h);
    if CleanFile(v, h) {
      forall n: nat | Fits(w, n) ensures BlankTo(w, h, n) { assert BlankTo(v, h, n); }
    }
  }

  /** Each operation keeps the invariant and every file it is not for, and adds at most its own. */
  lemma {:induction false} StepKeeps(v: Vol, op: Op)
    requires VolumeOk(v) && Legal(v, op)
    ensures VolumeOk(Step(v, op)) && Step(v, op).g == v.g && Step(v, op).files.Keys == v.files.Keys + {op.f}
    ensures forall h :: h in v.files && h != op.f ==> Kept(v, Step(v, op), h)
  {
    hide VolumeOk, Kept, GrowStep, WriteStep, WithNew, ClearedVol, CanGrow, Extended, Overwritten;
    match op
    case Add(f) =>
      NewVolume(v, f);
      NewKeys(v, f);
    case Grow(f, more) =>
      GrowStepOk(v, f, more);
      GrowKnown(v, f, more);
    case Write(f, off, buf) =>
      WriteStepOk(v, f, off, buf);
      GrowKnown(v, f, off + |buf|);
    case Clear(f) =>
      ClearVolume(v, f);
      EmptiedOk(v, ClearedVol(v, f), f);
  }

  lemma {:induction false} NewKeys(v: Vol, f: nat)
    ensures WithNew(v, f).files.Keys == v.files.Keys + {f} && WithNew(v, f).g == v.g
  {
  }

  lemma {:induction false} GrowKnown(v: Vol, f: nat, more: nat)
    requires CanGrow(v, f, more)
    ensures f in v.files && v.files.Keys + {f} == v.files.Keys && v.g.spc > 0
  {
  }

  lemma {:induction false} EmptiedOk(v: Vol, w: Vol, f: nat)
    requires Emptied(v, w, f) && f in v.files
    ensures OnlyFile(v, w, f) && VolumeOk(w) && w.files.Keys == v.files.Keys && v.files.Keys + {f} == v.files.Keys
    ensures ContentIn(w, f) == [] && CleanFile(w, f)
  {
    hide VolumeOk, Kept, CellsIn;
    SizeInCells(w, f);
    assert [] + Zeros(0) == [];
  }

  /** What an operation uncovers of its file's last cluster is zero: as far as the file grows, or up to the offset it is
      written at. */
  ghost predicate UncoversZeros(v: Vol, op: Op)
    requires VolumeOk(v) && Legal(v, op)
  {
    match op
    case Add(_) => true
    case Grow(f, more) => Enough(v, f, more) ==> BlankTo(v, f, more)
    case Write(f, off, buf) => Enough(v, f, off + |buf|) ==> BlankTo(v, f, off)
    case Clear(_) => true
  }

  lemma {:induction false} CleanUncovers(v: Vol, op: Op)
    requires VolumeOk(v) && Legal(v, op) && Clean(v)
    ensures UncoversZeros(v, op)
  {
    hide VolumeOk, CellsIn;
    match op
    case Add(_) =>
    case Grow(f, more) => assert CleanFile(v, f) && Fits(v, more);
    case Write(f, off, buf) => assert CleanFile(v, f) && Fits(v, off);
    case Clear(_) =>
  }

  /** Each operation is its effect on byte sequences exactly when it uncovers zeros only. On a clean volume it does, and
      leaves it clean. */
  lemma {:induction false} StepRefines(v: Vol, op: Op)
    requires VolumeOk(v) && Legal(v, op)
    ensures VolumeOk(Step(v, op))
    ensures ContentsOf(Step(v, op)) == Effect(ContentsOf(v), op, Outcome(v, op)) <==> UncoversZeros(v, op)
    ensures Clean(v) ==> Clean(Step(v, op)) && UncoversZeros(v, op)
  {
    hide VolumeOk, Kept, Step, CleanFile, ContentIn, UncoversZeros, Legal;
    StepKeeps(v, op);
    StepSelf(v, op);
    var w := Step(v, op);
    forall h | h in v.files && h != op.f
      ensures ContentIn(w, h) == ContentIn(v, h) && (CleanFile(v, h) ==> CleanFile(w, h))
    {
      KeptContent(v, w, h);
    }
    EffectElsewhere(v, op);
    if Clean(v) { CleanUncovers(v, op); }
  }

  lemma {:induction false} EffectElsewhere(v: Vol, op: Op)
    requires VolumeOk(v) && Legal(v, op)
    ensures var e := Effect(ContentsOf(v), op, Outcome(v, op));
            e.Keys == v.files.Keys + {op.f} && forall h :: h in v.files && h != op.f ==> e[h] == ContentIn(v, h)
  {
    hide VolumeOk, ContentIn, Padded, Enough;
  }

  /** What an operation makes of the file it is for. */
  lemma {:induction false} StepSelf(v: Vol, op: Op)
    requires VolumeOk(v) && Legal(v, op)
    ensures VolumeOk(Step(v, op)) && op.f in Step(v, op).files
    ensures op.f in Effect(ContentsOf(v), op, Outcome(v, op))
    ensures ContentIn(Step(v, op), op.f) == Effect(ContentsOf(v), op, Outcome(v, op))[op.f] <==> UncoversZeros(v, op)
    ensures Clean(v) ==> CleanFile(Step(v, op), op.f)
  {
    hide VolumeOk, OnlyFile, Kept, GrowStep, WriteStep, ClearedVol, CleanFile, ContentIn, Extended, Overwritten,
        CanGrow, Padded, Enough, BlankTo;
    StepKeeps(v, op);
    var w := Step(v, op);
    match op
    case Add(f) => AddSelf(v, f);
    case Grow(f, more) =>
      GrowKnown(v, f, more);
      GrowSelfContent(v, f, more);
    case Write(f, off, buf) =>
      GrowKnown(v, f, off + |buf|);
      WriteStepOk(v, f, off, buf);
      if Enough(v, f, off + |buf|) { OverwrittenContent(v, w, f, off, buf); }
    case Clear(f) =>
      ClearVolume(v, f);
      EmptiedOk(v, w, f);
  }

  lemma {:induction false} AddSelf(v: Vol, f: nat)
    requires VolumeOk(v) && f !in v.files
    ensures VolumeOk(WithNew(v, f)) && ContentIn(WithNew(v, f), f) == [] && CleanFile(WithNew(v, f), f)
  {
    hide VolumeOk, Kept;
    NewVolume(v, f);
  }

  lemma {:induction false} GrowSelfContent(v: Vol, f: nat, more: nat)
    requires VolumeOk(v) && CanGrow(v, f, more) && VolumeOk(GrowStep(v, f, more)) && f in GrowStep(v, f, more).files
    ensures var c := ContentIn(GrowStep(v, f, more), f);
            if Enough(v, f, more) then c == Padded(ContentIn(v, f), more) <==> BlankTo(v, f, more)
            else c == ContentIn(v, f)
    ensures CleanFile(v, f) ==> CleanFile(GrowStep(v, f, more), f)
  {
    hide VolumeOk, OnlyFile, GrowStep, CleanFile, Extended;
    GrowStepOk(v, f, more);
    if Enough(v, f, more) && v.files[f].size <= more { ExtendedContent(v, GrowStep(v, f, more), f, more); }
  }

  // ---------- runs ----------

  ghost predicate LegalRun(v: Vol, ops: seq<Op>)
    requires VolumeOk(v)
    decreases |ops|
  {
    |ops| == 0 || (Legal(v, ops[0]) && (StepKeeps(v, ops[0]); LegalRun(Step(v, ops[0]), ops[1..])))
  }

  ghost function Run(v: Vol, ops: seq<Op>): (w: Vol)
    requires VolumeOk(v) && LegalRun(v, ops)
    ensures VolumeOk(w)
    decreases |ops|
  {
    if |ops| == 0 then v else
      StepKeeps(v, ops[0]);
      Run(Step(v, ops[0]), ops[1..])
  }

  /** Which operations of a run had room. */
  ghost function Outcomes(v: Vol, ops: seq<Op>): (oks: seq<bool>)
    requires VolumeOk(v) && LegalRun(v, ops)
    ensures |oks| == |ops|
    decreases |ops|
  {
    if |ops| == 0 then [] else
      StepKeeps(v, ops[0]);
      [Outcome(v, ops[0])] + Outcomes(Step(v, ops[0]), ops[1..])
  }

  /** The operations, one after another, on byte sequences. */
  function Effects(a: Contents, ops: seq<Op>, oks: seq<bool>): Contents
    requires |ops| == |oks|
    decreases |ops|
  {
    if |ops| == 0 then a else Effects(Effect(a, ops[0], oks[0]), ops[1..], oks[1..])
  }

  /** From a clean volume every legal run refines the same operations on a map of byte sequences. */
  lemma {:induction false} CleanRuns(v: Vol, ops: seq<Op>)
    requires VolumeOk(v) && LegalRun(v, ops) && Clean(v)
    ensures VolumeOk(Run(v, ops)) && Clean(Run(v, ops))
    ensures ContentsOf(Run(v, ops)) == Effects(ContentsOf(v), ops, Outcomes(v, ops))
    decreases |ops|
  {
    hide VolumeOk, Step, Legal, Clean, Effect, Outcome, ContentIn, UncoversZeros;
    if |ops| > 0 {
      StepKeeps(v, ops[0]);
      StepRefines(v, ops[0]);
      CleanRuns(Step(v, ops[0]), ops[1..]);
    }
  }

  /** Growth within the clusters a file has needs no other. */
  lemma {:induction false} GrowsInPlace(v: Vol, f: nat, more: nat)
    requires VolumeOk(v) && f in v.files && Fits(v, more) && v.files[f].size < more <= |CellsIn(v, f)|
    ensures CanGrow(v, f, more) && Enough(v, f, more)
  {
    hide VolumeOk, CellsIn;
    SizeInCells(v, f);
    FileFacts(v, f);
    CeilMono(v.files[f].size, more, v.g.spc * 512);
    CeilWithin(more, |v.chains[f]|, v.g.spc * 512);
  }

  /** A file that is not clean can be grown so that it shows something else than zeros. */
  lemma {:induction false} UncleanShows(v: Vol, h: nat) returns (op: Op)
    requires VolumeOk(v) && h in v.files && !CleanFile(v, h)
    ensures Legal(v, op) && !UncoversZeros(v, op)
  {
    hide VolumeOk, CellsIn;
    var n: nat :| Fits(v, n) && !BlankTo(v, h, n);
    var i :| v.files[h].size <= i < n && i < |CellsIn(v, h)| && CellsIn(v, h)[i] != 0;
    op := Grow(h, i + 1);
    GrowsInPlace(v, h, i + 1);
  }

  /** Every legal run from `v` refines the same operations on byte sequences exactly when `v` is clean. */
  lemma {:induction false} RunsRefine(v: Vol)
    requires VolumeOk(v)
    ensures (forall ops :: LegalRun(v, ops) ==>
               ContentsOf(Run(v, ops)) == Effects(ContentsOf(v), ops, Outcomes(v, ops))) <==> Clean(v)
  {
    hide VolumeOk, LegalRun, Run, Outcomes, Effects, ContentIn, CleanFile, UncoversZeros, Legal, Step, Outcome, Effect;
    if Clean(v) {
      forall ops | LegalRun(v, ops)
        ensures ContentsOf(Run(v, ops)) == Effects(ContentsOf(v), ops, Outcomes(v, ops))
      {
        CleanRuns(v, ops);
      }
    } else {
      var h :| h in v.files && !CleanFile(v, h);
      var op := UncleanShows(v, h);
      OneOp(v, op);
      StepRefines(v, op);
    }
  }

  /** A run of one operation. */
  lemma {:induction false} OneOp(v: Vol, op: Op)
    requires VolumeOk(v) && Legal(v, op)
    ensures LegalRun(v, [op]) && Run(v, [op]) == Step(v, op) && Outcomes(v, [op]) == [Outcome(v, op)]
    ensures forall a :: Effects(a, [op], [Outcome(v, op)]) == Effect(a, op, Outcome(v, op))
  {
    hide VolumeOk, Step, Legal, Outcome, Effect;
    StepKeeps(v, op);
    var w, ops := Step(v, op), [op];
    assert ops[0] == op && ops[1..] == [];
    assert LegalRun(w, []) && Run(w, []) == w && Outcomes(w, []) == [];
    forall a ensures Effects(a, [op], [Outcome(v, op)]) == Effect(a, op, Outcome(v, op)) {
      var oks := [Outcome(v, op)];
      assert oks[0] == Outcome(v, op) && oks[1..] == [];
      assert Effects(Effect(a, op, oks[0]), [], []) == Effect(a, op, oks[0]);
    }
  }

  /** Over every legal run, clean or not, a file no operation is for keeps its entry, its chain and its bytes. */
  lemma {:induction false} RunsKeepOthers(v: Vol, ops: seq<Op>, h: nat)
    requires VolumeOk(v) && LegalRun(v, ops) && h in v.files && forall k :: 0 <= k < |ops| ==> ops[k].f != h
    ensures VolumeOk(Run(v, ops)) && Kept(v, Run(v, ops), h)
    decreases |ops|
  {
    hide VolumeOk, Step, Legal, CellsIn;
    if |ops| > 0 {
      StepKeeps(v, ops[0]);
      var w := Step(v, ops[0]);
      assert forall k :: 0 <= k < |ops[1..]| ==> ops[1..][k] == ops[k + 1];
      RunsKeepOthers(w, ops[1..], h);
      assert Kept(v, w, h);
    } else {
      FileFacts(v, h);
    }
  }

  // ---------- a volume that is not clean ----------

  /** One byte of a file, and a 9 that another system left behind it. */
  const LEFT_OVER: seq<Byte> := [7, 9] + Zeros(510)

  /** Clusters of one sector; the root directory has cluster 2, file 0 its one byte in cluster 3. */
  ghost function Stale(): Vol {
    Vol(D.Geometry(0, 1), [END, END, END, END], 2, 0, [ZERO, LEFT_OVER], map[0 := DirEntry(3, 1)], map[0 := [3]])
  }

  lemma {:induction false} StaleOk()
    ensures VolumeOk(Stale()) && CellsIn(Stale(), 0) == LEFT_OVER
  {
    var v := Stale();
    assert CeilDiv(1, 1 * 512) == 1;
    assert IsChain(v.fat, [3]);
    assert FileOk(v.g, v.fat, v.files[0], v.chains[0]);
    assert v.fat[2] == END && v.fat[3] == END;
    assert ZeroCount(v.fat, 4) == 0 && ZeroCount(v.fat, 3) == 0 && ZeroCount(v.fat, 2) == 0;
    StaleCells();
  }

  lemma {:induction false} StaleCells()
    requires VolumeOk(Stale())
    ensures CellsIn(Stale(), 0) == LEFT_OVER
  {
    hide VolumeOk, Cells;
    var v := Stale();
    FileOnDisk(v, 0);
    SizeInCells(v, 0);
    forall i | 0 <= i < 512 ensures CellsIn(v, 0)[i] == LEFT_OVER[i] {
      CellAt(v.g, v.data, v.chains[0], i);
    }
  }

  /** Writing behind the end of the file there, or growing it, shows the 9 instead of a zero. */
  lemma {:induction false} StaleShows()
    ensures VolumeOk(Stale()) && !Clean(Stale()) && ContentIn(Stale(), 0) == [7]
    ensures Legal(Stale(), Grow(0, 2)) && VolumeOk(Step(Stale(), Grow(0, 2)))
    ensures 0 in Step(Stale(), Grow(0, 2)).files && ContentIn(Step(Stale(), Grow(0, 2)), 0) == [7, 9]
    ensures Legal(Stale(), Write(0, 2, [5])) && VolumeOk(Step(Stale(), Write(0, 2, [5])))
    ensures 0 in Step(Stale(), Write(0, 2, [5])).files && ContentIn(Step(Stale(), Write(0, 2, [5])), 0) == [7, 9, 5]
  {
    hide VolumeOk, CellsIn, OnlyFile, GrowStep, WriteStep, ContentIn;
    StaleOk();
    var v := Stale();
    assert Fits(v, 2) && Fits(v, 3);
    GrowsInPlace(v, 0, 2);
    GrowsInPlace(v, 0, 3);
    assert !BlankTo(v, 0, 2) by { assert CellsIn(v, 0)[1] == 9; }
    GrowStepOk(v, 0, 2);
    GrownTo(v, 0, 2);
    WriteStepOk(v, 0, 2, [5]);
    StepKeeps(v, Write(0, 2, [5]));
    ShownBytes(v, GrowStep(v, 0, 2), WriteStep(v, 0, 2, [5]));
  }

  lemma {:induction false} ShownBytes(v: Vol, w: Vol, z: Vol)
    requires VolumeOk(v) && VolumeOk(w) && VolumeOk(z) && 0 in v.files && 0 in w.files && 0 in z.files
    requires v.files[0].size == 1 && v.g.spc == 1 && CellsIn(v, 0) == LEFT_OVER
    requires Extended(v, w, 0, 2) && Overwritten(v, z, 0, 2, [5])
    ensures ContentIn(v, 0) == [7] && ContentIn(w, 0) == [7, 9] && ContentIn(z, 0) == [7, 9, 5]
  {
    hide VolumeOk, CellsIn, OnlyFile, Zeros;
    assert CellsIn(w, 0)[0] == 7 && CellsIn(w, 0)[1] == 9;
    assert CellsIn(z, 0)[0] == 7 && CellsIn(z, 0)[1] == 9 && CellsIn(z, 0)[2] == 5;
  }
}

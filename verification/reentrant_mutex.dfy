/** The reentrant mutex as a protocol: every load, store, cell access and inner lock operation is its own step, taken
    by any of any number of threads. `owner` is a relaxed atomic: a load may return any value in its modification
    order that is not older than what the loading thread has already seen or written. */
module ReentrantMutex {
  import opened Basics

  /** `usize::MAX`, where the checked increment of the lock count panics. */
  const MAX_COUNT: nat := 0xFFFF_FFFF_FFFF_FFFF

  /** Where a thread stands in `lock_internal`, `unlock` or `unlock_fair`. */
  datatype Pc =
    | Idle
    | LoadOwner(try: bool)
    | ReadCount
    | WriteCount(n: nat)
    | AcquireInner(try: bool)
    | StoreOwner
    | CheckCount
    | SetOne
    | UnlockRead
    | UnlockWrite(m: int)
    | StoreZero
    | ReleaseInner
    | Overflowed
    | AssertFailed

  /** `held` counts the locks the thread has taken and not yet given back; `view` is its place in the order of `owner`.
      */
  datatype Thread = Thread(pc: Pc, held: nat, view: nat)

  /** `owner` is the modification order of the atomic: its last element is the current value. */
  datatype State = State(owner: seq<nat>, count: int, inner: Option<nat>, threads: seq<Thread>)

  /** Thread ids are non-zero and distinct. */
  function Id(i: nat): nat { i + 1 }

  ghost predicate Init(s: State) {
    && s.owner == [0] && s.count == 0 && s.inner == None
    && forall i :: 0 <= i < |s.threads| ==> s.threads[i] == Thread(Idle, 0, 0)
  }

  function Goto(s: State, i: nat, pc: Pc): State
    requires i < |s.threads|
  {
    s.(threads := s.threads[i := s.threads[i].(pc := pc)])
  }

  /** One step of thread `i`; `seen` is the index a load of `owner` reads. */
  ghost predicate Step(s: State, i: nat, seen: nat, s': State) {
    i < |s.threads| &&
    var t := s.threads[i];
    match t.pc
    case Idle =>
      || s' == Goto(s, i, LoadOwner(false))
      || s' == Goto(s, i, LoadOwner(true))
      || (t.held > 0 && s' == Goto(s, i, UnlockRead))
    case LoadOwner(try) =>
      && t.view <= seen < |s.owner|
      && s' == s.(threads := s.threads[i := Thread(if s.owner[seen] == Id(i) then ReadCount else AcquireInner(try),
                                                   t.held, seen)])
    case ReadCount =>
      s' == Goto(s, i, if 0 <= s.count < MAX_COUNT then WriteCount(s.count + 1) else Overflowed)
    case WriteCount(n) =>
      s' == s.(count := n, threads := s.threads[i := Thread(Idle, t.held + 1, t.view)])
    case AcquireInner(try) =>
      || (s.inner.None? && s' == Goto(s, i, StoreOwner).(inner := Some(i)))
      || (s.inner.Some? && try && s' == Goto(s, i, Idle))
    case StoreOwner =>
      s' == s.(owner := s.owner + [Id(i)], threads := s.threads[i := Thread(CheckCount, t.held, |s.owner|)])
    case CheckCount =>
      s' == Goto(s, i, if s.count == 0 then SetOne else AssertFailed)
    case SetOne =>
      s' == s.(count := 1, threads := s.threads[i := Thread(Idle, t.held + 1, t.view)])
    case UnlockRead =>
      s' == Goto(s, i, UnlockWrite(s.count - 1))
    case UnlockWrite(m) =>
      && t.held > 0
      && s' == s.(count := m, threads := s.threads[i := Thread(if m == 0 then StoreZero else Idle, t.held - 1, t.view)])
    case StoreZero =>
      s' == s.(owner := s.owner + [0], threads := s.threads[i := Thread(ReleaseInner, t.held, |s.owner|)])
    case ReleaseInner =>
      s' == Goto(s, i, Idle).(inner := None)
    case Overflowed => false
    case AssertFailed => false
  }

  // ---------- the invariant ----------

  /** The thread's id stands in `owner` from its store of the id to its store of zero. */
  predicate OwnerSet(t: Thread) {
    t.held > 0 || t.pc.CheckCount? || t.pc.SetOne? || t.pc.StoreZero?
  }

  /** The thread holds the inner mutex. */
  predicate Inside(t: Thread) {
    OwnerSet(t) || t.pc.StoreOwner? || t.pc.ReleaseInner?
  }

  /** What a thread's program counter says about the locks it holds. */
  predicate PcOk(t: Thread) {
    t.held <= 0xFFFF_FFFF_FFFF_FFFF &&
    match t.pc
    case Idle => true
    case LoadOwner(_) => true
    case ReadCount => t.held > 0
    case WriteCount(n) => 0 < t.held < 0xFFFF_FFFF_FFFF_FFFF && n == t.held + 1
    case AcquireInner(_) => t.held == 0
    case StoreOwner => t.held == 0
    case CheckCount => t.held == 0
    case SetOne => t.held == 0
    case UnlockRead => t.held > 0
    case UnlockWrite(m) => t.held > 0 && m == t.held - 1
    case StoreZero => t.held == 0
    case ReleaseInner => t.held == 0
    case Overflowed => t.held == 0xFFFF_FFFF_FFFF_FFFF
    case AssertFailed => false
  }

  ghost predicate Unseen(owner: seq<nat>, from: nat, id: nat) {
    forall k :: from <= k < |owner| ==> owner[k] != id
  }

  ghost predicate ThreadOk(s: State, i: nat)
    requires i < |s.threads|
  {
    var t := s.threads[i];
    && PcOk(t)
    && t.view < |s.owner|
    && (s.inner == Some(i) <==> Inside(t))
    && (Inside(t) ==> s.count == t.held)
    && (OwnerSet(t) ==> t.view == |s.owner| - 1 && s.owner[t.view] == Id(i))
    && (!OwnerSet(t) ==> Unseen(s.owner, t.view, Id(i)))
    && (Inside(t) && !OwnerSet(t) ==> s.owner[|s.owner| - 1] == 0)
  }

  ghost predicate Inv(s: State) {
    && |s.owner| > 0
    && (s.inner.None? ==> s.count == 0 && s.owner[|s.owner| - 1] == 0)
    && (s.inner.Some? ==> s.inner.value < |s.threads|)
    && forall i :: 0 <= i < |s.threads| ==> ThreadOk(s, i)
  }

  lemma {:induction false} InitInv(s: State)
    requires Init(s)
    ensures Inv(s)
  {
  }

  lemma {:induction false} StepSelf(s: State, i: nat, seen: nat, s': State)
    requires Inv(s) && Step(s, i, seen, s')
    ensures |s'.threads| == |s.threads| && ThreadOk(s', i)
  {
    hide ThreadOk, Inv;
    if Entering(s.threads[i].pc) {
      EnteringSelf(s, i, seen, s');
    } else if Leaving(s.threads[i].pc) {
      LeavingSelf(s, i, seen, s');
    } else {
      AskingSelf(s, i, seen, s');
    }
  }

  predicate Entering(pc: Pc) { pc.StoreOwner? || pc.CheckCount? || pc.SetOne? || pc.ReadCount? || pc.WriteCount? }

  predicate Leaving(pc: Pc) { pc.UnlockRead? || pc.UnlockWrite? || pc.StoreZero? || pc.ReleaseInner? }

  lemma {:induction false} EnteringSelf(s: State, i: nat, seen: nat, s': State)
    requires Inv(s) && Step(s, i, seen, s') && Entering(s.threads[i].pc)
    ensures |s'.threads| == |s.threads| && ThreadOk(s', i)
  {
    assert ThreadOk(s, i);
  }

  lemma {:induction false} LeavingSelf(s: State, i: nat, seen: nat, s': State)
    requires Inv(s) && Step(s, i, seen, s') && Leaving(s.threads[i].pc)
    ensures |s'.threads| == |s.threads| && ThreadOk(s', i)
  {
    assert ThreadOk(s, i);
  }

  lemma {:induction false} AskingSelf(s: State, i: nat, seen: nat, s': State)
    requires Inv(s) && Step(s, i, seen, s') && !Entering(s.threads[i].pc) && !Leaving(s.threads[i].pc)
    ensures |s'.threads| == |s.threads| && ThreadOk(s', i)
  {
    assert ThreadOk(s, i);
  }

  /** A step leaves every other thread's facts intact: only the holder of the inner mutex touches shared state. */
  lemma {:induction false} StepOther(s: State, i: nat, seen: nat, s': State, j: nat)
    requires Inv(s) && Step(s, i, seen, s') && j < |s.threads| && j != i
    ensures ThreadOk(s', j)
  {
    assert ThreadOk(s, i) && ThreadOk(s, j);
    assert s'.threads[j] == s.threads[j];
  }

  lemma {:induction false} StepShared(s: State, i: nat, seen: nat, s': State)
    requires Inv(s) && Step(s, i, seen, s')
    ensures |s'.owner| > 0
    ensures s'.inner.None? ==> s'.count == 0 && s'.owner[|s'.owner| - 1] == 0
    ensures s'.inner.Some? ==> s'.inner.value < |s'.threads|
  {
    assert ThreadOk(s, i);
  }

  lemma {:induction false} StepKeepsInv(s: State, i: nat, seen: nat, s': State)
    requires Inv(s) && Step(s, i, seen, s')
    ensures Inv(s')
  {
    hide Step, ThreadOk;
    StepShared(s, i, seen, s');
    StepSelf(s, i, seen, s');
    forall j | 0 <= j < |s'.threads| ensures ThreadOk(s', j) {
      if j != i { StepOther(s, i, seen, s', j); }
    }
  }

  // ---------- every interleaving ----------

  /** A run: states one after another, each by one step of some thread. */
  ghost predicate IsRun(run: seq<State>) {
    && |run| > 0 && Init(run[0])
    && forall k :: 0 <= k < |run| - 1 ==> CanStep(run[k], run[k + 1])
  }

  ghost predicate CanStep(s: State, s': State) {
    exists i: nat, seen: nat :: Step(s, i, seen, s')
  }

  lemma {:induction false} RunsKeepInv(run: seq<State>, k: nat)
    requires IsRun(run) && k < |run|
    ensures Inv(run[k])
  {
    hide Step, ThreadOk;
    if k == 0 {
      InitInv(run[0]);
    } else {
      RunsKeepInv(run, k - 1);
      assert CanStep(run[k - 1], run[k - 1 + 1]);
      var i: nat, seen: nat :| Step(run[k - 1], i, seen, run[k]);
      StepKeepsInv(run[k - 1], i, seen, run[k]);
    }
  }

  /** What thread `i` may rely on. */
  ghost predicate SafeFor(s: State, i: nat)
    requires i < |s.threads|
  {
    var t := s.threads[i];
    && |s.owner| > 0
    // `owner == id` means: this thread has the inner mutex, and `lock_count` is the number of its outstanding locks
    && (s.owner[|s.owner| - 1] == Id(i) ==> s.inner == Some(i) && s.count == t.held)
    && (t.held > 0 ==> s.inner == Some(i) && s.count == t.held && s.owner[|s.owner| - 1] == Id(i))
    // the assertion holds where it is made, and an unlock does not underflow
    && (t.pc.CheckCount? ==> s.count == 0)
    && !t.pc.AssertFailed?
    && (t.pc.UnlockRead? ==> s.count > 0)
    // the count overflows only where it is at its largest value
    && (t.pc.Overflowed? ==> t.held == 0xFFFF_FFFF_FFFF_FFFF)
    // nobody else is inside
    && (t.held > 0 ==> forall j :: 0 <= j < |s.threads| && j != i ==> s.threads[j].held == 0)
  }

  /** In every state of every run, every thread is safe: mutual exclusion, ownership, count and assertion. */
  lemma {:induction false} MutexSafety(run: seq<State>, k: nat, i: nat)
    requires IsRun(run) && k < |run| && i < |run[k].threads|
    ensures SafeFor(run[k], i)
  {
    RunsKeepInv(run, k);
    var s := run[k];
    assert ThreadOk(s, i);
    if s.inner.Some? { assert ThreadOk(s, s.inner.value); }
    forall j | 0 <= j < |s.threads| && j != i && s.threads[i].held > 0 ensures s.threads[j].held == 0 {
      assert ThreadOk(s, j);
    }
  }

  predicate TouchesCount(pc: Pc) {
    pc.ReadCount? || pc.WriteCount? || pc.CheckCount? || pc.SetOne? || pc.UnlockRead? || pc.UnlockWrite?
  }

  /** The plain cell `lock_count` is race free: two threads are never both about to access it. */
  lemma {:induction false} CountIsRaceFree(run: seq<State>, k: nat, i: nat, j: nat)
    requires IsRun(run) && k < |run| && i < |run[k].threads| && j < |run[k].threads|
    requires TouchesCount(run[k].threads[i].pc) && TouchesCount(run[k].threads[j].pc)
    ensures i == j
  {
    RunsKeepInv(run, k);
    assert ThreadOk(run[k], i) && ThreadOk(run[k], j);
  }

  /** Reentrancy, in spite of relaxed loads: a thread sees its own id exactly when it holds the lock, so its nested
      `lock` never waits for the inner mutex and its first `lock` always asks for it. */
  lemma {:induction false} LoadTellsOwnership(run: seq<State>, k: nat, i: nat, seen: nat, s': State)
    requires IsRun(run) && k < |run| && Step(run[k], i, seen, s') && run[k].threads[i].pc.LoadOwner?
    ensures s'.threads[i].pc.ReadCount? <==> run[k].threads[i].held > 0
  {
    RunsKeepInv(run, k);
    assert ThreadOk(run[k], i);
  }

  /** `try_lock` gives up only when another thread is inside. */
  lemma {:induction false} TryLockFailsOnlyIfHeld(run: seq<State>, k: nat, i: nat, seen: nat, s': State)
    requires IsRun(run) && k < |run| && Step(run[k], i, seen, s')
    requires run[k].threads[i].pc.AcquireInner? && s'.threads[i].pc.Idle?
    ensures exists j :: 0 <= j < |run[k].threads| && j != i && Inside(run[k].threads[j])
  {
    RunsKeepInv(run, k);
    var j := run[k].inner.value;
    assert ThreadOk(run[k], i) && ThreadOk(run[k], j);
    assert Inside(run[k].threads[j]);
  }

  /** A nested lock succeeds and counts: with fewer locks held than `usize` can count, reading the count leads to
      writing one more, and that to one more lock held. */
  lemma {:induction false} NestedLockCounts(run: seq<State>, k: nat, i: nat, seen: nat, s': State)
    requires IsRun(run) && k < |run| && Step(run[k], i, seen, s')
    ensures var t, t' := run[k].threads[i], s'.threads[i];
            && (t.pc.ReadCount? && t.held < 0xFFFF_FFFF_FFFF_FFFF ==> t'.pc == WriteCount(t.held + 1))
            && (t.pc.WriteCount? ==> t'.pc == Idle && t'.held == t.held + 1 == s'.count)
  {
    RunsKeepInv(run, k);
    assert ThreadOk(run[k], i);
  }

  /** What a step does to the locks held: one more where a call to lock returns, one less where an unlock writes the
      count, and nobody else's change. */
  lemma {:induction false} HeldChanges(run: seq<State>, k: nat, i: nat, seen: nat, s': State)
    requires IsRun(run) && k < |run| && Step(run[k], i, seen, s')
    ensures |s'.threads| == |run[k].threads|
    ensures forall j :: 0 <= j < |s'.threads| && j != i ==> s'.threads[j] == run[k].threads[j]
    ensures var t, t' := run[k].threads[i], s'.threads[i];
            t'.held - t.held == (if t.pc.WriteCount? || t.pc.SetOne? then 1 else if t.pc.UnlockWrite? then -1 else 0)
  {
  }

  /** Whoever holds the inner mutex can go on, so it is given back: only an overflow of the count stops its holder. */
  lemma {:induction false} HolderCanStep(run: seq<State>, k: nat, i: nat) returns (seen: nat, s': State)
    requires IsRun(run) && k < |run| && run[k].inner == Some(i)
    ensures i < |run[k].threads|
    ensures run[k].threads[i].pc.Overflowed? || Step(run[k], i, seen, s')
  {
    RunsKeepInv(run, k);
    var s := run[k];
    assert ThreadOk(s, i);
    var t := s.threads[i];
    seen := t.view;
    match t.pc
    case Idle => s' := Goto(s, i, LoadOwner(false));
    case LoadOwner(try) => s' := s.(threads := s.threads[i := Thread(ReadCount, t.held, seen)]);
    case ReadCount => s' := Goto(s, i, if s.count < MAX_COUNT then WriteCount(s.count + 1) else Overflowed);
    case WriteCount(n) => s' := s.(count := n, threads := s.threads[i := Thread(Idle, t.held + 1, t.view)]);
    case StoreOwner =>
      s' := s.(owner := s.owner + [Id(i)], threads := s.threads[i := Thread(CheckCount, t.held, |s.owner|)]);
    case CheckCount => s' := Goto(s, i, SetOne);
    case SetOne => s' := s.(count := 1, threads := s.threads[i := Thread(Idle, t.held + 1, t.view)]);
    case UnlockRead => s' := Goto(s, i, UnlockWrite(s.count - 1));
    case UnlockWrite(m) =>
      s' := s.(count := m, threads := s.threads[i := Thread(if m == 0 then StoreZero else Idle, t.held - 1, t.view)]);
    case StoreZero =>
      s' := s.(owner := s.owner + [0], threads := s.threads[i := Thread(ReleaseInner, t.held, |s.owner|)]);
    case ReleaseInner => s' := Goto(s, i, Idle).(inner := None);
    case _ => s' := s;
  }

  // ---------- whole calls ----------

  /** One more step of a run. */
  lemma {:induction false} Then(run: seq<State>, i: nat, seen: nat, s': State) returns (next: seq<State>)
    requires IsRun(run) && Step(run[|run| - 1], i, seen, s')
    ensures next == run + [s'] && IsRun(next) && next[|next| - 1] == s'
  {
    hide Step, Init;
    next := run + [s'];
    assert CanStep(run[|run| - 1], s');
    forall k | 0 <= k < |next| - 1 ensures CanStep(next[k], next[k + 1]) {
      if k < |run| - 1 { assert CanStep(run[k], run[k + 1]); }
    }
  }

  /** Where nobody is inside, `lock` takes the mutex by the thread's own steps alone. */
  lemma {:induction false} LockWhenFree(run: seq<State>, i: nat) returns (after: seq<State>)
    requires IsRun(run) && run[|run| - 1].inner.None? && i < |run[|run| - 1].threads|
    requires run[|run| - 1].threads[i].pc.Idle?
    ensures IsRun(after) && run <= after
    ensures var s, z := run[|run| - 1], after[|after| - 1];
            && z.inner == Some(i) && z.count == 1 && |z.owner| > 0 && z.owner[|z.owner| - 1] == Id(i)
            && |z.threads| == |s.threads| && z.threads[i].pc.Idle? && z.threads[i].held == 1
            && forall j :: 0 <= j < |s.threads| && j != i ==> z.threads[j] == s.threads[j]
  {
    hide IsRun;
    LastOk(run);
    var s := run[|run| - 1];
    assert ThreadOk(s, i);
    var t := s.threads[i];
    after := Then(run, i, 0, Goto(s, i, LoadOwner(false)));
    s := after[|after| - 1];
    after := Then(after, i, t.view, Goto(s, i, AcquireInner(false)));
    s := after[|after| - 1];
    after := Then(after, i, 0, Goto(s, i, StoreOwner).(inner := Some(i)));
    s := after[|after| - 1];
    after := Then(after, i, 0, s.(owner := s.owner + [Id(i)],
                                  threads := s.threads[i := Thread(CheckCount, 0, |s.owner|)]));
    s := after[|after| - 1];
    after := Then(after, i, 0, Goto(s, i, SetOne));
    s := after[|after| - 1];
    after := Then(after, i, 0, s.(count := 1, threads := s.threads[i := Thread(Idle, 1, s.threads[i].view)]));
  }

  lemma {:induction false} LastOk(run: seq<State>)
    requires IsRun(run)
    ensures |run| > 0 && Inv(run[|run| - 1])
  {
    RunsKeepInv(run, |run| - 1);
  }

  /** A nested `lock` goes through by the thread's own steps alone, as long as the count has room. */
  lemma {:induction false} LockAgain(run: seq<State>, i: nat) returns (after: seq<State>)
    requires IsRun(run) && i < |run[|run| - 1].threads| && run[|run| - 1].threads[i].pc.Idle?
    requires 0 < run[|run| - 1].threads[i].held < 0xFFFF_FFFF_FFFF_FFFF
    ensures IsRun(after) && run <= after
    ensures var s, z := run[|run| - 1], after[|after| - 1];
            && z.inner == Some(i) && z.count == s.threads[i].held + 1 && z.owner == s.owner
            && |z.threads| == |s.threads| && z.threads[i].pc.Idle? && z.threads[i].held == s.threads[i].held + 1
            && forall j :: 0 <= j < |s.threads| && j != i ==> z.threads[j] == s.threads[j]
  {
    hide IsRun;
    LastOk(run);
    var s := run[|run| - 1];
    assert ThreadOk(s, i);
    var t := s.threads[i];
    after := Then(run, i, 0, Goto(s, i, LoadOwner(false)));
    s := after[|after| - 1];
    after := Then(after, i, t.view, Goto(s, i, ReadCount));
    s := after[|after| - 1];
    after := Then(after, i, 0, Goto(s, i, WriteCount(t.held + 1)));
    s := after[|after| - 1];
    after := Then(after, i, 0, s.(count := t.held + 1, threads := s.threads[i := Thread(Idle, t.held + 1, t.view)]));
  }

  /** `unlock` gives one lock back by the thread's own steps alone, and with the last one the mutex. */
  lemma {:induction false} UnlockGivesBack(run: seq<State>, i: nat) returns (after: seq<State>)
    requires IsRun(run) && i < |run[|run| - 1].threads| && run[|run| - 1].threads[i].pc.Idle?
    requires run[|run| - 1].threads[i].held > 0
    ensures IsRun(after) && run <= after
    ensures var s, z := run[|run| - 1], after[|after| - 1];
            && |z.threads| == |s.threads| && z.threads[i].pc.Idle? && z.threads[i].held == s.threads[i].held - 1
            && z.count == z.threads[i].held && z.inner == (if z.threads[i].held == 0 then None else Some(i))
            && forall j :: 0 <= j < |s.threads| && j != i ==> z.threads[j] == s.threads[j]
  {
    hide IsRun;
    LastOk(run);
    var s := run[|run| - 1];
    assert ThreadOk(s, i);
    var t := s.threads[i];
    after := Then(run, i, 0, Goto(s, i, UnlockRead));
    s := after[|after| - 1];
    after := Then(after, i, 0, Goto(s, i, UnlockWrite(t.held - 1)));
    s := after[|after| - 1];
    var left := t.held - 1;
    var pc := if left == 0 then StoreZero else Idle;
    after := Then(after, i, 0, s.(count := left, threads := s.threads[i := Thread(pc, left, t.view)]));
    if left == 0 {
      s := after[|after| - 1];
      after := Then(after, i, 0, s.(owner := s.owner + [0],
                                    threads := s.threads[i := Thread(ReleaseInner, 0, |s.owner|)]));
      s := after[|after| - 1];
      after := Then(after, i, 0, Goto(s, i, Idle).(inner := None));
    }
  }
}

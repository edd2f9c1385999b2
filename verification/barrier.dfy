/** The spin barrier as a protocol: each critical section under the barrier's lock is one step of one thread. History
    variables record who arrived in which generation and what each call returned. */
module Barrier {
  import opened Arith
  import opened Basics

  /** `usize` wraps around here. */
  const WRAP: nat := 0x1_0000_0000_0000_0000

  /** A waiting call remembers the generation counter it saw; `joined` and `place` are history: the true generation of
      the call and its place among that generation's arrivals. */
  datatype Local = Outside | Waiting(localGen: nat, joined: nat, place: nat)

  /** `count` and `gen` are the barrier's own state. `arrivals[e]` lists the threads that arrived in generation `e`, the
      last list being the generation still open; `results[(e, p)]` is what the call at place `p` of it returned. */
  datatype State = State(
    count: nat,
    gen: nat,
    threads: seq<Local>,
    arrivals: seq<seq<nat>>,
    results: map<(nat, nat), bool>)

  function Succ(g: nat): nat { if g + 1 == WRAP then 0 else g + 1 }

  /** What the wrapping counter shows in generation `e`. */
  function Shown(e: nat): nat { if e == 0 then 0 else Succ(Shown(e - 1)) }

  /** A barrier for 0 threads behaves as one for 1. */
  function Size(n: nat): nat { if n == 0 then 1 else n }

  function Epoch(s: State): int { |s.arrivals| - 1 }

  ghost predicate Init(s: State) {
    && s.count == 0 && s.gen == 0 && s.arrivals == [[]] && s.results == map[]
    && forall i :: 0 <= i < |s.threads| ==> s.threads[i] == Outside
  }

  /** Entering `wait` when fewer than the required number have arrived. */
  ghost predicate Arrive(n: nat, s: State, i: nat, s': State) {
    && i < |s.threads| && s.threads[i] == Outside && s.count + 1 < n && |s.arrivals| > 0
    && var e := |s.arrivals| - 1;
    && s' == s.(count := s.count + 1,
                threads := s.threads[i := Waiting(s.gen, e, |s.arrivals[e]|)],
                arrivals := s.arrivals[e := s.arrivals[e] + [i]])
  }

  /** Entering `wait` as the last one: reset the count, advance the generation, return as leader. */
  ghost predicate Lead(n: nat, s: State, i: nat, s': State) {
    && i < |s.threads| && s.threads[i] == Outside && s.count + 1 >= n && |s.arrivals| > 0
    && var e := |s.arrivals| - 1;
    && s' == s.(count := 0, gen := Succ(s.gen),
                arrivals := s.arrivals[e := s.arrivals[e] + [i]] + [[]],
                results := s.results[(e, |s.arrivals[e]|) := true])
  }

  /** One turn of the spin loop: keep waiting, or leave as a follower. */
  ghost predicate Poll(n: nat, s: State, i: nat, s': State) {
    && i < |s.threads| && s.threads[i].Waiting?
    && var t := s.threads[i];
    if t.localGen == s.gen && s.count < n then s' == s
    else s' == s.(threads := s.threads[i := Outside], results := s.results[(t.joined, t.place) := false])
  }

  ghost predicate Step(n: nat, s: State, i: nat, s': State) {
    Arrive(n, s, i, s') || Lead(n, s, i, s') || Poll(n, s, i, s')
  }

  // ---------- the invariant, for any number of participants ----------

  /** A waiting call is where the history says, in a generation not yet led by it. */
  ghost predicate WaiterOk(n: nat, s: State, i: nat)
    requires i < |s.threads|
  {
    match s.threads[i]
    case Outside => true
    case Waiting(g, e, p) =>
      && e < |s.arrivals| && p < |s.arrivals[e]| && p + 1 < Size(n) && s.arrivals[e][p] == i
      && g == Shown(e) && (e, p) !in s.results
  }

  /** Place `p` of a generation: in the open one, the call is waiting; in a complete one, it returned or waits. */
  ghost predicate PlaceOk(n: nat, s: State, e: nat, p: nat)
    requires e < |s.arrivals| && p < |s.arrivals[e]|
  {
    var i := s.arrivals[e][p];
    && i < |s.threads|
    && (p + 1 == Size(n) ==> e < Epoch(s) && (e, p) in s.results && s.results[(e, p)])
    && (p + 1 < Size(n) ==>
          || s.threads[i] == Waiting(Shown(e), e, p)
          || (e < Epoch(s) && (e, p) in s.results && !s.results[(e, p)]))
  }

  ghost predicate Inv(n: nat, s: State) {
    && |s.arrivals| > 0
    && s.count == |s.arrivals[Epoch(s)]| < Size(n)
    && s.gen == Shown(Epoch(s))
    && (forall e :: 0 <= e < Epoch(s) ==> |s.arrivals[e]| == Size(n))
    && (forall e, p :: 0 <= e < |s.arrivals| && 0 <= p < |s.arrivals[e]| ==> PlaceOk(n, s, e, p))
    && (forall i :: 0 <= i < |s.threads| ==> WaiterOk(n, s, i))
    && (forall k :: k in s.results ==> k.0 < Epoch(s) && k.1 < Size(n))
  }

  lemma {:induction false} InitInv(n: nat, s: State)
    requires Init(s)
    ensures Inv(n, s)
  {
  }

  lemma {:induction false} ArriveKeeps(n: nat, s: State, i: nat, s': State)
    requires Inv(n, s) && Arrive(n, s, i, s')
    ensures Inv(n, s')
  {
    var e0 := Epoch(s);
    forall e, p | 0 <= e < |s'.arrivals| && 0 <= p < |s'.arrivals[e]| ensures PlaceOk(n, s', e, p) {
      if e < e0 || p < |s.arrivals[e]| {
        assert PlaceOk(n, s, e, p);
        assert s'.arrivals[e][p] == s.arrivals[e][p];
      }
    }
    forall j | 0 <= j < |s'.threads| ensures WaiterOk(n, s', j) { assert WaiterOk(n, s, j); }
  }

  lemma {:induction false} LeadKeeps(n: nat, s: State, i: nat, s': State)
    requires Inv(n, s) && Lead(n, s, i, s')
    ensures Inv(n, s')
  {
    var e0 := Epoch(s);
    forall e, p | 0 <= e < |s'.arrivals| && 0 <= p < |s'.arrivals[e]| ensures PlaceOk(n, s', e, p) {
      if e < e0 || p < |s.arrivals[e]| {
        assert PlaceOk(n, s, e, p);
        assert s'.arrivals[e][p] == s.arrivals[e][p];
      }
    }
    forall j | 0 <= j < |s'.threads| ensures WaiterOk(n, s', j) { assert WaiterOk(n, s, j); }
  }

  lemma {:induction false} PollKeeps(n: nat, s: State, i: nat, s': State)
    requires Inv(n, s) && Poll(n, s, i, s')
    ensures Inv(n, s')
  {
    assert WaiterOk(n, s, i);
    var t := s.threads[i];
    assert PlaceOk(n, s, t.joined, t.place);
    forall e, p | 0 <= e < |s'.arrivals| && 0 <= p < |s'.arrivals[e]| ensures PlaceOk(n, s', e, p) {
      assert PlaceOk(n, s, e, p);
    }
    forall j | 0 <= j < |s'.threads| ensures WaiterOk(n, s', j) { assert WaiterOk(n, s, j); }
  }

  ghost predicate IsRun(n: nat, run: seq<State>) {
    && |run| > 0 && Init(run[0])
    && forall k :: 0 <= k < |run| - 1 ==> CanStep(n, run[k], run[k + 1])
  }

  ghost predicate CanStep(n: nat, s: State, s': State) {
    exists i: nat :: Step(n, s, i, s')
  }

  lemma {:induction false} StepKeeps(n: nat, s: State, i: nat, s': State)
    requires Inv(n, s) && Step(n, s, i, s')
    ensures Inv(n, s') && |s'.threads| == |s.threads|
  {
    hide Inv;
    if Arrive(n, s, i, s') { ArriveKeeps(n, s, i, s'); }
    else if Lead(n, s, i, s') { LeadKeeps(n, s, i, s'); }
    else { PollKeeps(n, s, i, s'); }
  }

  lemma {:induction false} RunsKeepInv(n: nat, run: seq<State>, k: nat)
    requires IsRun(n, run) && k < |run|
    ensures Inv(n, run[k]) && |run[k].threads| == |run[0].threads|
  {
    hide Step, Inv;
    if k == 0 {
      InitInv(n, run[0]);
    } else {
      RunsKeepInv(n, run, k - 1);
      assert CanStep(n, run[k - 1], run[k - 1 + 1]);
      var i: nat :| Step(n, run[k - 1], i, run[k]);
      StepKeeps(n, run[k - 1], i, run[k]);
    }
  }

  /** Nobody leaves before the whole generation has arrived, whatever the number of participants. */
  lemma {:induction false} NoneLeavesEarly(n: nat, run: seq<State>, k: nat, i: nat, s': State)
    requires IsRun(n, run) && k < |run| && Step(n, run[k], i, s')
    requires run[k].threads[i].Waiting? && s'.threads[i] == Outside
    ensures var e := run[k].threads[i].joined; e < Epoch(run[k]) && |run[k].arrivals[e]| == Size(n)
  {
    RunsKeepInv(n, run, k);
    assert WaiterOk(n, run[k], i);
  }

  /** Of a complete generation, exactly the last arrival returned as leader, and every other of its callers has
      returned as follower or is still spinning; of the open generation nobody has returned. */
  lemma {:induction false} OneLeaderPerGeneration(n: nat, run: seq<State>, k: nat, e: nat, p: nat)
    requires IsRun(n, run) && k < |run| && e < |run[k].arrivals| && p < |run[k].arrivals[e]|
    ensures var s := run[k]; var i := s.arrivals[e][p];
            if e == Epoch(s) then (e, p) !in s.results && i < |s.threads| && s.threads[i].Waiting?
            else && |s.arrivals[e]| == Size(n)
                 && if p + 1 == Size(n) then (e, p) in s.results && s.results[(e, p)]
                    else if (e, p) in s.results then !s.results[(e, p)]
                    else i < |s.threads| && s.threads[i] == Waiting(Shown(e), e, p)
  {
    RunsKeepInv(n, run, k);
    assert PlaceOk(n, run[k], e, p);
    var i := run[k].arrivals[e][p];
    assert WaiterOk(n, run[k], i);
  }

  /** Once no thread is inside `wait`, each generation has released exactly `Size(n)` callers, one of them as leader. */
  lemma {:induction false} QuietBarrierReleasedAll(n: nat, run: seq<State>, k: nat)
    requires IsRun(n, run) && k < |run|
    requires forall i :: 0 <= i < |run[k].threads| ==> run[k].threads[i] == Outside
    ensures forall e, p :: (e, p) in run[k].results <==> 0 <= e < Epoch(run[k]) && 0 <= p < Size(n)
    ensures forall e, p :: (e, p) in run[k].results ==> (run[k].results[(e, p)] <==> p + 1 == Size(n))
  {
    RunsKeepInv(n, run, k);
    var s := run[k];
    forall e: int, p: int | 0 <= e < Epoch(s) && 0 <= p < Size(n)
      ensures (e, p) in s.results && (s.results[(e, p)] <==> p + 1 == Size(n))
    {
      assert PlaceOk(n, s, e, p);
    }
  }

  // ---------- exactly `n` participants: the wrapping counter is harmless ----------

  /** No waiter is more than one generation behind. */
  ghost predicate Close(s: State) {
    forall i :: 0 <= i < |s.threads| && s.threads[i].Waiting? ==> s.threads[i].joined + 1 >= Epoch(s)
  }

  ghost function Elements(a: seq<nat>, k: nat): set<nat>
    requires k <= |a|
  {
    set p | 0 <= p < k :: a[p]
  }

  lemma {:induction false} ElementsCount(a: seq<nat>, k: nat)
    requires k <= |a|
    ensures |Elements(a, k)| <= k
    ensures (forall p, q :: 0 <= p < q < k ==> a[p] != a[q]) ==> |Elements(a, k)| == k
  {
    if k > 0 {
      ElementsCount(a, k - 1);
      assert Elements(a, k) == Elements(a, k - 1) + {a[k - 1]};
    }
  }

  ghost function Below(n: nat): set<nat> { set j: nat | j < n && Less(j, n) }

  predicate Less(j: nat, n: nat) { j < n }

  lemma {:induction false} BelowCount(n: nat)
    ensures |Below(n)| == n
  {
    if n > 0 {
      BelowCount(n - 1);
      assert Below(n) == Below(n - 1) + {n - 1};
    }
  }

  lemma {:induction false} SubsetFull(a: set<nat>, b: set<nat>)
    requires a <= b && |a| >= |b|
    ensures a == b
  {
    assert |b - a| == |b| - |a|;
    assert b == a + (b - a);
  }

  /** When the leader arrives, all others are waiting in the same generation. */
  lemma {:induction false} LeaderFindsAll(n: nat, s: State, i: nat, j: nat)
    requires Inv(n, s) && n > 0 && |s.threads| == n && i < n && s.threads[i] == Outside && s.count + 1 >= n
    requires j < n && j != i
    ensures s.threads[j].Waiting? && s.threads[j].joined == Epoch(s)
  {
    var a := s.arrivals[Epoch(s)];
    forall p | 0 <= p < |a| ensures a[p] < n && s.threads[a[p]] == Waiting(Shown(Epoch(s)), Epoch(s), p) {
      assert PlaceOk(n, s, Epoch(s), p);
    }
    ElementsCount(a, |a|);
    BelowCount(n);
    var rest := Below(n) - {i};
    assert Elements(a, |a|) <= rest;
    SubsetFull(Elements(a, |a|), rest);
    assert j in rest;
  }

  lemma {:induction false} StepKeepsClose(n: nat, s: State, i: nat, s': State)
    requires Inv(n, s) && n > 0 && |s.threads| == n && Close(s) && Step(n, s, i, s')
    ensures Close(s')
  {
    if Lead(n, s, i, s') {
      forall j | 0 <= j < n && j != i ensures s.threads[j].Waiting? && s.threads[j].joined == Epoch(s) {
        LeaderFindsAll(n, s, i, j);
      }
    }
  }

  lemma {:induction false} RunsStayClose(n: nat, run: seq<State>, k: nat)
    requires IsRun(n, run) && k < |run| && n > 0 && |run[0].threads| == n
    ensures Close(run[k])
  {
    hide Step, Inv;
    if k > 0 {
      RunsStayClose(n, run, k - 1);
      RunsKeepInv(n, run, k - 1);
      assert CanStep(n, run[k - 1], run[k - 1 + 1]);
      var i: nat :| Step(n, run[k - 1], i, run[k]);
      StepKeepsClose(n, run[k - 1], i, run[k]);
    }
  }

  /** A waiter leaves at its next turn exactly when its generation is complete: the counter never aliases. */
  lemma {:induction false} ReleasedExactlyWhenComplete(n: nat, run: seq<State>, k: nat, i: nat, s': State)
    requires IsRun(n, run) && k < |run| && n > 0 && |run[0].threads| == n
    requires i < n && i < |run[k].threads| && run[k].threads[i].Waiting? && Step(n, run[k], i, s')
    ensures s'.threads[i] == Outside <==> run[k].threads[i].joined < Epoch(run[k])
  {
    RunsKeepInv(n, run, k);
    RunsStayClose(n, run, k);
    var s := run[k];
    assert WaiterOk(n, s, i);
    var e := s.threads[i].joined;
    assert Shown(e + 1) == Succ(Shown(e)) != Shown(e);
  }

  /** No deadlock: while all participants wait, one of them belongs to a complete generation and can leave. */
  lemma {:induction false} SomeoneCanLeave(n: nat, run: seq<State>, k: nat) returns (i: nat)
    requires IsRun(n, run) && k < |run| && n > 0 && |run[0].threads| == n
    requires forall j :: 0 <= j < |run[k].threads| ==> run[k].threads[j].Waiting?
    ensures i < |run[k].threads| && run[k].threads[i].Waiting? && run[k].threads[i].joined < Epoch(run[k])
  {
    RunsKeepInv(n, run, k);
    var s := run[k];
    var a := s.arrivals[Epoch(s)];
    if forall j :: 0 <= j < n ==> s.threads[j].joined >= Epoch(s) {
      forall j: nat | j in Below(n) ensures j in Elements(a, |a|) {
        assert WaiterOk(n, s, j);
        assert a[s.threads[j].place] == j;
      }
      ElementsCount(a, |a|);
      BelowCount(n);
      SubsetSize(Below(n), Elements(a, |a|));
      assert false;
    }
    i :| 0 <= i < n && s.threads[i].joined < Epoch(s);
  }

  // ---------- any number of participants ----------

  /** The wrapping counter shows the same number again exactly after whole rounds. */
  lemma {:induction false} CounterAliases(e: nat, d: nat)
    ensures Shown(e + d) == Shown(e) <==> d % 0x1_0000_0000_0000_0000 == 0
  {
    ShownMod(e);
    ShownMod(e + d);
    SameRemainder(e, d, 0x1_0000_0000_0000_0000);
  }

  lemma {:induction false} ShownMod(e: nat)
    ensures Shown(e) == e % 0x1_0000_0000_0000_0000
  {
    if e > 0 { ShownMod(e - 1); }
  }

  /** With any number of participants: a waiter that looks is released exactly unless a whole number of rounds of the
      counter has passed since it joined, none included. */
  lemma {:induction false} ReleasedUnlessAliased(n: nat, run: seq<State>, k: nat, i: nat, s': State)
    requires IsRun(n, run) && k < |run| && i < |run[k].threads|
    requires run[k].threads[i].Waiting? && Step(n, run[k], i, s')
    ensures run[k].threads[i].joined <= Epoch(run[k])
    ensures s'.threads[i] == Outside <==>
              (Epoch(run[k]) - run[k].threads[i].joined) % 0x1_0000_0000_0000_0000 != 0
  {
    RunsKeepInv(n, run, k);
    var s := run[k];
    assert WaiterOk(n, s, i);
    CounterAliases(s.threads[i].joined, Epoch(s) - s.threads[i].joined);
  }

  /** A barrier for two with three threads: thread 0 still waits in generation 0, `g` generations are complete. */
  ghost predicate Straggling(s: State, g: nat) {
    && |s.threads| == 3 && s.threads[0] == Waiting(0, 0, 0) && s.threads[1] == Outside && s.threads[2] == Outside
    && Epoch(s) == g && s.count == 0 && |s.arrivals[g]| == 0
  }

  /** The first generation: threads 0 and 1 arrive, and thread 0 does not look again. */
  ghost function Start(): seq<State> {
    var s0 := State(0, 0, [Outside, Outside, Outside], [[]], map[]);
    var s1 := State(1, 0, [Waiting(0, 0, 0), Outside, Outside], [[0]], map[]);
    [s0, s1, State(0, 1, [Waiting(0, 0, 0), Outside, Outside], [[0, 1], []], map[(0, 1) := true])]
  }

  lemma {:induction false} Starts()
    ensures IsRun(2, Start()) && Straggling(Start()[2], 1)
  {
    var r := Start();
    assert Init(r[0]);
    assert r[0].arrivals[0] + [0] == [0] && r[1].arrivals[0] + [1] == [0, 1];
    assert Arrive(2, r[0], 0, r[1]);
    assert Step(2, r[0], 0, r[1]);
    assert Lead(2, r[1], 1, r[2]);
    assert Step(2, r[1], 1, r[2]);
  }

  /** One more generation of threads 1 and 2: one arrives, the other leads, the first one leaves. */
  ghost function Round(s: State, g: nat): (r: seq<State>)
    requires Straggling(s, g)
    ensures |r| == 3
  {
    var s1 := s.(count := 1, threads := s.threads[1 := Waiting(s.gen, g, 0)],
                 arrivals := s.arrivals[g := s.arrivals[g] + [1]]);
    var s2 := s1.(count := 0, gen := Succ(s.gen), arrivals := s1.arrivals[g := s1.arrivals[g] + [2]] + [[]],
                  results := s1.results[(g, 1) := true]);
    [s1, s2, s2.(threads := s2.threads[1 := Outside], results := s2.results[(g, 0) := false])]
  }

  lemma {:induction false} Rounds(s: State, g: nat)
    requires Straggling(s, g)
    ensures var r := Round(s, g);
            CanStep(2, s, r[0]) && CanStep(2, r[0], r[1]) && CanStep(2, r[1], r[2]) && Straggling(r[2], g + 1)
  {
    var r := Round(s, g);
    assert Arrive(2, s, 1, r[0]);
    assert Step(2, s, 1, r[0]);
    assert Lead(2, r[0], 2, r[1]);
    assert Step(2, r[0], 2, r[1]);
    assert Poll(2, r[1], 1, r[2]);
    assert Step(2, r[1], 1, r[2]);
    assert r[2].threads == s.threads;
  }

  lemma {:induction false} Longer(n: nat, run: seq<State>, s: State)
    requires IsRun(n, run) && CanStep(n, run[|run| - 1], s)
    ensures IsRun(n, run + [s]) && (run + [s])[|run|] == s
  {
    hide CanStep, Init;
    var r := run + [s];
    forall k | 0 <= k < |r| - 1 ensures CanStep(n, r[k], r[k + 1]) {
      if k < |run| - 1 { assert CanStep(n, run[k], run[k + 1]); }
    }
  }

  /** However many generations the other two complete, thread 0 may still be waiting in the first one. */
  lemma {:induction false} StragglerRun(g: nat) returns (run: seq<State>)
    requires g >= 1
    ensures IsRun(2, run) && Straggling(run[|run| - 1], g)
    decreases g
  {
    hide IsRun, Straggling, CanStep, Round;
    if g == 1 {
      Starts();
      run := Start();
    } else {
      var r := StragglerRun(g - 1);
      NotEmpty(r);
      var s := r[|r| - 1];
      Rounds(s, g - 1);
      var t := Round(s, g - 1);
      run := Thrice(r, t[0], t[1], t[2]);
    }
  }

  lemma {:induction false} NotEmpty(run: seq<State>)
    requires IsRun(2, run)
    ensures |run| > 0
  {
  }

  lemma {:induction false} Thrice(run: seq<State>, a: State, b: State, c: State) returns (r: seq<State>)
    requires IsRun(2, run) && CanStep(2, run[|run| - 1], a) && CanStep(2, a, b) && CanStep(2, b, c)
    ensures IsRun(2, r) && r[|r| - 1] == c
  {
    hide CanStep, IsRun;
    NotEmpty(run);
    Longer(2, run, a);
    Longer(2, run + [a], b);
    Longer(2, run + [a] + [b], c);
    r := run + [a] + [b] + [c];
  }

  /** With a third thread a release is missed: after 2^64 generations thread 0, whose generation was complete long ago,
      looks, sees its own number and goes on waiting. */
  lemma {:induction false} StragglerMissesRelease() returns (run: seq<State>, s': State)
    ensures IsRun(2, run) && |run| > 0 && |run[|run| - 1].threads| == 3
    ensures var s := run[|run| - 1];
            && s.threads[0].Waiting? && s.threads[0].joined < Epoch(s) && |s.arrivals[s.threads[0].joined]| == 2
            && Step(2, s, 0, s') && s'.threads[0].Waiting?
  {
    hide Step;
    run := StragglerRun(0x1_0000_0000_0000_0000);
    NotEmpty(run);
    var k := |run| - 1;
    RunsKeepInv(2, run, k);
    s' := run[k];
    LooksAgain(run[k]);
    ReleasedUnlessAliased(2, run, k, 0, s');
  }

  lemma {:induction false} LooksAgain(s: State)
    requires Straggling(s, 0x1_0000_0000_0000_0000) && Inv(2, s)
    ensures Step(2, s, 0, s)
  {
    ShownMod(Epoch(s));
    assert Poll(2, s, 0, s);
  }
}

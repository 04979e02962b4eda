/** The two-core start-up barrier (platform/nrf54l15/shared/core_sync.c) as interleaved steps, after
    one initialisation. Hardware assumption: a critical region is one step. Any number of threads of
    either core may call `core_barrier_wait` and `core_barrier_release` at any time. */
module CoreBarrier {

  const CORES: set<nat> := {0, 1}

  datatype Thread = Thread(core: nat, id: nat)

  datatype Pc = Idle | Arrive | Poll | Withdraw | AwaitRelease

  /** `timed`: the call has a timeout. `passed` and `failed` count its calls that returned true and
      false. */
  datatype Local = Local(pc: Pc, timed: bool, passed: nat, failed: nat)

  /** The bit masks as sets of cores, and the cores that have entered `core_barrier_wait` so far. */
  datatype State = State(arrived: set<nat>, released: set<nat>, entered: set<nat>, threads: map<Thread, Local>)
  {
    function At(t: Thread, l: Local): State {
      this.(threads := threads[t := l])
    }
  }

  predicate Init(s: State) {
    && s.arrived == {} && s.released == {} && s.entered == {}
    && forall t :: t in s.threads ==> t.core in CORES && s.threads[t] == Local(Idle, false, 0, 0)
  }

  predicate Step(s: State, s': State, t: Thread) {
    t in s.threads &&
    var l := s.threads[t];
    match l.pc
    case Idle =>
      || s' == s.(entered := s.entered + {t.core}).At(t, l.(pc := Arrive, timed := false))
      || s' == s.(entered := s.entered + {t.core}).At(t, l.(pc := Arrive, timed := true))
      || s' == s.(released := CORES)
    case Arrive => s' == s.(arrived := s.arrived + {t.core}).At(t, l.(pc := Poll))
    case Poll =>
      if s.arrived == CORES then s' == s.At(t, l.(pc := AwaitRelease))
      else s' == s || (l.timed && s' == s.At(t, l.(pc := Withdraw)))
    case Withdraw => s' == s.(arrived := s.arrived - {t.core}).At(t, l.(pc := Idle, failed := l.failed + 1))
    case AwaitRelease =>
      if t.core in s.released then s' == s.At(t, l.(pc := Idle, passed := l.passed + 1)) else s' == s
  }

  ghost predicate Run(run: seq<State>, movers: seq<Thread>) {
    && |run| == |movers| + 1 && Init(run[0])
    && forall i :: 0 <= i < |movers| ==> Step(run[i], run[i + 1], movers[i])
  }

  ghost predicate Inv(s: State) {
    && (forall t :: t in s.threads ==> t.core in CORES)
    && s.arrived <= s.entered <= CORES
    && s.released <= CORES
    && forall t :: t in s.threads ==>
         && (s.threads[t].pc != Idle ==> t.core in s.entered)
         && (s.threads[t].pc == Withdraw ==> s.threads[t].timed)
         && (s.threads[t].pc == AwaitRelease || s.threads[t].passed > 0 ==> s.entered == CORES)
  }

  lemma StepInv(s: State, s': State, t: Thread)
    requires Inv(s) && Step(s, s', t)
    ensures Inv(s') && s.entered <= s'.entered
  {}

  lemma {:induction false} RunInv(run: seq<State>, movers: seq<Thread>, i: nat)
    requires Run(run, movers) && i < |run|
    ensures Inv(run[i])
  {
    hide Step;
    if i > 0 {
      RunInv(run, movers, i - 1);
      StepInv(run[i - 1], run[i], movers[i - 1]);
    }
  }

  /** In every run, timeouts included, a call that has returned true did so after every core had
      entered. */
  lemma NonePassesEarly(run: seq<State>, movers: seq<Thread>, i: nat, t: Thread)
    requires Run(run, movers) && i < |run|
    requires t in run[i].threads && run[i].threads[t].passed > 0
    ensures run[i].entered == CORES
  {
    RunInv(run, movers, i);
  }

  // ---------------------------------------------------------------- the release

  /** Nobody has passed before `released` was set, and it is set for all cores at once. */
  ghost predicate Gated(s: State) {
    && (s.released == {} || s.released == CORES)
    && forall t :: t in s.threads && s.threads[t].passed > 0 ==> s.released == CORES
  }

  lemma GatedStep(s: State, s': State, t: Thread)
    requires Gated(s) && Step(s, s', t)
    ensures Gated(s')
  {}

  lemma {:induction false} RunGated(run: seq<State>, movers: seq<Thread>, i: nat)
    requires Run(run, movers) && i < |run|
    ensures Gated(run[i])
  {
    hide Step, Gated;
    if i > 0 {
      RunGated(run, movers, i - 1);
      GatedStep(run[i - 1], run[i], movers[i - 1]);
    } else {
      InitGated(run[0]);
    }
  }

  lemma InitGated(s: State)
    requires Init(s)
    ensures Gated(s)
  {}

  /** Step `k` is a call of `core_barrier_release`: all cores' bits are set, and nothing else. */
  ghost predicate Releases(run: seq<State>, movers: seq<Thread>, k: nat) {
    && k + 1 < |run| && k < |movers| && movers[k] in run[k].threads && run[k].threads[movers[k]].pc == Idle
    && run[k + 1] == run[k].(released := {0, 1})
  }

  /** In every run, timeouts included, a call that has returned true did so after a release. */
  lemma NonePassesUnreleased(run: seq<State>, movers: seq<Thread>, i: nat, t: Thread)
    requires Run(run, movers) && i < |run|
    requires t in run[i].threads && run[i].threads[t].passed > 0
    ensures run[i].released == {0, 1} && exists k :: 0 <= k < i && Releases(run, movers, k)
  {
    RunGated(run, movers, i);
    ReleasedBefore(run, movers, i);
  }

  lemma {:induction false} ReleasedBefore(run: seq<State>, movers: seq<Thread>, i: nat)
    requires Run(run, movers) && i < |run| && run[i].released != {}
    ensures exists k :: 0 <= k < i && Releases(run, movers, k)
  {
    if i > 0 {
      var s, s', t := run[i - 1], run[i], movers[i - 1];
      assert Step(s, s', t);
      if s.released == {} {
        assert Releases(run, movers, i - 1);
      } else {
        ReleasedBefore(run, movers, i - 1);
      }
    }
  }

  /** While there has been no release, a thread that waits for one goes on waiting: its call neither
      returns nor times out. */
  lemma {:induction false} WaitsForRelease(run: seq<State>, movers: seq<Thread>, i: nat, j: nat, t: Thread)
    requires Run(run, movers) && i <= j < |run| && run[j].released == {}
    requires t in run[i].threads && run[i].threads[t].pc == AwaitRelease
    ensures t in run[j].threads && run[j].threads[t] == run[i].threads[t]
    decreases j
  {
    if i < j {
      var s, s' := run[j - 1], run[j];
      assert Step(s, s', movers[j - 1]);
      assert s.released == {};
      WaitsForRelease(run, movers, i, j - 1, t);
    }
  }

  // ---------------------------------------------------------------- without timeouts

  ghost predicate Untimed(s: State) {
    forall t :: t in s.threads ==> !s.threads[t].timed
  }

  ghost predicate Settled(s: State) {
    s.arrived == CORES && s.released == CORES
  }

  /** Once all have arrived and the release has run, that stays so as long as nobody waits with a
      timeout. */
  lemma {:induction false} SettledForGood(run: seq<State>, movers: seq<Thread>, i: nat, j: nat)
    requires Run(run, movers) && i <= j < |run|
    requires Settled(run[i]) && forall k :: i <= k < |run| ==> Untimed(run[k])
    ensures Settled(run[j])
    decreases j
  {
    if i < j {
      SettledForGood(run, movers, i, j - 1);
      RunInv(run, movers, j - 1);
      SettledStep(run[j - 1], run[j], movers[j - 1]);
    }
  }

  /** And then each poll of a waiting thread succeeds: the next step from the arrival loop leaves
      it, and the next step from the release loop returns true. */
  lemma SettledStep(s: State, s': State, t: Thread)
    requires Inv(s) && Step(s, s', t) && Settled(s) && Untimed(s)
    ensures Settled(s')
    ensures s.threads[t].pc == Poll ==> s'.threads[t].pc == AwaitRelease
    ensures s.threads[t].pc == AwaitRelease ==>
              s'.threads[t].pc == Idle && s'.threads[t].passed == s.threads[t].passed + 1
  {}

  /** A thread none of whose calls had a timeout has never been turned away. */
  lemma {:induction false} UntimedNeverFails(run: seq<State>, movers: seq<Thread>, i: nat, t: Thread)
    requires Run(run, movers) && i < |run| && t in run[i].threads
    requires forall k :: 0 <= k <= i && t in run[k].threads ==> !run[k].threads[t].timed
    ensures run[i].threads[t].failed == 0 && run[i].threads[t].pc != Withdraw
    decreases i
  {
    if i > 0 {
      var s, s' := run[i - 1], run[i];
      assert Step(s, s', movers[i - 1]);
      assert t in s.threads;
      UntimedNeverFails(run, movers, i - 1, t);
    }
  }

  // ---------------------------------------------------------------- with timeouts

  /** Core `a` has seen everyone arrive, and the call on core `b` is about to return false. */
  ghost predicate Apart(s: State, a: Thread, b: Thread) {
    && a in s.threads && b in s.threads && a.core != b.core
    && s.threads[a].pc == AwaitRelease && s.threads[b].pc == Withdraw
  }

  ghost predicate SomeApart(s: State) {
    exists a, b :: Apart(s, a, b)
  }

  /** Thread `t` is about to see everyone arrive, although another core's call has timed out and not
      yet withdrawn. */
  ghost predicate Parts(s: State, t: Thread) {
    && t in s.threads && s.threads[t].pc == Poll && s.arrived == CORES
    && exists b :: b in s.threads && b.core != t.core && s.threads[b].pc == Withdraw
  }

  /** Thread `t` times out, although a thread of another core has seen everyone arrive. */
  ghost predicate Deserts(s: State, s': State, t: Thread) {
    && t in s.threads && t in s'.threads && s.threads[t].pc == Poll && s'.threads[t].pc == Withdraw
    && exists a :: a in s.threads && a.core != t.core && s.threads[a].pc == AwaitRelease
  }

  /** For any number of threads: the two steps that set the cores apart. */
  lemma ApartIff(s: State, s': State, t: Thread)
    requires Inv(s) && Step(s, s', t) && !SomeApart(s)
    ensures SomeApart(s') <==> Parts(s, t) || Deserts(s, s', t)
  {
    if a, b :| Apart(s', a, b) {
      assert a != t ==> s'.threads[a] == s.threads[a];
      assert b != t ==> s'.threads[b] == s.threads[b];
      assert !Apart(s, a, b);
    }
    if Parts(s, t) {
      var b :| b in s.threads && b.core != t.core && s.threads[b].pc == Withdraw;
      assert Apart(s', t, b);
    }
    if Deserts(s, s', t) {
      var a :| a in s.threads && a.core != t.core && s.threads[a].pc == AwaitRelease;
      assert Apart(s', a, t);
    }
  }

  // ---------------------------------------------------------------- one thread on each core

  ghost predicate Alone(s: State) {
    forall t, u :: t in s.threads && u in s.threads && t.core == u.core ==> t == u
  }

  /** Arrived for good: past the poll, or back from a call that returned true. */
  predicate Ahead(l: Local) {
    l.pc == AwaitRelease || l.passed > 0
  }

  predicate Marked(l: Local) {
    l.pc == Poll || l.pc == Withdraw || Ahead(l)
  }

  /** What holds until a step parts the cores. */
  ghost predicate Together(s: State) {
    && Inv(s) && Alone(s)
    && (forall t :: t in s.threads ==> (t.core in s.arrived <==> Marked(s.threads[t])))
    && (forall t, u :: t in s.threads && u in s.threads && Ahead(s.threads[t]) ==>
          s.arrived == CORES && s.threads[u].pc != Withdraw)
  }

  /** The others stand still, and only the moving thread's core can change its bit. */
  lemma OthersStay(s: State, s': State, t: Thread)
    requires Step(s, s', t) && t in s.threads
    ensures s'.threads.Keys == s.threads.Keys
    ensures forall u :: u in s.threads && u != t ==> s'.threads[u] == s.threads[u]
    ensures forall c :: c != t.core ==> (c in s'.arrived <==> c in s.arrived)
  {
  }

  lemma MarkedStep(s: State, s': State, t: Thread)
    requires Together(s) && Step(s, s', t)
    ensures t in s'.threads && (t.core in s'.arrived <==> Marked(s'.threads[t]))
  {
    hide Inv, Alone;
    assert t.core in s.arrived <==> Marked(s.threads[t]);
  }

  /** A thread gets ahead, or stays ahead, only with everyone arrived, and then nobody times out. */
  lemma AheadStep(s: State, s': State, t: Thread)
    requires Together(s) && Step(s, s', t) && t in s'.threads
    ensures Ahead(s'.threads[t]) ==> s.arrived == CORES && s'.arrived == CORES && s'.threads[t].pc != Withdraw
    ensures s.arrived == CORES && s.threads[t].pc != Withdraw ==> s'.arrived == CORES && s'.threads[t].pc != Withdraw
  {
    hide Alone;
  }

  lemma GetsAhead(s: State, s': State, t: Thread)
    requires Step(s, s', t) && t in s.threads && t in s'.threads && Ahead(s'.threads[t]) && !Ahead(s.threads[t])
    ensures s.threads[t].pc == Poll && s.arrived == CORES
  {
  }

  lemma TogetherStep(s: State, s': State, t: Thread)
    requires Together(s) && Step(s, s', t) && !Parts(s, t)
    ensures Together(s')
  {
    StepInv(s, s', t);
    assert t in s.threads;
    OthersStay(s, s', t);
    MarkedStep(s, s', t);
    AheadStep(s, s', t);
    if Ahead(s'.threads[t]) && !Ahead(s.threads[t]) {
      GetsAhead(s, s', t);
    }
    hide Inv, Step, Marked, Ahead;
    forall u | u in s'.threads && u != t
      ensures u.core != t.core
    {
    }
  }

  lemma {:induction false} TogetherUntil(run: seq<State>, movers: seq<Thread>, i: nat)
    requires Run(run, movers) && Alone(run[0]) && i < |run|
    requires forall k :: 0 <= k < i ==> !Parts(run[k], movers[k])
    ensures Together(run[i])
    decreases i
  {
    hide Step, Parts;
    if i > 0 {
      TogetherUntil(run, movers, i - 1);
      TogetherStep(run[i - 1], run[i], movers[i - 1]);
    }
  }

  /** With one thread on each core a step of a run sets the cores apart for the first time exactly if
      a poll succeeds while the other core's call stands before its withdrawal. */
  lemma PartsIff(run: seq<State>, movers: seq<Thread>, i: nat)
    requires Run(run, movers) && Alone(run[0]) && i < |movers|
    requires forall k :: 0 <= k < i ==> !Parts(run[k], movers[k])
    ensures !SomeApart(run[i])
    ensures SomeApart(run[i + 1]) <==> Parts(run[i], movers[i])
  {
    TogetherUntil(run, movers, i);
    var s, s', t := run[i], run[i + 1], movers[i];
    assert Step(s, s', t);
    assert !SomeApart(s);
    ApartIff(s, s', t);
    assert !Deserts(s, s', t);
  }

  lemma TogetherIsNoSplit(s: State)
    requires Together(s)
    ensures !Splits(s)
  {
    forall a, b | a in s.threads && b in s.threads
      ensures !Divides(s, a, b)
    {
      assert b.core in CORES;
      assert b.core in s.arrived <==> Marked(s.threads[b]);
    }
  }

  /** And there is no split without such a step. */
  lemma SplitNeedsParting(run: seq<State>, movers: seq<Thread>, i: nat)
    requires Run(run, movers) && Alone(run[0]) && i < |run| && Splits(run[i])
    ensures exists k :: 0 <= k < i && Parts(run[k], movers[k])
  {
    hide Step, Parts, Splits, Together;
    if forall k :: 0 <= k < i ==> !Parts(run[k], movers[k]) {
      TogetherUntil(run, movers, i);
      TogetherIsNoSplit(run[i]);
    }
  }

  /** While after it three steps make a split: the withdrawal, a release, and the poll for it. */
  lemma PartingSplits(s: State, a: Thread, b: Thread)
    requires Inv(s) && Apart(s, a, b)
    requires s.threads[b].passed == 0 && s.threads[b].failed == 0
    ensures exists s1, s2, s3 :: Step(s, s1, b) && Step(s1, s2, b) && Step(s2, s3, a) && Splits(s3)
  {
    var l, m := s.threads[b], s.threads[a];
    var s1 := s.(arrived := s.arrived - {b.core}).At(b, l.(pc := Idle, failed := 1));
    var s2 := s1.(released := CORES);
    var s3 := s2.At(a, m.(pc := Idle, passed := m.passed + 1));
    assert Step(s, s1, b) && Step(s1, s2, b) && Step(s2, s3, a);
    assert Divides(s3, a, b);
  }

  /** A call on core `a` has returned true, and the only call on core `b` has returned false. */
  ghost predicate Divides(s: State, a: Thread, b: Thread) {
    && a in s.threads && b in s.threads && a.core != b.core
    && s.threads[a].passed > 0
    && s.threads[b].pc == Idle && s.threads[b].passed == 0 && s.threads[b].failed == 1
  }

  ghost predicate Splits(s: State) {
    exists a, b :: Divides(s, a, b)
  }

  // ---------------------------------------------------------------- a run that splits

  /** A state of one thread on each core. */
  function Pair(arrived: set<nat>, released: set<nat>, entered: set<nat>, a: Local, b: Local): State {
    State(arrived, released, entered, map[A := a, B := b])
  }

  const A := Thread(0, 0)
  const B := Thread(1, 0)

  /** State `i` of a run in which core 1 waits with a timeout and core 0 without. */
  function SplitState(i: nat): State {
    match i
    case 0 => Pair({}, {}, {}, Local(Idle, false, 0, 0), Local(Idle, false, 0, 0))
    case 1 => Pair({}, {}, {1}, Local(Idle, false, 0, 0), Local(Arrive, true, 0, 0))
    case 2 => Pair({1}, {}, {1}, Local(Idle, false, 0, 0), Local(Poll, true, 0, 0))
    case 3 => Pair({1}, {}, {1}, Local(Idle, false, 0, 0), Local(Withdraw, true, 0, 0))
    case 4 => Pair({1}, {}, CORES, Local(Arrive, false, 0, 0), Local(Withdraw, true, 0, 0))
    case 5 => Pair(CORES, {}, CORES, Local(Poll, false, 0, 0), Local(Withdraw, true, 0, 0))
    case 6 => Pair(CORES, {}, CORES, Local(AwaitRelease, false, 0, 0), Local(Withdraw, true, 0, 0))
    case 7 => Pair({0}, {}, CORES, Local(AwaitRelease, false, 0, 0), Local(Idle, true, 0, 1))
    case 8 => Pair({0}, CORES, CORES, Local(AwaitRelease, false, 0, 0), Local(Idle, true, 0, 1))
    case _ => Pair({0}, CORES, CORES, Local(Idle, false, 1, 0), Local(Idle, true, 0, 1))
  }

  function SplitMover(i: nat): Thread {
    if i < 3 || i == 6 || i == 7 then B else A
  }

  lemma SplitStep(i: nat)
    requires i < 9
    ensures Step(SplitState(i), SplitState(i + 1), SplitMover(i))
  {
    var s, s', t := SplitState(i), SplitState(i + 1), SplitMover(i);
    assert {1} != CORES by { assert 0 !in {1}; }
    if i == 1 {
      assert s.arrived + {1} == s'.arrived;
    } else if i == 3 {
      assert s.entered + {0} == s'.entered;
    } else if i == 4 {
      assert s.arrived + {0} == s'.arrived;
    } else if i == 6 {
      assert s.arrived - {1} == s'.arrived;
    }
    assert s'.threads == s.threads[t := s'.threads[t]];
  }

  /** A timeout can split the cores: core 1 gives up between core 0's arrival and its own withdrawal,
      so its call returns false although core 0's returns true. */
  lemma TimeoutCanSplit()
    ensures exists run: seq<State>, movers: seq<Thread> :: Run(run, movers) && Splits(run[|run| - 1])
  {
    hide Step, SplitMover;
    var run := seq(10, i requires 0 <= i < 10 => SplitState(i));
    var movers := seq(9, i requires 0 <= i < 9 => SplitMover(i));
    forall i | 0 <= i < 9
      ensures Step(run[i], run[i + 1], movers[i])
    {
      SplitStep(i);
    }
    assert Divides(run[9], A, B);
    assert Run(run, movers) && Splits(run[9]);
  }
}

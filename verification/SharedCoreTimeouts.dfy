/** What timeouts on a shared core can do to the cross-core mutex, and exactly when: a waiter's
    timeout releases the spinlock under its neighbour, and the two take the mutex at the same time. */
module SharedCoreTimeouts {
  import opened CrossCoreMutex

  /** The shared words and the places of a thread `t`, which uses timeouts, and a thread `u`. */
  datatype Duo = Duo(mem: Mem, l: Local, m: Local)
  {
    /** All other threads of `threads` stay out of the mutex. */
    function Whole(threads: set<Thread>, t: Thread, u: Thread): State {
      State(mem, map x | x in threads :: if x == t then l else if x == u then m else OUT)
    }
  }

  const OUT := Local(Idle, false, 0)

  /** One of the two moves, the other stands still. */
  predicate DuoStep(s: Duo, s': Duo, t: Thread, u: Thread, first: bool) {
    if first then Move(t, s.mem, s.l, s'.mem, s'.l) && s'.m == s.m
    else Move(u, s.mem, s.m, s'.mem, s'.m) && s'.l == s.l
  }

  lemma DuoSteps(threads: set<Thread>, s: Duo, s': Duo, t: Thread, u: Thread, first: bool)
    requires t in threads && u in threads && t != u && DuoStep(s, s', t, u, first)
    ensures Step(s.Whole(threads, t, u), s'.Whole(threads, t, u), if first then t else u)
  {
    hide Move;
    var w, w', v := s.Whole(threads, t, u), s'.Whole(threads, t, u), if first then t else u;
    assert w'.threads == w.threads[v := w'.threads[v]];
  }

  /** State `i` of the run. `u` locks; `t` waits with a timeout; `u` unlocks, and locks again as far as
      finding the mutex free. Now `t` times out and releases the spinlock that `u` is inside, locks in
      its turn, finds the mutex free as well and takes it; and `u` goes on to take it too. */
  function Stage(t: Thread, u: Thread, i: nat): Duo {
    match i
    case 0 => Duo(Mem(false, CORE_COUNT, CORE_COUNT, 0, 0, {}), OUT, OUT)
    case 1 => Duo(Mem(false, CORE_COUNT, CORE_COUNT, 0, 0, {}), OUT, Local(FirstAcquire, false, 0))
    case 2 => Duo(Mem(true, t.core, CORE_COUNT, 0, 0, {}), OUT, Local(CheckCore, false, 0))
    case 3 => Duo(Mem(true, t.core, CORE_COUNT, 0, 0, {}), OUT, Local(CheckFree, false, 0))
    case 4 => Duo(Mem(true, t.core, CORE_COUNT, 0, 0, {}), OUT, Local(TakeCore(false), false, 0))
    case 5 => Duo(Mem(true, t.core, t.core, 0, 0, {}), OUT, Local(TakeThread(false), false, 0))
    case 6 => Duo(Mem(true, t.core, t.core, u.id, 0, {}), OUT, Local(TakeCount(false), false, 0))
    case 7 => Duo(Mem(true, t.core, t.core, u.id, 1, {}), OUT, Local(ReleaseTrue, false, 0))
    case 8 => Duo(Mem(false, CORE_COUNT, t.core, u.id, 1, {}), OUT, Local(Idle, false, 1))
    case 9 => Duo(Mem(false, CORE_COUNT, t.core, u.id, 1, {}), Local(FirstAcquire, true, 0), Local(Idle, false, 1))
    case 10 => Duo(Mem(true, t.core, t.core, u.id, 1, {}), Local(CheckCore, true, 0), Local(Idle, false, 1))
    case 11 => Duo(Mem(true, t.core, t.core, u.id, 1, {}), Local(CheckThread, true, 0), Local(Idle, false, 1))
    case 12 => Duo(Mem(true, t.core, t.core, u.id, 1, {}), Local(CheckFree, true, 0), Local(Idle, false, 1))
    case 13 => Duo(Mem(true, t.core, t.core, u.id, 1, {}), Local(SetWaiting, true, 0), Local(Idle, false, 1))
    case 14 => Duo(Mem(true, t.core, t.core, u.id, 1, {t.core}), Local(ReleaseToWait, true, 0), Local(Idle, false, 1))
    case 15 => Duo(Mem(false, CORE_COUNT, t.core, u.id, 1, {t.core}), Local(WaitAcquire, true, 0), Local(Idle, false, 1))
    case 16 => Duo(Mem(false, CORE_COUNT, t.core, u.id, 1, {t.core}), Local(WaitAcquire, true, 0), Local(UnlockAcquire(true), false, 0))
    case 17 => Duo(Mem(true, t.core, t.core, u.id, 1, {t.core}), Local(WaitAcquire, true, 0), Local(UnlockCore(true), false, 0))
    case 18 => Duo(Mem(true, t.core, t.core, u.id, 1, {t.core}), Local(WaitAcquire, true, 0), Local(UnlockThread(true), false, 0))
    case 19 => Duo(Mem(true, t.core, t.core, u.id, 1, {t.core}), Local(WaitAcquire, true, 0), Local(UnlockCount(true), false, 0))
    case 20 => Duo(Mem(true, t.core, t.core, u.id, 1, {t.core}), Local(WaitAcquire, true, 0), Local(ClearCore(true), false, 0))
    case 21 => Duo(Mem(true, t.core, CORE_COUNT, u.id, 1, {t.core}), Local(WaitAcquire, true, 0), Local(ClearThread, false, 0))
    case 22 => Duo(Mem(true, t.core, CORE_COUNT, 0, 1, {t.core}), Local(WaitAcquire, true, 0), Local(ClearCount, false, 0))
    case 23 => Duo(Mem(true, t.core, CORE_COUNT, 0, 0, {t.core}), Local(WaitAcquire, true, 0), Local(UnlockRelease, false, 0))
    case 24 => Duo(Mem(false, CORE_COUNT, CORE_COUNT, 0, 0, {t.core}), Local(WaitAcquire, true, 0), OUT)
    case 25 => Duo(Mem(false, CORE_COUNT, CORE_COUNT, 0, 0, {t.core}), Local(WaitAcquire, true, 0), Local(FirstAcquire, false, 0))
    case 26 => Duo(Mem(true, t.core, CORE_COUNT, 0, 0, {t.core}), Local(WaitAcquire, true, 0), Local(CheckCore, false, 0))
    case 27 => Duo(Mem(true, t.core, CORE_COUNT, 0, 0, {t.core}), Local(WaitAcquire, true, 0), Local(CheckFree, false, 0))
    case 28 => Duo(Mem(true, t.core, CORE_COUNT, 0, 0, {t.core}), Local(WaitAcquire, true, 0), Local(TakeCore(false), false, 0))
    case 29 => Duo(Mem(true, t.core, CORE_COUNT, 0, 0, {t.core}), Local(TimeoutClear, true, 0), Local(TakeCore(false), false, 0))
    case 30 => Duo(Mem(true, t.core, CORE_COUNT, 0, 0, {}), Local(TimeoutRelease, true, 0), Local(TakeCore(false), false, 0))
    case 31 => Duo(Mem(false, CORE_COUNT, CORE_COUNT, 0, 0, {}), OUT, Local(TakeCore(false), false, 0))
    case 32 => Duo(Mem(false, CORE_COUNT, CORE_COUNT, 0, 0, {}), Local(FirstAcquire, false, 0), Local(TakeCore(false), false, 0))
    case 33 => Duo(Mem(true, t.core, CORE_COUNT, 0, 0, {}), Local(CheckCore, false, 0), Local(TakeCore(false), false, 0))
    case 34 => Duo(Mem(true, t.core, CORE_COUNT, 0, 0, {}), Local(CheckFree, false, 0), Local(TakeCore(false), false, 0))
    case 35 => Duo(Mem(true, t.core, CORE_COUNT, 0, 0, {}), Local(TakeCore(false), false, 0), Local(TakeCore(false), false, 0))
    case 36 => Duo(Mem(true, t.core, t.core, 0, 0, {}), Local(TakeThread(false), false, 0), Local(TakeCore(false), false, 0))
    case 37 => Duo(Mem(true, t.core, t.core, t.id, 0, {}), Local(TakeCount(false), false, 0), Local(TakeCore(false), false, 0))
    case 38 => Duo(Mem(true, t.core, t.core, t.id, 1, {}), Local(ReleaseTrue, false, 0), Local(TakeCore(false), false, 0))
    case 39 => Duo(Mem(false, CORE_COUNT, t.core, t.id, 1, {}), Local(Idle, false, 1), Local(TakeCore(false), false, 0))
    case 40 => Duo(Mem(false, CORE_COUNT, t.core, t.id, 1, {}), Local(Idle, false, 1), Local(TakeThread(false), false, 0))
    case 41 => Duo(Mem(false, CORE_COUNT, t.core, u.id, 1, {}), Local(Idle, false, 1), Local(TakeCount(false), false, 0))
    case 42 => Duo(Mem(false, CORE_COUNT, t.core, u.id, 1, {}), Local(Idle, false, 1), Local(ReleaseTrue, false, 0))
    case _ => Duo(Mem(false, CORE_COUNT, t.core, u.id, 1, {}), Local(Idle, false, 1), Local(Idle, false, 1))
  }

  /** Whether it is `t` that moves from state `i` on. */
  predicate FirstMoves(i: nat) {
    8 <= i < 15 || 28 <= i < 39
  }

  const LENGTH: nat := 43

  lemma StepsFrom0(t: Thread, u: Thread, i: nat)
    requires t.core == u.core < CORE_COUNT && t.id != u.id && 0 <= i < 7
    ensures DuoStep(Stage(t, u, i), Stage(t, u, i + 1), t, u, FirstMoves(i))
  {
    SetFacts(t.core);
  }

  lemma StepsFrom7(t: Thread, u: Thread, i: nat)
    requires t.core == u.core < CORE_COUNT && t.id != u.id && 7 <= i < 14
    ensures DuoStep(Stage(t, u, i), Stage(t, u, i + 1), t, u, FirstMoves(i))
  {
    SetFacts(t.core);
  }

  lemma StepsFrom14(t: Thread, u: Thread, i: nat)
    requires t.core == u.core < CORE_COUNT && t.id != u.id && 14 <= i < 21
    ensures DuoStep(Stage(t, u, i), Stage(t, u, i + 1), t, u, FirstMoves(i))
  {
    SetFacts(t.core);
  }

  lemma StepsFrom21(t: Thread, u: Thread, i: nat)
    requires t.core == u.core < CORE_COUNT && t.id != u.id && 21 <= i < 28
    ensures DuoStep(Stage(t, u, i), Stage(t, u, i + 1), t, u, FirstMoves(i))
  {
    SetFacts(t.core);
  }

  lemma StepsFrom28(t: Thread, u: Thread, i: nat)
    requires t.core == u.core < CORE_COUNT && t.id != u.id && 28 <= i < 35
    ensures DuoStep(Stage(t, u, i), Stage(t, u, i + 1), t, u, FirstMoves(i))
  {
    SetFacts(t.core);
  }

  lemma StepsFrom35(t: Thread, u: Thread, i: nat)
    requires t.core == u.core < CORE_COUNT && t.id != u.id && 35 <= i < 42
    ensures DuoStep(Stage(t, u, i), Stage(t, u, i + 1), t, u, FirstMoves(i))
  {
    SetFacts(t.core);
  }

  lemma StepsFrom42(t: Thread, u: Thread, i: nat)
    requires t.core == u.core < CORE_COUNT && t.id != u.id && 42 <= i < 43
    ensures DuoStep(Stage(t, u, i), Stage(t, u, i + 1), t, u, FirstMoves(i))
  {
    SetFacts(t.core);
  }

  lemma SetFacts(c: nat)
    ensures {} + {c} == {c} && {c} - {c} == {}
  {
  }

  lemma StageSteps(threads: set<Thread>, t: Thread, u: Thread, i: nat)
    requires t in threads && u in threads && t.core == u.core < CORE_COUNT && t.id != u.id && i < LENGTH
    ensures Step(Stage(t, u, i).Whole(threads, t, u), Stage(t, u, i + 1).Whole(threads, t, u), if FirstMoves(i) then t else u)
  {
    hide Step, Stage, FirstMoves, DuoStep;
    if i < 7 {
      StepsFrom0(t, u, i);
    } else if i < 14 {
      StepsFrom7(t, u, i);
    } else if i < 21 {
      StepsFrom14(t, u, i);
    } else if i < 28 {
      StepsFrom21(t, u, i);
    } else if i < 35 {
      StepsFrom28(t, u, i);
    } else if i < 42 {
      StepsFrom35(t, u, i);
    } else {
      StepsFrom42(t, u, i);
    }
    DuoSteps(threads, Stage(t, u, i), Stage(t, u, i + 1), t, u, FirstMoves(i));
  }

  /** No lock is nested, and only `t` uses a timeout. */
  lemma StageIsModest(t: Thread, u: Thread, i: nat)
    requires i <= LENGTH
    ensures Stage(t, u, i).l.pc != Recurse && Stage(t, u, i).m.pc != Recurse && !Stage(t, u, i).m.timed
  {
  }

  // ---------------------------------------------------------------- the exact condition

  /** The run is one of these threads, and only the ones in `timed` use timeouts. */
  ghost predicate RunOf(run: seq<State>, movers: seq<Thread>, threads: set<Thread>, timed: set<Thread>) {
    && FreeRun(run, movers)
    && run[0].threads.Keys == threads
    && forall i, t :: 0 <= i < |run| && t in run[i].threads && run[i].threads[t].timed ==> t in timed
  }

  ghost predicate TwoHolders(s: State) {
    exists t, u :: t in s.threads && u in s.threads && t != u && s.threads[t].held > 0 && s.threads[u].held > 0
  }

  /** No state of the run has two holders. */
  ghost predicate Excludes(run: seq<State>) {
    forall i :: 0 <= i < |run| ==> !TwoHolders(run[i])
  }

  /** A thread that may use timeouts has its core to itself. */
  ghost predicate TimedAlone(threads: set<Thread>, timed: set<Thread>) {
    forall t, u :: t in threads && t in timed && u in threads && u.core == t.core ==> u == t
  }

  lemma {:induction false} SameThreads(run: seq<State>, movers: seq<Thread>, i: nat)
    requires FreeRun(run, movers) && i < |run|
    ensures run[i].threads.Keys == run[0].threads.Keys
    decreases i
  {
    hide Move, Init, NestsWithinWord;
    if i > 0 {
      SameThreads(run, movers, i - 1);
      assert Step(run[i - 1], run[i], movers[i - 1]);
    }
  }

  lemma AloneExcludes(run: seq<State>, movers: seq<Thread>, threads: set<Thread>, timed: set<Thread>)
    requires RunOf(run, movers, threads, timed) && TimedAlone(threads, timed)
    ensures Excludes(run)
  {
    hide FreeRun, Run;
    forall i | 0 <= i < |run|
      ensures TimeoutsAlone(run[i])
    {
      SameThreads(run, movers, i);
    }
    AloneRun(run, movers);
    forall i | 0 <= i < |run|
      ensures !TwoHolders(run[i])
    {
      forall t, u | t in run[i].threads && u in run[i].threads && run[i].threads[t].held > 0 && run[i].threads[u].held > 0
        ensures t == u
      {
        MutualExclusion(run, movers, i, t, u);
      }
    }
  }

  /** Two threads of one core, one of which uses timeouts, can come to hold the mutex at once. */
  lemma SharedCoreFails(threads: set<Thread>, timed: set<Thread>, t: Thread, u: Thread) returns (run: seq<State>, movers: seq<Thread>)
    requires forall x :: x in threads ==> x.core < CORE_COUNT
    requires t in threads && t in timed && u in threads && t != u && t.core == u.core
    ensures RunOf(run, movers, threads, timed) && !Excludes(run)
  {
    hide Step, Stage, FirstMoves;
    run := seq(LENGTH + 1, i requires 0 <= i <= LENGTH => Stage(t, u, i).Whole(threads, t, u));
    movers := seq(LENGTH, i requires 0 <= i < LENGTH => if FirstMoves(i) then t else u);
    forall i | 0 <= i < LENGTH
      ensures Step(run[i], run[i + 1], movers[i])
    {
      StageSteps(threads, t, u, i);
    }
    forall i | 0 <= i <= LENGTH
      ensures NestsWithinWord(run[i])
      ensures forall x :: x in run[i].threads && run[i].threads[x].timed ==> x in timed
    {
      StageIsModest(t, u, i);
    }
    StageEnds(t, u);
    assert run[LENGTH].threads[t].held == 1 && run[LENGTH].threads[u].held == 1;
    assert TwoHolders(run[LENGTH]);
  }

  lemma StageEnds(t: Thread, u: Thread)
    ensures Stage(t, u, 0) == Duo(Mem(false, CORE_COUNT, CORE_COUNT, 0, 0, {}), OUT, OUT)
    ensures Stage(t, u, LENGTH).l.held == 1 && Stage(t, u, LENGTH).m.held == 1
  {
  }

  /** For all sets of threads, and of threads that may use timeouts: every run keeps at most one holder
      if and only if no thread that may use timeouts shares its core. */
  lemma ExclusionIff(threads: set<Thread>, timed: set<Thread>)
    requires forall x :: x in threads ==> x.core < CORE_COUNT
    ensures TimedAlone(threads, timed)
       <==> forall run: seq<State>, movers: seq<Thread> :: RunOf(run, movers, threads, timed) ==> Excludes(run)
  {
    hide RunOf, Excludes;
    if TimedAlone(threads, timed) {
      forall run: seq<State>, movers: seq<Thread> | RunOf(run, movers, threads, timed)
        ensures Excludes(run)
      {
        AloneExcludes(run, movers, threads, timed);
      }
    } else {
      var t, u :| t in threads && t in timed && u in threads && u.core == t.core && u != t;
      var run, movers := SharedCoreFails(threads, timed, t, u);
    }
  }
}

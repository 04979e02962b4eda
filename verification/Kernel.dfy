/** What the kernel's scheduling calls do to the list of threads, the current thread and the
    pending one (src/kernel/scheduler.c, src/kernel/thread.c, and the switch handler of
    platform/nrf54l15/m33/context_switch.c), as functions on values; and what every run of them
    keeps. The classes of module Scheduler compute these functions. */
module Kernel {

  datatype Option<T> = None | Some(value: T)

  datatype RunState = Ready | Running | Blocked | Sleeping | Terminated

  datatype Thread = Thread(id: nat, priority: nat, state: RunState, sleepTicks: nat)
  {
    predicate Runnable() {
      state == Ready || state == Running
    }
  }

  const IDLE: nat := 0
  const MAX_SLEEP: nat := 0xFFFF_FFFF

  /** `threads` is the ready list from its head, where new threads enter; `current` and `next` are
      thread ids, `None` for a null pointer. */
  datatype State = State(threads: seq<Thread>, current: Option<nat>, next: Option<nat>, clock: nat, nextId: nat)

  // ---------------------------------------------------------------- the calls

  /** The scan of the list: a runnable thread of at least the highest priority so far is the best
      so far. */
  function BestFrom(threads: seq<Thread>, best: Option<nat>, highest: nat): Option<nat> {
    if threads == [] then best
    else if threads[0].Runnable() && threads[0].priority >= highest
    then BestFrom(threads[1..], Some(threads[0].id), threads[0].priority)
    else BestFrom(threads[1..], best, highest)
  }

  function Best(threads: seq<Thread>): Option<nat> {
    BestFrom(threads, None, 0)
  }

  function Reschedule(k: State): State {
    if Best(k.threads) != k.current then k.(next := Best(k.threads)) else k
  }

  /** The PendSV handler. */
  function Switch(k: State): State {
    if k.next.Some? then k.(current := k.next, next := None) else k
  }

  function Wake(t: Thread): Thread {
    if t.state != Sleeping then t
    else if t.sleepTicks > 1 then t.(sleepTicks := t.sleepTicks - 1)
    else t.(sleepTicks := 0, state := Ready)
  }

  function WakeAll(threads: seq<Thread>): (r: seq<Thread>)
    ensures |r| == |threads|
    ensures forall i :: 0 <= i < |r| ==> r[i] == Wake(threads[i])
  {
    seq(|threads|, i requires 0 <= i < |threads| => Wake(threads[i]))
  }

  function Tick(k: State): State {
    Reschedule(k.(clock := k.clock + 1, threads := WakeAll(k.threads)))
  }

  /** A new thread enters at the head. The pool behind it holds `max` threads besides idle, and is
      never given back. */
  function Create(k: State, priority: nat, max: nat): State {
    if |k.threads| > max then k
    else Reschedule(k.(threads := [Thread(k.nextId, priority, Ready, 0)] + k.threads, nextId := k.nextId + 1))
  }

  /** `id`'s state and count replaced. */
  function SetState(threads: seq<Thread>, id: nat, state: RunState, ticks: Option<nat>): (r: seq<Thread>)
    ensures |r| == |threads|
    ensures forall i :: 0 <= i < |r| ==>
              r[i] == if threads[i].id != id then threads[i]
                      else threads[i].(state := state, sleepTicks := if ticks.Some? then ticks.value else threads[i].sleepTicks)
  {
    seq(|threads|, i requires 0 <= i < |threads| =>
      if threads[i].id != id then threads[i]
      else threads[i].(state := state, sleepTicks := if ticks.Some? then ticks.value else threads[i].sleepTicks))
  }

  function Sleep(k: State, ticks: nat): State {
    if k.current.None? then k
    else Reschedule(k.(threads := SetState(k.threads, k.current.value, Sleeping, Some(ticks))))
  }

  function Exit(k: State): State {
    if k.current.None? then k
    else Reschedule(k.(threads := SetState(k.threads, k.current.value, Terminated, None)))
  }

  // ---------------------------------------------------------------- runs

  datatype Op = DoCreate(priority: nat) | DoSleep(ticks: nat) | DoYield | DoExit | DoTick

  function Call(k: State, op: Op, max: nat): State {
    match op
    case DoCreate(priority) => Create(k, priority, max)
    case DoSleep(ticks) => Sleep(k, ticks)
    case DoYield => Reschedule(k)
    case DoExit => Exit(k)
    case DoTick => Tick(k)
  }

  /** Each call is followed by the switch it may have asked for. */
  function Step(k: State, op: Op, max: nat): State {
    Switch(Call(k, op, max))
  }

  /** The idle thread neither sleeps nor exits. */
  predicate Allowed(k: State, op: Op) {
    op.DoSleep? || op.DoExit? ==> k.current != Some(IDLE)
  }

  function Run(k: State, ops: seq<Op>, max: nat): State
    decreases |ops|
  {
    if ops == [] then k else Run(Step(k, ops[0], max), ops[1..], max)
  }

  predicate AllowedRun(k: State, ops: seq<Op>, max: nat)
    decreases |ops|
  {
    ops == [] || (Allowed(k, ops[0]) && AllowedRun(Step(k, ops[0], max), ops[1..], max))
  }

  /** After `mp_sched_init`. */
  function Boot(): State {
    State([Thread(IDLE, 0, Ready, 0)], Some(IDLE), None, 0, 1)
  }

  // ---------------------------------------------------------------- the choice

  /** The thread at index `i` is ready or running, of the highest priority among those that are, and
      the last of that priority in the list: the one created first. */
  ghost predicate Chosen(threads: seq<Thread>, i: nat) {
    && i < |threads| && (threads[i].state == Ready || threads[i].state == Running)
    && (forall j :: 0 <= j < i && (threads[j].state == Ready || threads[j].state == Running) ==>
          threads[j].priority <= threads[i].priority)
    && (forall j :: i < j < |threads| && (threads[j].state == Ready || threads[j].state == Running) ==>
          threads[j].priority < threads[i].priority)
  }

  /** The scan finds the chosen thread, or keeps `best` when no thread is runnable at that height. */
  lemma {:induction false} BestFromIsChosen(threads: seq<Thread>, best: Option<nat>, highest: nat) returns (i: int)
    ensures -1 <= i < |threads|
    ensures i >= 0 ==> Chosen(threads, i) && threads[i].priority >= highest
    ensures i >= 0 ==> BestFrom(threads, best, highest) == Some(threads[i].id)
    ensures i < 0 ==> BestFrom(threads, best, highest) == best
    ensures i < 0 ==> forall j :: 0 <= j < |threads| && threads[j].Runnable() ==> threads[j].priority < highest
    decreases |threads|
  {
    if threads == [] {
      i := -1;
    } else {
      var first, rest := threads[0], threads[1..];
      if first.Runnable() && first.priority >= highest {
        i := BestFromIsChosen(rest, Some(first.id), first.priority);
        forall j | 0 <= j < |rest|
          ensures threads[j + 1] == rest[j]
        {}
        i := i + 1;
      } else {
        i := BestFromIsChosen(rest, best, highest);
        forall j | 0 <= j < |rest|
          ensures threads[j + 1] == rest[j]
        {}
        if i >= 0 {
          i := i + 1;
        }
      }
    }
  }

  ghost predicate DistinctIds(threads: seq<Thread>) {
    forall i, j :: 0 <= i < j < |threads| ==> threads[i].id != threads[j].id
  }

  /** `Best` answers exactly the chosen thread. */
  lemma BestIff(threads: seq<Thread>, i: nat)
    requires i < |threads| && DistinctIds(threads)
    ensures Best(threads) == Some(threads[i].id) <==> Chosen(threads, i)
  {
    var b := BestFromIsChosen(threads, None, 0);
    assert Chosen(threads, i) ==> b >= 0 && i == b;
  }

  // ---------------------------------------------------------------- what every run keeps

  ghost predicate Inv(k: State) {
    && k.threads != []
    && k.threads[|k.threads| - 1].id == IDLE && k.threads[|k.threads| - 1].Runnable()
    && (forall i, j :: 0 <= i < j < |k.threads| ==> k.threads[i].id > k.threads[j].id)
    && (forall i :: 0 <= i < |k.threads| ==> k.threads[i].id < k.nextId)
    && k.next == None
    && k.current == Best(k.threads)
  }

  /** With a runnable idle thread there is always a best thread, and the switch installs it. */
  lemma Settles(k: State)
    requires k.threads != [] && k.threads[|k.threads| - 1].Runnable() && k.next == None
    ensures Switch(Reschedule(k)) == k.(current := Best(k.threads))
    ensures Best(k.threads).Some?
  {
    var b := BestFromIsChosen(k.threads, None, 0);
    assert b >= 0;
  }

  lemma SwitchKeepsThreads(k: State)
    ensures Switch(Reschedule(k)).threads == k.threads
  {}

  lemma SwitchIdle(k: State)
    ensures Switch(k).threads == k.threads
    ensures k.next == None ==> Switch(k) == k
  {}

  lemma StepKeepsInv(k: State, op: Op, max: nat)
    requires Inv(k) && Allowed(k, op)
    ensures Inv(Step(k, op, max))
  {
    hide Best, Reschedule, Switch;
    var last := |k.threads| - 1;
    match op
    case DoCreate(priority) =>
      if |k.threads| <= max {
        var t := [Thread(k.nextId, priority, Ready, 0)] + k.threads;
        assert t[|t| - 1] == k.threads[last];
        Settles(k.(threads := t, nextId := k.nextId + 1));
      } else {
        SwitchIdle(k);
      }
    case DoSleep(ticks) =>
      Settles(k);
      Settles(k.(threads := SetState(k.threads, k.current.value, Sleeping, Some(ticks))));
    case DoYield => Settles(k);
    case DoExit =>
      Settles(k);
      Settles(k.(threads := SetState(k.threads, k.current.value, Terminated, None)));
    case DoTick => Settles(k.(clock := k.clock + 1, threads := WakeAll(k.threads)));
  }

  lemma {:induction false} RunKeepsInv(k: State, ops: seq<Op>, max: nat)
    requires Inv(k) && AllowedRun(k, ops, max)
    ensures Inv(Run(k, ops, max))
    decreases |ops|
  {
    hide Inv, Step;
    if ops != [] {
      StepKeepsInv(k, ops[0], max);
      RunKeepsInv(Step(k, ops[0], max), ops[1..], max);
    }
  }

  /** Thread `i` is the current one, ready or running, and of those that are none has a higher
      priority, nor the same priority and a smaller id: ids are given out in order of creation. */
  ghost predicate RunsRightly(k: State, i: nat) {
    && i < |k.threads| && k.current == Some(k.threads[i].id)
    && (k.threads[i].state == Ready || k.threads[i].state == Running)
    && forall j :: 0 <= j < |k.threads| && (k.threads[j].state == Ready || k.threads[j].state == Running) && j != i ==>
         || k.threads[j].priority < k.threads[i].priority
         || (k.threads[j].priority == k.threads[i].priority && k.threads[i].id < k.threads[j].id)
  }

  /** In every run from boot no switch is left pending, no thread is listed twice, and the right
      thread runs. */
  lemma HighestPriorityRuns(ops: seq<Op>, max: nat)
    requires AllowedRun(Boot(), ops, max)
    ensures var k := Run(Boot(), ops, max);
            k.next == None && DistinctIds(k.threads) && exists i :: RunsRightly(k, i)
  {
    BootInv();
    RunKeepsInv(Boot(), ops, max);
    InvRunsRightly(Run(Boot(), ops, max));
  }

  lemma BootInv()
    ensures Inv(Boot())
  {
    assert Best(Boot().threads) == Some(IDLE);
  }

  lemma InvRunsRightly(k: State)
    requires Inv(k)
    ensures DistinctIds(k.threads) && exists i :: RunsRightly(k, i)
  {
    var b := BestFromIsChosen(k.threads, None, 0);
    assert b >= 0;
    assert RunsRightly(k, b);
  }

  /** A thread that is blocked, asleep or has exited is not the current one. */
  ghost predicate NoneElseRuns(k: State) {
    forall i :: 0 <= i < |k.threads| && (k.threads[i].state == Blocked || k.threads[i].state == Sleeping || k.threads[i].state == Terminated)
      ==> k.current != Some(k.threads[i].id)
  }

  lemma InvNoneElseRuns(k: State)
    requires Inv(k)
    ensures NoneElseRuns(k)
  {
    InvRunsRightly(k);
  }

  /** So in no run from boot. */
  lemma OnlyReadyOrRunningRun(ops: seq<Op>, max: nat)
    requires AllowedRun(Boot(), ops, max)
    ensures NoneElseRuns(Run(Boot(), ops, max))
  {
    hide Inv, NoneElseRuns, Run;
    BootInv();
    RunKeepsInv(Boot(), ops, max);
    InvNoneElseRuns(Run(Boot(), ops, max));
  }

  /** Thread `id` is listed as one that has exited. */
  ghost predicate Exited(k: State, id: nat) {
    exists i :: 0 <= i < |k.threads| && k.threads[i].id == id && k.threads[i].state == Terminated
  }

  lemma StepAfterExit(k: State, op: Op, max: nat, id: nat)
    requires Inv(k) && Allowed(k, op) && Exited(k, id)
    ensures Exited(Step(k, op, max), id)
  {
    hide Inv, Step, Best, WakeAll, SetState, NoneElseRuns;
    InvNoneElseRuns(k);
    var i :| 0 <= i < |k.threads| && k.threads[i].id == id && k.threads[i].state == Terminated;
    NotCurrent(k, i);
    var k' := Step(k, op, max);
    StepThreads(k, op, max);
    if op.DoCreate? && |k.threads| <= max {
      assert k'.threads[i + 1] == k.threads[i];
    } else {
      assert k'.threads[i].id == id && k'.threads[i].state == Terminated;
    }
  }

  /** A thread that has exited stays so and is current in no later state of any run. */
  lemma {:induction false} ExitedNeverRuns(k: State, ops: seq<Op>, max: nat, id: nat)
    requires Inv(k) && AllowedRun(k, ops, max) && Exited(k, id)
    ensures Exited(Run(k, ops, max), id) && Run(k, ops, max).current != Some(id)
    decreases |ops|
  {
    hide Inv, Step;
    if ops != [] {
      StepAfterExit(k, ops[0], max, id);
      StepKeepsInv(k, ops[0], max);
      ExitedNeverRuns(Step(k, ops[0], max), ops[1..], max, id);
    } else {
      InvNoneElseRuns(k);
    }
  }

  /** The thread that calls `mp_thread_exit` has exited after the switch, and another runs. */
  lemma ExitIsFinal(k: State, max: nat)
    requires Inv(k) && k.current != Some(IDLE)
    ensures k.current.Some? && Exited(Step(k, DoExit, max), k.current.value)
    ensures Step(k, DoExit, max).current != k.current
  {
    hide Step, WakeAll, NoneElseRuns;
    var b := BestFromIsChosen(k.threads, None, 0);
    StepThreads(k, DoExit, max);
    StepKeepsInv(k, DoExit, max);
    var k' := Step(k, DoExit, max);
    assert k'.threads[b].id == k.current.value && k'.threads[b].state == Terminated;
    InvNoneElseRuns(k');
    NotCurrent(k', b);
  }

  lemma NotCurrent(k: State, i: nat)
    requires NoneElseRuns(k) && i < |k.threads| && k.threads[i].state != Ready && k.threads[i].state != Running
    ensures k.current != Some(k.threads[i].id)
  {}

  /** While the pool lasts, a new thread is listed as ready, and takes the processor exactly if its
      priority is above that of all that are ready or running; otherwise the current thread keeps it. */
  lemma CreatePreemptsIff(k: State, priority: nat, max: nat)
    requires Inv(k) && |k.threads| <= max
    ensures var k' := Step(k, DoCreate(priority), max);
      && k'.threads == [Thread(k.nextId, priority, Ready, 0)] + k.threads && k'.nextId == k.nextId + 1
      && k'.current == if Above(priority, k.threads) then Some(k.nextId) else k.current
  {
    hide Step, Best, Inv, Above;
    var k' := Step(k, DoCreate(priority), max);
    StepThreads(k, DoCreate(priority), max);
    StepKeepsInv(k, DoCreate(priority), max);
    CreateKeepsIds(k, priority, max);
    InvDistinct(k');
    var i := ChosenAfterCreate(k, k'.threads[0]);
    BestIff(k'.threads, i);
  }

  lemma CreateKeepsIds(k: State, priority: nat, max: nat)
    requires |k.threads| <= max
    ensures Step(k, DoCreate(priority), max).nextId == k.nextId + 1
  {
    hide Best;
  }

  /** With a ready thread at the head of the list, that one is chosen, or the current one stays so. */
  lemma ChosenAfterCreate(k: State, t: Thread) returns (i: nat)
    requires Inv(k) && t.state == Ready
    ensures i < |k.threads| + 1 && Chosen([t] + k.threads, i)
    ensures Some(([t] + k.threads)[i].id) == if Above(t.priority, k.threads) then Some(t.id) else k.current
  {
    var b := BestFromIsChosen(k.threads, None, 0);
    var ts := [t] + k.threads;
    assert forall j :: 0 < j < |ts| ==> ts[j] == k.threads[j - 1];
    assert b >= 0;
    i := if Above(t.priority, k.threads) then 0 else b + 1;
  }

  lemma InvDistinct(k: State)
    requires Inv(k)
    ensures DistinctIds(k.threads) && k.current == Best(k.threads)
  {}

  ghost predicate Above(priority: nat, threads: seq<Thread>) {
    forall i :: 0 <= i < |threads| && (threads[i].state == Ready || threads[i].state == Running) ==> threads[i].priority < priority
  }

  // ---------------------------------------------------------------- a switch that comes late

  /** Calls one after the other, without the switch. */
  function Calls(k: State, ops: seq<Op>, max: nat): State
    decreases |ops|
  {
    if ops == [] then k else Calls(Call(k, ops[0], max), ops[1..], max)
  }

  /** The best thread after each of the calls is the current one. */
  ghost predicate BestStays(k: State, ops: seq<Op>, max: nat)
    decreases |ops|
  {
    ops == [] || (Best(Call(k, ops[0], max).threads) == k.current && BestStays(Call(k, ops[0], max), ops[1..], max))
  }

  ghost predicate IdleRuns(k: State) {
    && k.threads != [] && k.current.Some?
    && k.threads[|k.threads| - 1].id == IDLE && k.threads[|k.threads| - 1].Runnable()
  }

  /** The pending thread is the best one, if that is not the current one. */
  ghost predicate Pends(k: State) {
    && IdleRuns(k)
    && (Best(k.threads) != k.current ==> k.next == Best(k.threads))
    && k.next != k.current
  }

  lemma IdleIsThere(k: State)
    requires IdleRuns(k)
    ensures Best(k.threads).Some?
  {
    var b := BestFromIsChosen(k.threads, None, 0);
  }

  lemma CallKeepsIdle(k: State, op: Op, max: nat)
    requires IdleRuns(k) && Allowed(k, op)
    ensures IdleRuns(Call(k, op, max)) && Call(k, op, max).current == k.current
  {
    hide Best;
    if op.DoCreate? && |k.threads| <= max {
      var t := [Thread(k.nextId, op.priority, Ready, 0)] + k.threads;
      assert t[|t| - 1] == k.threads[|k.threads| - 1];
    }
  }

  lemma CallPends(k: State, op: Op, max: nat)
    requires Pends(k) && Allowed(k, op)
    ensures Pends(Call(k, op, max)) && Call(k, op, max).current == k.current
    ensures Call(k, op, max).next == None <==> k.next == None && Best(Call(k, op, max).threads) == k.current
  {
    hide Best, WakeAll, SetState, IdleRuns;
    CallKeepsIdle(k, op, max);
    IdleIsThere(k);
    IdleIsThere(Call(k, op, max));
    CurrentIsSome(k);
  }

  lemma CurrentIsSome(k: State)
    requires IdleRuns(k)
    ensures k.current.Some?
  {
  }

  predicate AllowedCalls(k: State, ops: seq<Op>, max: nat)
    decreases |ops|
  {
    ops == [] || (Allowed(k, ops[0]) && AllowedCalls(Call(k, ops[0], max), ops[1..], max))
  }

  lemma {:induction false} CallsPend(k: State, ops: seq<Op>, max: nat)
    requires Pends(k) && AllowedCalls(k, ops, max)
    ensures Pends(Calls(k, ops, max)) && Calls(k, ops, max).current == k.current
    ensures Calls(k, ops, max).next == None <==> k.next == None && BestStays(k, ops, max)
    decreases |ops|
  {
    hide Pends, Call, Best;
    if ops != [] {
      CallPends(k, ops[0], max);
      CallsPend(Call(k, ops[0], max), ops[1..], max);
    }
  }

  /** A switch that comes only after several calls still installs the best thread exactly if the
      current one is not the best in the end, or has been so after every call: otherwise a thread
      that was better on the way is left pending, and takes over from the best one. */
  lemma LateSwitchIff(k: State, ops: seq<Op>, max: nat)
    requires Inv(k) && AllowedCalls(k, ops, max)
    ensures var after := Calls(k, ops, max);
            Switch(after).current == Best(after.threads) <==> Best(after.threads) != k.current || BestStays(k, ops, max)
  {
    IdleIsThere(k.(current := Some(IDLE)));
    hide Best;
    CallsPend(k, ops, max);
    IdleIsThere(Calls(k, ops, max));
  }

  /** Thread 1 sleeps for a tick, thread 2 becomes pending, the tick readies thread 1 again, and the
      switch installs thread 2 over it. */
  lemma LateSwitchFails()
    ensures exists k, ops, max ::
      Inv(k) && AllowedCalls(k, ops, max) && Switch(Calls(k, ops, max)).current != Best(Calls(k, ops, max).threads)
  {
    var a, b, idle := Thread(2, 1, Ready, 0), Thread(1, 2, Ready, 0), Thread(IDLE, 0, Ready, 0);
    var k := State([a, b, idle], Some(1), None, 0, 3);
    BestOfThree(a, b, idle);
    assert Inv(k);
    var asleep := b.(state := Sleeping, sleepTicks := 1);
    BestOfThree(a, asleep, idle);
    hide Best;
    assert SetState(k.threads, 1, Sleeping, Some(1)) == [a, asleep, idle];
    var k1 := Call(k, DoSleep(1), 2);
    assert k1 == State([a, asleep, idle], Some(1), Some(2), 0, 3);
    assert WakeAll(k1.threads) == [a, b, idle];
    var k2 := Call(k1, DoTick, 2);
    assert k2 == State([a, b, idle], Some(1), Some(2), 1, 3);
    var ops := [DoSleep(1), DoTick];
    assert ops[1..] == [DoTick] && [DoTick][1..] == [];
    assert Calls(k2, [], 2) == k2 && Calls(k1, [DoTick], 2) == k2 && Calls(k, ops, 2) == k2;
    assert AllowedCalls(k2, [], 2) && AllowedCalls(k1, [DoTick], 2) && AllowedCalls(k, ops, 2);
  }

  lemma BestOfThree(a: Thread, b: Thread, c: Thread)
    requires a.Runnable() && a.priority == 1 && b.priority == 2 && c.priority == 0
    ensures Best([a, b, c]) == if b.Runnable() then Some(b.id) else Some(a.id)
  {
    assert [a, b, c][1..] == [b, c] && [b, c][1..] == [c] && [c][1..] == [];
    assert BestFrom([c], Some(b.id), 2) == BestFrom([], Some(b.id), 2);
    assert BestFrom([c], Some(a.id), 1) == BestFrom([], Some(a.id), 1);
    assert BestFrom([b, c], Some(a.id), 1) == if b.Runnable() then BestFrom([c], Some(b.id), 2) else BestFrom([c], Some(a.id), 1);
    assert BestFrom([a, b, c], None, 0) == BestFrom([b, c], Some(a.id), 1);
  }

  // ---------------------------------------------------------------- sleeping

  function Ticks(ops: seq<Op>): nat {
    if ops == [] then 0 else Ticks(ops[1..]) + (if ops[0] == DoTick then 1 else 0)
  }

  /** Thread `id` is listed with this state and count. */
  ghost predicate Has(k: State, id: nat, state: RunState, ticks: nat) {
    exists i :: 0 <= i < |k.threads| && k.threads[i].id == id && k.threads[i].state == state && k.threads[i].sleepTicks == ticks
  }

  /** The thread list after a call: the switch leaves it alone. */
  function ThreadsAfter(k: State, op: Op, max: nat): seq<Thread> {
    match op
    case DoCreate(priority) => if |k.threads| > max then k.threads else [Thread(k.nextId, priority, Ready, 0)] + k.threads
    case DoSleep(ticks) => if k.current.None? then k.threads else SetState(k.threads, k.current.value, Sleeping, Some(ticks))
    case DoYield => k.threads
    case DoExit => if k.current.None? then k.threads else SetState(k.threads, k.current.value, Terminated, None)
    case DoTick => WakeAll(k.threads)
  }

  lemma StepThreads(k: State, op: Op, max: nat)
    ensures Step(k, op, max).threads == ThreadsAfter(k, op, max)
  {
    hide Best, WakeAll, SetState;
  }

  lemma StepWhileAsleep(k: State, op: Op, max: nat, id: nat, ticks: nat)
    requires Inv(k) && Allowed(k, op) && Has(k, id, Sleeping, ticks)
    ensures op != DoTick ==> Has(Step(k, op, max), id, Sleeping, ticks)
    ensures op == DoTick && ticks > 1 ==> Has(Step(k, op, max), id, Sleeping, ticks - 1)
    ensures op == DoTick && ticks <= 1 ==> Has(Step(k, op, max), id, Ready, 0)
  {
    var i :| 0 <= i < |k.threads| && k.threads[i].id == id && k.threads[i].state == Sleeping && k.threads[i].sleepTicks == ticks;
    SleeperWaits(k, id, ticks);
    StepThreads(k, op, max);
    hide Best, Inv, Step, WakeAll, SetState;
    if op.DoCreate? && |k.threads| <= max {
      assert Step(k, op, max).threads[i + 1] == k.threads[i];
    } else {
      assert Step(k, op, max).threads[i].id == id;
    }
  }

  lemma SleeperWaits(k: State, id: nat, ticks: nat)
    requires Inv(k) && Has(k, id, Sleeping, ticks)
    ensures k.current != Some(id)
  {
    InvNoneElseRuns(k);
  }

  /** A thread with `ticks` to sleep stays asleep, counting down, and off the processor, while a run holds fewer than
      max(ticks, 1) ticks, whatever the other threads do. */
  lemma {:induction false} SleepsUntilThen(k: State, ops: seq<Op>, max: nat, id: nat, ticks: nat)
    requires Inv(k) && AllowedRun(k, ops, max) && Has(k, id, Sleeping, ticks)
    requires Ticks(ops) == 0 || Ticks(ops) < ticks
    ensures Has(Run(k, ops, max), id, Sleeping, ticks - Ticks(ops))
    ensures Run(k, ops, max).current != Some(id)
    decreases |ops|
  {
    hide Inv, Step, Has;
    if ops == [] {
      SleeperWaits(k, id, ticks);
    } else {
      StepWhileAsleep(k, ops[0], max, id, ticks);
      StepKeepsInv(k, ops[0], max);
      SleepsUntilThen(Step(k, ops[0], max), ops[1..], max, id, if ops[0] == DoTick then ticks - 1 else ticks);
    }
  }

  /** And the tick that makes it max(ticks, 1) makes the thread ready. */
  lemma WakesExactlyThen(k: State, ops: seq<Op>, max: nat, id: nat, ticks: nat)
    requires Inv(k) && AllowedRun(k, ops, max) && Has(k, id, Sleeping, ticks)
    requires AllowedRun(k, ops + [DoTick], max)
    requires Ticks(ops) + 1 == if ticks > 1 then ticks else 1
    ensures Has(Run(k, ops + [DoTick], max), id, Ready, 0)
  {
    hide Inv, Step, Has;
    SleepsUntilThen(k, ops, max, id, ticks);
    RunKeepsInv(k, ops, max);
    RunConcat(k, ops, [DoTick], max);
    StepWhileAsleep(Run(k, ops, max), DoTick, max, id, ticks - Ticks(ops));
    assert Run(Run(k, ops, max), [DoTick], max) == Step(Run(k, ops, max), DoTick, max);
  }

  lemma {:induction false} RunConcat(k: State, ops: seq<Op>, more: seq<Op>, max: nat)
    ensures Run(k, ops + more, max) == Run(Run(k, ops, max), more, max)
    ensures AllowedRun(k, ops, max) && AllowedRun(Run(k, ops, max), more, max) ==> AllowedRun(k, ops + more, max)
    decreases |ops|
  {
    if ops == [] {
      assert ops + more == more;
    } else {
      assert (ops + more)[1..] == ops[1..] + more;
      RunConcat(Step(k, ops[0], max), ops[1..], more, max);
    }
  }

  /** The thread that calls `mp_thread_sleep(ticks)` is asleep with that count after the switch. */
  lemma SleepStarts(k: State, ticks: nat, max: nat)
    requires Inv(k) && k.current != Some(IDLE)
    ensures k.current.Some? && Has(Step(k, DoSleep(ticks), max), k.current.value, Sleeping, ticks)
  {
    var b := BestFromIsChosen(k.threads, None, 0);
    var k' := Step(k, DoSleep(ticks), max);
    assert k'.threads[b].id == k.current.value;
  }

  // ---------------------------------------------------------------- the tickless oracle

  function ShortestSleep(threads: seq<Thread>, shortest: nat): nat {
    if threads == [] then shortest
    else if threads[0].state == Sleeping && threads[0].sleepTicks < shortest
    then ShortestSleep(threads[1..], threads[0].sleepTicks)
    else ShortestSleep(threads[1..], shortest)
  }

  /** `mp_sched_calculate_sleep` */
  function CalculateSleep(k: State): nat {
    var s := ShortestSleep(k.threads, MAX_SLEEP);
    if s == MAX_SLEEP then 0 else s
  }

  lemma {:induction false} ShortestIsLeast(threads: seq<Thread>, shortest: nat)
    ensures ShortestSleep(threads, shortest) <= shortest
    ensures forall i :: 0 <= i < |threads| && threads[i].state == Sleeping ==> ShortestSleep(threads, shortest) <= threads[i].sleepTicks
    ensures ShortestSleep(threads, shortest) == shortest
         || exists i :: 0 <= i < |threads| && threads[i].state == Sleeping && threads[i].sleepTicks == ShortestSleep(threads, shortest)
    decreases |threads|
  {
    if threads != [] {
      var rest := threads[1..];
      var s := if threads[0].state == Sleeping && threads[0].sleepTicks < shortest then threads[0].sleepTicks else shortest;
      ShortestIsLeast(rest, s);
      assert forall j :: 0 <= j < |rest| ==> threads[j + 1] == rest[j];
      assert ShortestSleep(threads, shortest) == ShortestSleep(rest, s);
      if ShortestSleep(rest, s) != s {
        var i :| 0 <= i < |rest| && rest[i].state == Sleeping && rest[i].sleepTicks == ShortestSleep(rest, s);
        assert threads[i + 1].sleepTicks == ShortestSleep(threads, shortest);
      }
    }
  }

  /** The threads after `n` ticks in one jump: those whose count reaches zero are ready. */
  function JumpAll(threads: seq<Thread>, n: nat): (r: seq<Thread>)
    ensures |r| == |threads|
  {
    seq(|threads|, i requires 0 <= i < |threads| =>
      if threads[i].state != Sleeping then threads[i]
      else if threads[i].sleepTicks > n then threads[i].(sleepTicks := threads[i].sleepTicks - n)
      else threads[i].(sleepTicks := 0, state := Ready))
  }

  function TickTimes(k: State, n: nat): State
    decreases n
  {
    if n == 0 then k else Switch(Tick(TickTimes(k, n - 1)))
  }

  lemma WakeAfterJump(threads: seq<Thread>, n: nat)
    ensures WakeAll(JumpAll(threads, n)) == JumpAll(threads, n + 1)
  {}

  ghost predicate SleepAtLeast(threads: seq<Thread>, n: nat) {
    forall i :: 0 <= i < |threads| && threads[i].state == Sleeping ==> threads[i].sleepTicks >= n
  }

  /** A jump that stops short of every sleeper's count moves no state, so the best thread stays. */
  lemma JumpKeepsBest(threads: seq<Thread>, n: nat)
    requires SleepAtLeast(threads, n + 1)
    ensures forall i :: 0 <= i < |threads| ==> JumpAll(threads, n)[i].state == threads[i].state
    ensures Best(JumpAll(threads, n)) == Best(threads)
    ensures n == 0 ==> JumpAll(threads, n) == threads
  {
    SameStatesSameBest(threads, JumpAll(threads, n), None, 0);
  }

  /** Before every sleeper's time, `n` ticks with their switches change counts and the clock only. */
  lemma {:induction false} NothingWakesBefore(k: State, n: nat)
    requires Inv(k) && SleepAtLeast(k.threads, n + 1)
    ensures TickTimes(k, n) == k.(clock := k.clock + n, threads := JumpAll(k.threads, n))
    ensures Inv(TickTimes(k, n))
    decreases n
  {
    hide Best, JumpAll, WakeAll;
    JumpKeepsBest(k.threads, n);
    if n > 0 {
      NothingWakesBefore(k, n - 1);
      var before := TickTimes(k, n - 1);
      WakeAfterJump(k.threads, n - 1);
      TickSettles(before);
      assert TickTimes(k, n) == Switch(Tick(before));
    }
  }

  lemma TickSettles(k: State)
    requires Inv(k)
    ensures Switch(Tick(k)) == k.(clock := k.clock + 1, threads := WakeAll(k.threads), current := Best(WakeAll(k.threads)))
    ensures Inv(Switch(Tick(k)))
  {
    hide Best;
    StepKeepsInv(k, DoTick, 0);
    Settles(k.(clock := k.clock + 1, threads := WakeAll(k.threads)));
  }

  lemma {:induction false} SameStatesSameBest(a: seq<Thread>, b: seq<Thread>, best: Option<nat>, highest: nat)
    requires |a| == |b|
    requires forall i :: 0 <= i < |a| ==> a[i].id == b[i].id && a[i].priority == b[i].priority && a[i].state == b[i].state
    ensures BestFrom(a, best, highest) == BestFrom(b, best, highest)
    decreases |a|
  {
    if a != [] {
      if a[0].Runnable() && a[0].priority >= highest {
        SameStatesSameBest(a[1..], b[1..], Some(a[0].id), a[0].priority);
      } else {
        SameStatesSameBest(a[1..], b[1..], best, highest);
      }
    }
  }

  /** A positive answer `s`: `s` ticks one by one come to the same as one jump of `s` ticks and one
      reschedule. */
  lemma TicklessJump(k: State)
    requires Inv(k) && CalculateSleep(k) > 0
    ensures var s := CalculateSleep(k);
            TickTimes(k, s) == Switch(Reschedule(k.(clock := k.clock + s, threads := JumpAll(k.threads, s))))
  {
    hide *;
    OracleIsLeast(k);
    JumpTicks(k, CalculateSleep(k));
  }

  lemma JumpTicks(k: State, n: nat)
    requires Inv(k) && n > 0 && SleepAtLeast(k.threads, n)
    ensures TickTimes(k, n) == Switch(Reschedule(k.(clock := k.clock + n, threads := JumpAll(k.threads, n))))
  {
    hide *;
    TickTimesStep(k, n);
    NothingWakesBefore(k, n - 1);
    TickAfterJump(k, n);
  }

  lemma TickTimesStep(k: State, n: nat)
    requires n > 0
    ensures TickTimes(k, n) == Switch(Tick(TickTimes(k, n - 1)))
  {}

  lemma TickAfterJump(k: State, n: nat)
    requires n > 0
    ensures Tick(k.(clock := k.clock + (n - 1), threads := JumpAll(k.threads, n - 1)))
         == Reschedule(k.(clock := k.clock + n, threads := JumpAll(k.threads, n)))
  {
    hide Reschedule;
    WakeAfterJump(k.threads, n - 1);
  }

  /** The ticks before `s` wake nobody, and tick `s` wakes exactly the sleepers whose count was
      `s`, of which there is one. */
  lemma TicklessIsExact(k: State, n: nat, i: nat)
    requires Inv(k) && 0 < n <= CalculateSleep(k)
    requires i < |k.threads| && k.threads[i].state == Sleeping
    ensures |TickTimes(k, n).threads| == |k.threads|
    ensures TickTimes(k, n).threads[i].state == Ready <==> n == CalculateSleep(k) == k.threads[i].sleepTicks
    ensures exists j :: 0 <= j < |k.threads| && k.threads[j].state == Sleeping && k.threads[j].sleepTicks == CalculateSleep(k)
  {
    var s := CalculateSleep(k);
    OracleIsLeast(k);
    assert k.threads[i].sleepTicks >= s;
    hide Inv, Best, CalculateSleep;
    if n < s {
      NothingWakesBefore(k, n);
    } else {
      TicklessJump(k);
      SwitchKeepsThreads(k.(clock := k.clock + s, threads := JumpAll(k.threads, s)));
    }
  }

  lemma OracleIsLeast(k: State)
    requires CalculateSleep(k) > 0
    ensures SleepAtLeast(k.threads, CalculateSleep(k))
    ensures exists i :: 0 <= i < |k.threads| && k.threads[i].state == Sleeping && k.threads[i].sleepTicks == CalculateSleep(k)
  {
    ShortestIsLeast(k.threads, MAX_SLEEP);
  }

  /** The answer is zero exactly when no thread sleeps, or one is due at the next tick with a count
      of zero, or every count is the sentinel. */
  lemma OracleZeroIff(k: State)
    requires forall i :: 0 <= i < |k.threads| ==> k.threads[i].sleepTicks <= MAX_SLEEP
    ensures CalculateSleep(k) == 0 <==>
              || (exists i :: 0 <= i < |k.threads| && k.threads[i].state == Sleeping && k.threads[i].sleepTicks == 0)
              || (forall i :: 0 <= i < |k.threads| && k.threads[i].state == Sleeping ==> k.threads[i].sleepTicks == MAX_SLEEP)
  {
    ShortestIsLeast(k.threads, MAX_SLEEP);
  }
}

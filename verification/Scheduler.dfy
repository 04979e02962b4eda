/** The scheduler's linked list of thread control blocks, and the calls that walk and change it
    (src/kernel/scheduler.c, src/kernel/thread.c, and `mp_hal_cpu_pendsv_handler`), each proved to
    compute the function of module Kernel that stands for it. */
module Scheduler {
  import opened Kernel

  class Tcb {
    var id: nat
    var priority: nat
    var state: RunState
    var sleepTicks: nat
    var next: Tcb?

    constructor ()
      ensures id == 0 && priority == 0 && state == Ready && sleepTicks == 0 && next == null
    {
      id, priority, state, sleepTicks, next := 0, 0, Ready, 0, null;
    }

    function View(): Thread
      reads this
    {
      Thread(id, priority, state, sleepTicks)
    }
  }

  function Views(ts: seq<Tcb>): (r: seq<Thread>)
    reads ts
    ensures |r| == |ts|
    ensures forall i :: 0 <= i < |ts| ==> r[i] == ts[i].View()
  {
    seq(|ts|, i requires 0 <= i < |ts| reads ts => ts[i].View())
  }

  function IdOf(t: Tcb?): Option<nat>
    reads t
  {
    if t == null then None else Some(t.id)
  }

  /** Of the pool, the blocks given out are listed and the others not; idle is listed besides. */
  ghost predicate Tracks(pool: seq<Tcb>, used: seq<bool>, list: seq<Tcb>) {
    && |used| == |pool|
    && (forall i, j :: 0 <= i < j < |pool| ==> pool[i] != pool[j])
    && (forall i :: 0 <= i < |pool| ==> (used[i] <==> pool[i] in list))
    && CountTrue(used) + 1 == |list|
  }

  lemma TracksGiven(pool: seq<Tcb>, used: seq<bool>, list: seq<Tcb>, idx: nat)
    requires Tracks(pool, used, list) && idx < |pool| && !used[idx]
    ensures Tracks(pool, used[idx := true], [pool[idx]] + list)
  {
    CountSet(used, idx);
  }

  /** Block `i` of the list, null past its end. */
  function Nth(ts: seq<Tcb>, i: nat): Tcb? {
    if i < |ts| then ts[i] else null
  }

  class Scheduler {
    var readyList: Tcb?
    var current: Tcb?
    var next: Tcb?
    var clock: nat
    var nextId: nat
    /** `tcb_pool`, of which the first `used` have been given out: none is ever given back, so the
        scan for an unused one always finds the first of the rest. */
    var pool: seq<Tcb>
    var used: seq<bool>
    /** The ready list from its head. */
    ghost var list: seq<Tcb>

    /** The list is the chain of `next` pointers from `readyList`: it ends, and has no block twice. */
    ghost predicate Linked()
      reads this`readyList, this`list, list`next
    {
      && readyList == Nth(list, 0)
      && (forall i :: 0 <= i < |list| ==> list[i].next == Nth(list, i + 1))
      && (forall i, j :: 0 <= i < j < |list| ==> list[i] != list[j])
    }

    ghost predicate IdsDiffer()
      reads this`list, this`nextId, list`id
    {
      && (forall i :: 0 <= i < |list| ==> list[i].id < nextId)
      && (forall i, j :: 0 <= i < j < |list| ==> list[i].id != list[j].id)
    }

    /** A block not yet given out has the sleep count of zeroed memory. */
    ghost predicate Zeroed()
      reads this`pool, this`used, pool`sleepTicks
    {
      |used| == |pool| && forall i :: 0 <= i < |pool| && !used[i] ==> pool[i].sleepTicks == 0
    }

    ghost predicate Valid()
      reads this`readyList, this`current, this`next, this`nextId, this`pool, this`used, this`list
      reads list`next, list`id, pool`sleepTicks
    {
      && Linked() && IdsDiffer() && Tracks(pool, used, list) && Zeroed()
      && (current != null ==> current in list)
      && (next != null ==> next in list)
    }

    /** The kernel state the fields stand for. */
    ghost function View(): State
      reads this, list, current, next
    {
      State(Views(list), IdOf(current), IdOf(next), clock, nextId)
    }

    /** `mp_sched_init`, with `max` blocks in the pool. */
    constructor (max: nat)
      ensures Valid() && fresh(list) && fresh(pool) && |pool| == max
      ensures View() == Boot()
    {
      var idle := new Tcb();
      var blocks: seq<Tcb> := [];
      var flags: seq<bool> := [];
      while |blocks| < max
        invariant |blocks| == |flags| <= max
        invariant CountTrue(flags) == 0
        invariant fresh(blocks) && fresh(idle) && idle !in blocks && idle.View() == Thread(IDLE, 0, Ready, 0) && idle.next == null
        invariant forall i :: 0 <= i < |flags| ==> !flags[i] && blocks[i].sleepTicks == 0
        invariant forall i, j :: 0 <= i < j < |blocks| ==> blocks[i] != blocks[j]
      {
        var b := new Tcb();
        CountAppend(flags, false);
        blocks, flags := blocks + [b], flags + [false];
      }
      readyList, current, next := idle, idle, null;
      clock, nextId := 0, 1;
      pool, used, list := blocks, flags, [idle];
    }

    /** The walk of `mp_sched_reschedule`. */
    method FindBest() returns (best: Tcb?)
      requires Linked()
      ensures best != null ==> best in list && (best.state == Ready || best.state == Running)
      ensures forall t :: t in list && (t.state == Ready || t.state == Running) ==> best != null && t.priority <= best.priority
      ensures IdOf(best) == Best(Views(list))
    {
      best := null;
      var highest := 0;
      var curr := readyList;
      ghost var i := 0;
      ghost var threads := Views(list);
      while curr != null
        invariant i <= |list| && curr == Nth(list, i)
        invariant best != null ==> best in list && (best.state == Ready || best.state == Running) && best.priority == highest
        invariant best == null ==> highest == 0
        invariant forall j :: 0 <= j < i && (list[j].state == Ready || list[j].state == Running) ==>
                    best != null && list[j].priority <= highest
        invariant BestFrom(threads, None, 0) == BestFrom(threads[i..], IdOf(best), highest)
        decreases |list| - i
      {
        if (curr.state == Ready || curr.state == Running) && curr.priority >= highest {
          highest := curr.priority;
          best := curr;
        }
        assert threads[i..][1..] == threads[i + 1..];
        curr := curr.next;
        i := i + 1;
      }
    }

    lemma SameId(a: Tcb, b: Tcb)
      requires IdsDiffer() && a in list && b in list
      ensures a.id == b.id ==> a == b
    {}

    /** `mp_sched_reschedule` */
    method Reschedule()
      requires Valid()
      modifies this`next
      ensures Valid() && View() == Kernel.Reschedule(old(View()))
    {
      hide Best, Tracks, Linked, IdsDiffer, Zeroed, Views;
      var best := FindBest();
      if best != null && current != null {
        SameId(best, current);
      }
      if best != current {
        next := best;
      }
    }

    /** `mp_hal_cpu_pendsv_handler` */
    method PendSV()
      requires Valid()
      modifies this`current, this`next
      ensures Valid() && View() == Switch(old(View()))
    {
      if next != null {
        current := next;
        next := null;
      }
    }

    /** The walk of `mp_sched_tick`, but for the stack high-water scan. */
    method WakeSleepers()
      requires Linked()
      modifies list`state, list`sleepTicks
      ensures Views(list) == WakeAll(old(Views(list)))
    {
      var curr := readyList;
      ghost var i := 0;
      while curr != null
        invariant i <= |list| && curr == Nth(list, i)
        invariant forall j :: 0 <= j < |list| ==> list[j].View() == if j < i then Wake(old(list[j].View())) else old(list[j].View())
        decreases |list| - i
      {
        if curr.state == Sleeping {
          if curr.sleepTicks > 0 {
            curr.sleepTicks := curr.sleepTicks - 1;
          }
          if curr.sleepTicks == 0 {
            curr.state := Ready;
          }
        }
        curr := curr.next;
        i := i + 1;
      }
    }

    /** Counts of listed blocks may change: the blocks not given out are not listed. */
    twostate lemma StaysZeroed()
      requires old(Zeroed()) && Tracks(pool, used, list)
      requires pool == old(pool) && used == old(used)
      requires forall i :: 0 <= i < |pool| && pool[i] !in list ==> pool[i].sleepTicks == old(pool[i].sleepTicks)
      ensures Zeroed()
    {}

    /** What a tick does before it reschedules. */
    method CountDown()
      requires Valid()
      modifies this`clock, list`state, list`sleepTicks
      ensures Valid()
      ensures View() == old(View()).(clock := old(clock) + 1, threads := WakeAll(old(View()).threads))
    {
      hide Linked, Tracks, IdsDiffer, Zeroed, WakeAll, Views;
      clock := clock + 1;
      WakeSleepers();
      StaysZeroed();
    }

    /** `mp_sched_tick` */
    method Tick()
      requires Valid()
      modifies this`clock, this`next, list`state, list`sleepTicks
      ensures Valid()
      ensures View() == Kernel.Tick(old(View()))
    {
      hide Valid, WakeAll, Views, Kernel.Reschedule;
      CountDown();
      Reschedule();
    }

    /** `mp_sched_calculate_sleep` */
    method CalculateSleep() returns (ticks: nat)
      requires Valid()
      ensures ticks == Kernel.CalculateSleep(View())
    {
      ticks := MAX_SLEEP;
      var curr := readyList;
      ghost var i := 0;
      ghost var threads := Views(list);
      while curr != null
        invariant i <= |list| && curr == Nth(list, i)
        invariant ShortestSleep(threads, MAX_SLEEP) == ShortestSleep(threads[i..], ticks)
        decreases |list| - i
      {
        if curr.state == Sleeping {
          if curr.sleepTicks < ticks {
            ticks := curr.sleepTicks;
          }
        }
        assert threads[i..][1..] == threads[i + 1..];
        curr := curr.next;
        i := i + 1;
      }
      if ticks == MAX_SLEEP {
        ticks := 0;
      }
    }

    /** `mp_sched_add_thread` */
    method AddThread(tcb: Tcb)
      requires Linked() && tcb !in list
      modifies this`readyList, this`list, tcb`next
      ensures Linked() && list == [tcb] + old(list)
    {
      tcb.next := readyList;
      readyList := tcb;
      list := [tcb] + list;
    }

    /** `mp_sched_remove_thread`: unlinks the block if it is listed, and keeps the others' order. */
    method RemoveThread(tcb: Tcb)
      requires Linked()
      modifies this`readyList, this`list, list`next
      ensures Linked()
      ensures tcb !in old(list) ==> list == old(list)
      ensures tcb in old(list) ==> exists i :: 0 <= i < |old(list)| && old(list)[i] == tcb && list == old(list)[..i] + old(list)[i + 1..]
    {
      var curr := readyList;
      var prev: Tcb? := null;
      ghost var i := 0;
      while curr != null
        invariant i <= |list| && curr == Nth(list, i)
        invariant prev == if i == 0 then null else list[i - 1]
        invariant tcb !in list[..i]
        decreases |list| - i
      {
        if curr == tcb {
          Bypass(prev, curr, i);
          return;
        }
        prev := curr;
        curr := curr.next;
        i := i + 1;
      }
    }

    /** Takes the block at index `i` out of the list. */
    method Bypass(prev: Tcb?, curr: Tcb, ghost i: nat)
      requires Linked() && i < |list| && curr == list[i] && prev == if i == 0 then null else list[i - 1]
      modifies this`readyList, this`list, list`next
      ensures Linked() && list == old(list)[..i] + old(list)[i + 1..]
    {
      ghost var before := list;
      if prev == null {
        readyList := curr.next;
      } else {
        prev.next := curr.next;
      }
      list := list[..i] + list[i + 1..];
      assert forall j :: 0 <= j < |list| ==> list[j] == before[if j < i then j else j + 1];
    }

    /** `mp_thread_yield` */
    method Yield()
      requires Valid()
      modifies this`next
      ensures Valid() && View() == Kernel.Reschedule(old(View()))
    {
      Reschedule();
    }

    /** The assignments to the current block in `mp_thread_sleep` and `mp_thread_exit`; the latter
        leaves the count alone. */
    method MarkCurrent(state: RunState, ticks: Option<nat>)
      requires IdsDiffer() && current != null && current in list
      modifies list`state, list`sleepTicks
      ensures Views(list) == SetState(old(Views(list)), current.id, state, ticks)
    {
      current.state := state;
      if ticks.Some? {
        current.sleepTicks := ticks.value;
      }
    }

    /** `mp_thread_sleep` */
    method Sleep(ticks: nat)
      requires Valid()
      modifies this`next, list`state, list`sleepTicks
      ensures Valid()
      ensures View() == Kernel.Sleep(old(View()), ticks)
    {
      hide Linked, Tracks, IdsDiffer, Zeroed, Views, SetState, Best;
      if current != null {
        MarkCurrent(Sleeping, Some(ticks));
        StaysZeroed();
        Reschedule();
      }
    }

    /** `mp_thread_exit` */
    method Exit()
      requires Valid()
      modifies this`next, list`state, list`sleepTicks
      ensures Valid()
      ensures View() == Kernel.Exit(old(View()))
    {
      hide Linked, Tracks, IdsDiffer, Zeroed, Views, SetState, Best;
      if current != null {
        MarkCurrent(Terminated, None);
        StaysZeroed();
        Reschedule();
      }
    }

    /** The scan of `mp_thread_create` for a block not yet given out. */
    method FindUnused() returns (idx: nat)
      requires Tracks(pool, used, list)
      ensures idx <= |pool|
      ensures idx < |pool| ==> !used[idx] && pool[idx] !in list
      ensures idx == |pool| <==> |list| > |pool|
      ensures |used| == |pool|
    {
      idx := 0;
      while idx < |pool| && used[idx]
        invariant idx <= |pool|
        invariant forall j :: 0 <= j < idx ==> used[j]
      {
        idx := idx + 1;
      }
      CountBounds(used);
    }

    /** `mp_thread_create`: 0 when the pool is used up, otherwise the new thread's id. */
    method Create(priority: nat) returns (id: nat)
      requires Valid()
      modifies this, pool`id, pool`priority, pool`state, pool`next
      ensures Valid() && pool == old(pool)
      ensures list == old(list) || (list != [] && list[0] in pool && list[1..] == old(list))
      ensures View() == Kernel.Create(old(View()), priority, |pool|)
      ensures id == if |old(list)| > |pool| then 0 else old(nextId)
    {
      hide Linked, Tracks, IdsDiffer, Zeroed, Views, Best, Kernel.Reschedule;
      var idx := FindUnused();
      if idx == |pool| {
        return 0;
      }
      UnusedIsZero(idx);
      id := nextId;
      GiveBlock(idx, priority);
      Reschedule();
    }

    lemma UnusedIsZero(idx: nat)
      requires Zeroed() && idx < |pool| && !used[idx]
      ensures pool[idx].sleepTicks == 0
    {}

    /** Marks, fills in and lists block `idx` of the pool. */
    method GiveBlock(idx: nat, priority: nat)
      requires Valid() && idx < |pool| == |used| && !used[idx] && pool[idx] !in list && pool[idx].sleepTicks == 0
      modifies this`used, this`nextId, this`readyList, this`list, pool`id, pool`priority, pool`state, pool`next
      ensures Valid() && used == old(used)[idx := true]
      ensures list == [pool[idx]] + old(list)
      ensures View() == old(View()).(threads := [Thread(old(nextId), priority, Ready, 0)] + old(View()).threads, nextId := old(nextId) + 1)
    {
      hide Linked, Tracks, IdsDiffer;
      TracksGiven(pool, used, list, idx);
      used := used[idx := true];
      TakeBlock(pool[idx], priority);
      assert Views(list) == [Thread(old(nextId), priority, Ready, 0)] + old(Views(list));
    }

    /** Fills in the block and lists it. */
    method TakeBlock(tcb: Tcb, priority: nat)
      requires Linked() && IdsDiffer() && tcb !in list
      modifies this`nextId, this`readyList, this`list
      modifies tcb`id, tcb`priority, tcb`state, tcb`next
      ensures Linked() && IdsDiffer() && nextId == old(nextId) + 1
      ensures list == [tcb] + old(list)
      ensures tcb.id == old(nextId) && tcb.priority == priority && tcb.state == Ready
    {
      tcb.id := nextId;
      nextId := nextId + 1;
      tcb.priority := priority;
      tcb.state := Ready;
      hide Linked;
      AddThread(tcb);
    }

    /** One call and the switch behind it. */
    method Perform(op: Op)
      requires Valid()
      modifies this, list, pool
      ensures Valid() && pool == old(pool)
      ensures forall t :: t in list ==> t in old(list) || t in pool
      ensures View() == Kernel.Step(old(View()), op, |pool|)
    {
      hide Valid, View, Switch, Kernel.Create, Kernel.Sleep, Kernel.Exit, Kernel.Tick, Kernel.Reschedule;
      match op {
        case DoCreate(priority) =>
          ghost var before := list;
          var id := Create(priority);
          assert list != before ==> list == [list[0]] + before;
        case DoSleep(ticks) => Sleep(ticks);
        case DoYield => Yield();
        case DoExit => Exit();
        case DoTick => Tick();
      }
      PendSV();
    }
  }

  /** A scheduler that is booted and then driven through any run of calls in which idle neither
      sleeps nor exits: no switch is pending, and the right thread runs. */
  method Drive(max: nat, ops: seq<Op>) returns (s: Scheduler)
    requires AllowedRun(Boot(), ops, max)
    ensures s.Valid() && s.View() == Run(Boot(), ops, max)
    ensures s.View().next == None && DistinctIds(s.View().threads) && exists i :: RunsRightly(s.View(), i)
    ensures NoneElseRuns(s.View())
  {
    hide *;
    s := new Scheduler(max);
    HighestPriorityRuns(ops, max);
    OnlyReadyOrRunningRun(ops, max);
    RunFromStart(Boot(), ops, max);
    for i := 0 to |ops|
      invariant s.Valid() && fresh(s) && fresh(s.list) && fresh(s.pool) && |s.pool| == max
      invariant RunFrom(s.View(), ops, i, max) == Run(Boot(), ops, max)
    {
      RunOneMore(s.View(), ops, i, max);
      s.Perform(ops[i]);
      forall j | 0 <= j < |s.list|
        ensures fresh(s.list[j])
      {
        assert s.list[j] in s.list;
      }
    }
    RunToEnd(s.View(), ops, max);
  }

  /** The run of the calls from index `i` on. */
  function RunFrom(k: State, ops: seq<Op>, i: nat, max: nat): State
    requires i <= |ops|
  {
    Run(k, ops[i..], max)
  }

  lemma RunFromStart(k: State, ops: seq<Op>, max: nat)
    ensures RunFrom(k, ops, 0, max) == Run(k, ops, max)
  {
    assert ops[0..] == ops;
  }

  lemma RunOneMore(k: State, ops: seq<Op>, i: nat, max: nat)
    requires i < |ops|
    ensures RunFrom(k, ops, i, max) == RunFrom(Kernel.Step(k, ops[i], max), ops, i + 1, max)
  {
    hide Kernel.Step;
    assert ops[i..][1..] == ops[i + 1..];
  }

  lemma RunToEnd(k: State, ops: seq<Op>, max: nat)
    ensures RunFrom(k, ops, |ops|, max) == k
  {
  }

  function CountTrue(bs: seq<bool>): nat {
    if bs == [] then 0 else (if bs[0] then 1 else 0) + CountTrue(bs[1..])
  }

  lemma {:induction false} CountBounds(bs: seq<bool>)
    ensures CountTrue(bs) <= |bs|
    ensures CountTrue(bs) == |bs| <==> forall i :: 0 <= i < |bs| ==> bs[i]
  {
    if bs != [] {
      CountBounds(bs[1..]);
      assert bs[0] && (forall i :: 0 <= i < |bs[1..]| ==> bs[1..][i]) ==> forall i :: 0 <= i < |bs| ==> bs[i];
      assert (forall i :: 0 <= i < |bs| ==> bs[i]) ==> forall i :: 0 <= i < |bs[1..]| ==> bs[1..][i];
    }
  }

  lemma {:induction false} CountAppend(bs: seq<bool>, b: bool)
    ensures CountTrue(bs + [b]) == CountTrue(bs) + (if b then 1 else 0)
  {
    if bs == [] {
      assert bs + [b] == [b];
    } else {
      assert (bs + [b])[1..] == bs[1..] + [b];
      CountAppend(bs[1..], b);
    }
  }

  lemma {:induction false} CountSet(bs: seq<bool>, i: nat)
    requires i < |bs| && !bs[i]
    ensures CountTrue(bs[i := true]) == CountTrue(bs) + 1
  {
    if i == 0 {
      assert bs[0 := true][1..] == bs[1..];
    } else {
      assert bs[i := true][1..] == bs[1..][i - 1 := true];
      CountSet(bs[1..], i - 1);
    }
  }
}

/** Software timers on a linked list that is changed while it is being walked
    (src/kernel/timer.c). */
module Timers {

  class Timer {
    var expiry: nat
    var period: nat
    var periodic: bool
    var callback: bool
    var next: Timer?

    /** `mp_timer_create`, for a new timer, at time `now`; `callback` says that there is one. */
    constructor (now: nat, delay: nat, period: nat, periodic: bool, callback: bool)
      ensures View() == Entry(this, now + delay, period, periodic, callback) && next == null
    {
      this.expiry, this.period, this.periodic, this.callback, this.next := now + delay, period, periodic, callback, null;
    }

    function View(): Entry
      reads this
    {
      Entry(this, expiry, period, periodic, callback)
    }
  }

  /** A timer with the values of its fields. */
  datatype Entry = Entry(timer: Timer, expiry: nat, period: nat, periodic: bool, callback: bool)

  function Views(ts: seq<Timer>): (r: seq<Entry>)
    reads ts
    ensures |r| == |ts|
    ensures forall i :: 0 <= i < |ts| ==> r[i] == ts[i].View()
  {
    seq(|ts|, i requires 0 <= i < |ts| reads ts => ts[i].View())
  }

  function Nth(ts: seq<Timer>, i: nat): Timer? {
    if i < |ts| then ts[i] else null
  }

  lemma Without(ts: seq<Timer>, i: nat)
    requires i < |ts| && forall j, k :: 0 <= j < k < |ts| ==> ts[j] != ts[k]
    ensures var us := ts[..i] + ts[i + 1..];
            && (forall j :: 0 <= j < |us| ==> us[j] == ts[if j < i then j else j + 1])
            && (forall j, k :: 0 <= j < k < |us| ==> us[j] != us[k])
            && (forall n: nat :: 1 <= n <= |us| ==> Nth(us, n) == Nth(ts, if n < i then n else n + 1))
            && Nth(us, 0) == Nth(ts, if i == 0 then 1 else 0)
  {}

  // ---------------------------------------------------------------- one tick, on values

  predicate Due(e: Entry, now: nat) {
    now >= e.expiry
  }

  /** What a tick leaves of the list: the same timers in the same order, without the due one-shots,
      and with the due periodic ones set to go off a period from now. */
  function Left(es: seq<Entry>, now: nat): seq<Entry> {
    if es == [] then []
    else if !Due(es[0], now) then [es[0]] + Left(es[1..], now)
    else if es[0].periodic then [es[0].(expiry := now + es[0].period)] + Left(es[1..], now)
    else Left(es[1..], now)
  }

  /** The timers whose callback a tick calls, in order. */
  function Fired(es: seq<Entry>, now: nat): seq<Timer> {
    if es == [] then []
    else if Due(es[0], now) && es[0].callback then [es[0].timer] + Fired(es[1..], now)
    else Fired(es[1..], now)
  }

  lemma LeftAppend(es: seq<Entry>, e: Entry, now: nat)
    ensures Left(es + [e], now) == Left(es, now) + Left([e], now)
    ensures Fired(es + [e], now) == Fired(es, now) + Fired([e], now)
  {
    LeftConcat(es, [e], now);
    FiredConcat(es, [e], now);
  }

  lemma {:induction false} LeftConcat(es: seq<Entry>, fs: seq<Entry>, now: nat)
    ensures Left(es + fs, now) == Left(es, now) + Left(fs, now)
  {
    hide Due;
    if es == [] {
      assert es + fs == fs;
    } else {
      assert (es + fs)[1..] == es[1..] + fs;
      LeftConcat(es[1..], fs, now);
    }
  }

  lemma {:induction false} FiredConcat(es: seq<Entry>, fs: seq<Entry>, now: nat)
    ensures Fired(es + fs, now) == Fired(es, now) + Fired(fs, now)
  {
    hide Due;
    if es == [] {
      assert es + fs == fs;
    } else {
      assert (es + fs)[1..] == es[1..] + fs;
      FiredConcat(es[1..], fs, now);
    }
  }

  lemma LeftOne(e: Entry, now: nat)
    ensures Left([e], now) == if now < e.expiry then [e] else if e.periodic then [e.(expiry := now + e.period)] else []
    ensures Fired([e], now) == if now >= e.expiry && e.callback then [e.timer] else []
  {
    assert [e][1..] == [];
  }

  // ---------------------------------------------------------------- the operations, on values

  predicate Listed(es: seq<Entry>, t: Timer) {
    exists i :: 0 <= i < |es| && es[i].timer == t
  }

  ghost predicate Distinct(es: seq<Entry>) {
    forall i, j :: 0 <= i < j < |es| ==> es[i].timer != es[j].timer
  }

  datatype Op = StartOp(entry: Entry) | StopOp(timer: Timer) | TickOp(now: nat)

  function Removed(es: seq<Entry>, t: Timer): seq<Entry> {
    if es == [] then [] else if es[0].timer == t then es[1..] else [es[0]] + Removed(es[1..], t)
  }

  function After(es: seq<Entry>, op: Op): seq<Entry> {
    match op
    case StartOp(e) => if Listed(es, e.timer) then es else [e] + es
    case StopOp(t) => Removed(es, t)
    case TickOp(now) => Left(es, now)
  }

  lemma AfterStop(es: seq<Entry>, t: Timer)
    ensures After(es, StopOp(t)) == Removed(es, t)
  {}

  function FiredBy(es: seq<Entry>, op: Op): seq<Timer> {
    if op.TickOp? then Fired(es, op.now) else []
  }

  lemma {:induction false} RemovedAt(es: seq<Entry>, k: nat)
    requires k < |es| && Distinct(es)
    ensures Removed(es, es[k].timer) == es[..k] + es[k + 1..]
    decreases k
  {
    if k > 0 {
      var rest := es[1..];
      RemovedAt(rest, k - 1);
      assert rest[k - 1] == es[k] && es[0].timer != es[k].timer;
      assert es[..k] == [es[0]] + rest[..k - 1] && rest[k..] == es[k + 1..];
    } else {
      assert es[..0] == [];
    }
  }

  lemma {:induction false} RemovedNone(es: seq<Entry>, t: Timer)
    requires !Listed(es, t)
    ensures Removed(es, t) == es
    decreases |es|
  {
    if es != [] {
      assert es[0].timer != t;
      assert forall i :: 0 <= i < |es[1..]| ==> es[1..][i] == es[i + 1];
      RemovedNone(es[1..], t);
    }
  }

  // ---------------------------------------------------------------- the list

  /** The views of a list without its `k`-th timer, when no field that they show has changed. */
  twostate lemma ViewsWithout(ts: seq<Timer>, new k: nat)
    requires k < |ts| && forall i :: 0 <= i < |ts| ==> ts[i].View() == old(ts[i].View())
    ensures Views(ts[..k] + ts[k + 1..]) == old(Views(ts))[..k] + old(Views(ts))[k + 1..]
  {
  }

  twostate lemma RemovedView(ts: seq<Timer>, new k: nat)
    requires k < |ts| && Distinct(old(Views(ts)))
    ensures Removed(old(Views(ts)), ts[k]) == old(Views(ts))[..k] + old(Views(ts))[k + 1..]
  {
    RemovedAt(old(Views(ts)), k);
  }

  class TimerList {
    var head: Timer?
    /** The list from its head; the timers that ever were in it; every callback called so far. */
    ghost var list: seq<Timer>
    ghost var known: set<Timer>
    ghost var log: seq<Timer>

    ghost predicate Linked()
      reads this`head, this`list, this`known, known`next
    {
      && (forall i :: 0 <= i < |list| ==> list[i] in known)
      && head == Nth(list, 0)
      && (forall i :: 0 <= i < |list| ==> list[i].next == Nth(list, i + 1))
      && (forall i, j :: 0 <= i < j < |list| ==> list[i] != list[j])
    }

    constructor ()
      ensures Linked() && list == [] && known == {} && log == []
    {
      head, list, known, log := null, [], {}, [];
    }

    /** `mp_timer_start`: a listed timer is left where it is. */
    method Start(timer: Timer)
      requires Linked()
      modifies this`head, this`list, this`known, timer`next
      ensures Linked()
      ensures known <= old(known) + {timer}
      ensures list == if timer in old(list) then old(list) else [timer] + old(list)
    {
      var curr := head;
      ghost var i := 0;
      while curr != null
        invariant i <= |list| && curr == Nth(list, i)
        invariant timer !in list[..i]
        decreases |list| - i
      {
        if curr == timer {
          return;
        }
        curr := curr.next;
        i := i + 1;
      }
      Push(timer);
    }

    /** Puts a timer that is not listed at the head. */
    method Push(timer: Timer)
      requires Linked() && timer !in list
      modifies this`head, this`list, this`known, timer`next
      ensures Linked() && list == [timer] + old(list) && known == old(known) + {timer}
    {
      ghost var before := list;
      timer.next := head;
      head := timer;
      list := [timer] + list;
      known := known + {timer};
      forall j | 0 <= j < |list|
        ensures list[j].next == Nth(list, j + 1) && list[j] in known
      {
        assert j > 0 ==> list[j] == before[j - 1] && Nth(list, j + 1) == Nth(before, j);
      }
    }

    lemma Links(k: nat)
      requires Linked()
      ensures head == Nth(list, 0)
      ensures k < |list| ==> list[k].next == Nth(list, k + 1) && list[k] in known
    {}

    /** The assignment that drops `curr` from the list, behind `prev` if there is one. */
    method Unlink(prev: Timer?, curr: Timer, ghost i: nat)
      requires Linked() && i < |list| && list[i] == curr
      requires prev == if i == 0 then null else list[i - 1]
      modifies this`head, this`list, known`next
      ensures Linked() && list == old(list)[..i] + old(list)[i + 1..]
      ensures curr.next == old(curr.next)
    {
      ghost var before := list;
      Without(before, i);
      if prev == null {
        head := curr.next;
      } else {
        prev.next := curr.next;
      }
      list := list[..i] + list[i + 1..];
      forall j | 0 <= j < |list|
        ensures list[j].next == Nth(list, j + 1)
      {
        assert list[j] == before[if j < i then j else j + 1];
      }
    }

    /** `mp_timer_stop`. The stopped timer keeps its own `next`, which `Tick` goes on to follow. */
    method Stop(timer: Timer)
      requires Linked()
      modifies this`head, this`list, known`next
      ensures Linked()
      ensures timer !in old(list) ==> list == old(list)
      ensures forall k :: 0 <= k < |old(list)| && old(list)[k] == timer ==> list == old(list)[..k] + old(list)[k + 1..]
      ensures timer.next == old(timer.next)
    {
      var curr := head;
      var prev: Timer? := null;
      ghost var i := 0;
      while curr != null
        invariant i <= |list| && curr == Nth(list, i)
        invariant prev == if i == 0 then null else list[i - 1]
        invariant timer !in list[..i]
        decreases |list| - i
      {
        if curr == timer {
          Unlink(prev, curr, i);
          return;
        }
        prev := curr;
        curr := curr.next;
        i := i + 1;
      }
    }

    /** A start as the run lemmas see it. */
    method StartAsOp(timer: Timer)
      requires Linked()
      modifies this`head, this`list, this`known, timer`next
      ensures Linked() && known <= old(known) + {timer}
      ensures Views(list) == After(old(Views(list)), StartOp(old(timer.View())))
    {
      ghost var es := Views(list);
      ListedIff(timer);
      Start(timer);
      assert Views(list) == if Listed(es, timer) then es else [timer.View()] + es;
    }

    lemma ListedIff(timer: Timer)
      ensures Listed(Views(list), timer) <==> timer in list
    {
      if i :| 0 <= i < |list| && list[i] == timer {
        assert Views(list)[i].timer == timer;
      }
    }

    /** A stop as the run lemmas see it. */
    method StopAsOp(timer: Timer)
      requires Linked()
      modifies this`head, this`list, known`next
      ensures Linked()
      ensures Views(list) == After(old(Views(list)), StopOp(timer))
    {
      hide Views, Removed, Listed;
      ghost var before := list;
      AfterStop(Views(list), timer);
      ListedIff(timer);
      NoneTwice();
      Stop(timer);
      if timer in before {
        ghost var k :| 0 <= k < |before| && before[k] == timer;
        ViewsWithout(before, k);
        RemovedView(before, k);
      } else {
        RemovedNone(old(Views(list)), timer);
      }
    }

    lemma NoneTwice()
      requires Linked()
      ensures Distinct(Views(list))
    {}

    /** Any operation of a run, a start with the timer as it is: the list and the callbacks called are
        those of the run lemmas. */
    method Perform(op: Op)
      requires Linked() && (op.StartOp? ==> op.entry == op.entry.timer.View())
      modifies this, known`next, known`expiry
      modifies if op.StartOp? then {op.entry.timer} else {}
      ensures Linked() && Views(list) == After(old(Views(list)), op)
      ensures log == old(log) + FiredBy(old(Views(list)), op)
    {
      hide Linked, Views, Left, Fired, Removed;
      match op {
        case StartOp(e) => StartAsOp(e.timer);
        case StopOp(t) => StopAsOp(t);
        case TickOp(now) => Tick(now);
      }
    }

    /** Re-arms the timer at index `k`. */
    method Rearm(curr: Timer, now: nat, ghost k: nat)
      requires Linked() && k < |list| && list[k] == curr
      modifies curr`expiry
      ensures Linked()
      ensures Views(list) == old(Views(list))[k := old(curr.View()).(expiry := now + curr.period)]
      ensures curr.next == Nth(list, k + 1)
    {
      curr.expiry := now + curr.period;
    }

    /** Stops the timer at index `k`. */
    method Drop(curr: Timer, ghost k: nat)
      requires Linked() && k < |list| && list[k] == curr
      modifies this`head, this`list, known`next
      ensures Linked() && list == old(list)[..k] + old(list)[k + 1..]
      ensures Views(list) == old(Views(list))[..k] + old(Views(list))[k + 1..]
      ensures curr.next == Nth(list, k)
    {
      assert curr.next == Nth(list, k + 1);
      hide Linked;
      Stop(curr);
    }

    /** The body of the tick's loop, at the timer that stands at index `k`: it leaves the list in
        front and behind as it was, and `curr->next` leads on although `curr` may be gone. */
    method Visit(curr: Timer, now: nat, ghost k: nat)
      requires Linked() && k < |list| && list[k] == curr
      modifies this`head, this`list, this`log, known`next, known`expiry
      ensures Linked()
      ensures Views(list) == Put(old(Views(list)), k, Left([old(curr.View())], now))
      ensures log == old(log) + Fired([old(curr.View())], now)
      ensures curr.next == Nth(list, k + |Left([old(curr.View())], now)|)
    {
      hide *;
      Links(k);
      PutLeft(Views(list), k, now);
      Fields(curr);
      if now >= curr.expiry {
        if curr.callback {
          log := log + [curr];
        }
        if curr.periodic {
          Rearm(curr, now, k);
        } else {
          Drop(curr, k);
        }
      }
    }

    /** `mp_timer_tick` at time `now`, with callbacks that leave the list alone. */
    method Tick(now: nat)
      requires Linked()
      modifies this`head, this`list, this`log, known`next, known`expiry
      ensures Linked()
      ensures Views(list) == Left(old(Views(list)), now)
      ensures log == old(log) + Fired(old(Views(list)), now)
    {
      ghost var es := Views(list);
      hide *;
      HalfwayStart(es, now);
      Links(0);
      ghost var i: nat, k: nat := 0, 0;
      var curr := head;
      while curr != null
        invariant Linked() && curr == Nth(list, k)
        invariant i <= |es| && Halfway(Views(list), es, i, k, now)
        invariant log == old(log) + Fired(es[..i], now)
        decreases |es| - i
      {
        NthIs(list, k);
        HalfwayOn(Views(list), es, i, k, now);
        ghost var left := |Left([curr.View()], now)|;
        Visit(curr, now, k);
        i, k := i + 1, k + left;
        curr := curr.next;
      }
      NthIs(list, k);
      HalfwayDone(Views(list), es, i, k, now);
    }
  }

  lemma Fields(t: Timer)
    ensures t.View() == Entry(t, t.expiry, t.period, t.periodic, t.callback)
  {}

  lemma NthIs(ts: seq<Timer>, i: nat)
    ensures Nth(ts, i) == null <==> i >= |ts|
    ensures i < |ts| ==> Nth(ts, i) == ts[i]
  {}

  lemma HalfwayStart(es: seq<Entry>, now: nat)
    ensures Halfway(es, es, 0, 0, now) && es[..0] == [] && Fired([], now) == []
  {}

  lemma HalfwayDone(cur: seq<Entry>, es: seq<Entry>, i: nat, k: nat, now: nat)
    requires Halfway(cur, es, i, k, now) && k >= |cur|
    ensures cur == Left(es, now) && es[..i] == es
  {
    assert cur[k..] == [];
    assert es[..i] == es;
  }

  lemma PutLeft(es: seq<Entry>, k: nat, now: nat)
    requires k < |es|
    ensures var e, l := es[k], Left([es[k]], now);
            && Fired([e], now) == (if now >= e.expiry && e.callback then [e.timer] else [])
            && |l| == (if now >= e.expiry && !e.periodic then 0 else 1)
            && Put(es, k, l) == if now < e.expiry then es
                                else if e.periodic then es[k := e.(expiry := now + e.period)]
                                else es[..k] + es[k + 1..]
  {
    hide Left, Fired, Put;
    var e := es[k];
    LeftOne(e, now);
    PutOne(es, k, e);
    PutOne(es, k, e.(expiry := now + e.period));
  }

  lemma PutOne(es: seq<Entry>, k: nat, e: Entry)
    requires k < |es|
    ensures Put(es, k, [e]) == es[k := e] && es[k := es[k]] == es
    ensures Put(es, k, []) == es[..k] + es[k + 1..]
  {}

  /** `es` with the entry at `k` replaced by none or one. */
  function Put(es: seq<Entry>, k: nat, e: seq<Entry>): seq<Entry>
    requires k < |es|
  {
    es[..k] + e + es[k + 1..]
  }

  /** The first `i` of the old entries have been visited, and what is left of them are the first
      `k` of the present ones. */
  ghost predicate Halfway(cur: seq<Entry>, es: seq<Entry>, i: nat, k: nat, now: nat) {
    && i <= |es| && k <= |cur|
    && cur[..k] == Left(es[..i], now)
    && cur[k..] == es[i..]
  }

  lemma HalfwayOn(cur: seq<Entry>, es: seq<Entry>, i: nat, k: nat, now: nat)
    requires Halfway(cur, es, i, k, now) && k < |cur|
    ensures i < |es| && cur[k] == es[i]
    ensures Fired(es[..i + 1], now) == Fired(es[..i], now) + Fired([cur[k]], now)
    ensures Halfway(Put(cur, k, Left([cur[k]], now)), es, i + 1, k + |Left([cur[k]], now)|, now)
  {
    hide Left, Fired;
    assert cur[k] == cur[k..][0] == es[i..][0];
    assert es[..i + 1] == es[..i] + [es[i]];
    LeftAppend(es[..i], es[i], now);
    assert cur[k + 1..] == cur[k..][1..] == es[i..][1..] == es[i + 1..];
  }

  // ---------------------------------------------------------------- what ticks mean

  /** A tick calls the callback of each listed, due timer once, and no other. */
  lemma {:induction false} FiresEachDueOnce(es: seq<Entry>, now: nat, t: Timer)
    requires Distinct(es)
    ensures multiset(Fired(es, now))[t]
         == if exists i :: 0 <= i < |es| && es[i].timer == t && now >= es[i].expiry && es[i].callback then 1 else 0
  {
    if es != [] {
      FiresEachDueOnce(es[1..], now, t);
      assert forall i :: 0 <= i < |es[1..]| ==> es[1..][i] == es[i + 1];
      assert Due(es[0], now) && es[0].callback ==> Fired(es, now) == [es[0].timer] + Fired(es[1..], now);
      if i :| 1 <= i < |es| && es[i].timer == t && now >= es[i].expiry && es[i].callback {
        assert es[1..][i - 1] == es[i];
      }
    }
  }

  /** What a tick makes of one entry. */
  ghost predicate Becomes(e: Entry, now: nat, after: Entry) {
    if now < e.expiry then after == e else e.periodic && after == e.(expiry := now + e.period)
  }

  /** Listed after a tick are the entries not due, as they were, and the due periodic ones re-armed
      at `now + period`, and nothing else. */
  lemma {:induction false} LeftMeans(es: seq<Entry>, now: nat, e: Entry)
    ensures e in Left(es, now) <==> exists i :: 0 <= i < |es| && Becomes(es[i], now, e)
  {
    if es != [] {
      LeftMeans(es[1..], now, e);
      assert forall i :: 0 <= i < |es[1..]| ==> es[1..][i] == es[i + 1];
      if i :| 0 <= i < |es| && Becomes(es[i], now, e) {
        assert i > 0 ==> es[1..][i - 1] == es[i];
      }
    }
  }

  lemma {:induction false} LeftStaysDistinct(es: seq<Entry>, now: nat)
    requires Distinct(es)
    ensures Distinct(Left(es, now))
  {
    if es != [] {
      LeftStaysDistinct(es[1..], now);
      var rest := Left(es[1..], now);
      forall j | 0 <= j < |rest|
        ensures rest[j].timer != es[0].timer
      {
        LeftMeans(es[1..], now, rest[j]);
        var i :| 0 <= i < |es[1..]| && Becomes(es[1..][i], now, rest[j]);
        assert es[1..][i] == es[i + 1];
      }
    }
  }

  // ---------------------------------------------------------------- runs

  function FiredIn(es: seq<Entry>, ops: seq<Op>): seq<Timer>
    decreases |ops|
  {
    if ops == [] then [] else FiredBy(es, ops[0]) + FiredIn(After(es, ops[0]), ops[1..])
  }

  function Starts(ops: seq<Op>, t: Timer): nat {
    if ops == [] then 0
    else (if ops[0].StartOp? && ops[0].entry.timer == t then 1 else 0) + Starts(ops[1..], t)
  }

  /** Every listed entry of `t` is a one-shot. */
  ghost predicate OneShot(es: seq<Entry>, t: Timer) {
    forall i :: 0 <= i < |es| && es[i].timer == t ==> !es[i].periodic
  }

  lemma {:induction false} RemovedIsPart(es: seq<Entry>, t: Timer)
    requires Distinct(es)
    ensures Distinct(Removed(es, t))
    ensures forall i :: 0 <= i < |Removed(es, t)| ==> Removed(es, t)[i] in es && Removed(es, t)[i].timer != t
  {
    if es != [] {
      RemovedIsPart(es[1..], t);
      assert es == [es[0]] + es[1..];
      assert forall i :: 0 <= i < |es[1..]| ==> es[1..][i] == es[i + 1];
    }
  }

  /** No operation lists a timer twice or makes a one-shot periodic; only a start lists a timer. */
  lemma AfterKeeps(es: seq<Entry>, op: Op, t: Timer)
    requires Distinct(es) && OneShot(es, t)
    requires op.StartOp? && op.entry.timer == t ==> !op.entry.periodic
    ensures Distinct(After(es, op)) && OneShot(After(es, op), t)
    ensures Listed(After(es, op), t) ==> Listed(es, t) || (op.StartOp? && op.entry.timer == t)
  {
    var r := After(es, op);
    match op
    case StartOp(e) =>
    case StopOp(u) =>
      RemovedIsPart(es, u);
    case TickOp(now) =>
      LeftStaysDistinct(es, now);
      forall i | 0 <= i < |r| && r[i].timer == t
        ensures !r[i].periodic && Listed(es, t)
      {
        LeftMeans(es, now, r[i]);
      }
  }

  /** A one-shot that a tick fires is off the list. */
  lemma FiringUnlists(es: seq<Entry>, now: nat, t: Timer)
    requires Distinct(es) && OneShot(es, t) && multiset(Fired(es, now))[t] > 0
    ensures multiset(Fired(es, now))[t] == 1 && Listed(es, t) && !Listed(Left(es, now), t)
  {
    FiresEachDueOnce(es, now, t);
    var k :| 0 <= k < |es| && es[k].timer == t && now >= es[k].expiry && es[k].callback;
    forall j | 0 <= j < |Left(es, now)|
      ensures Left(es, now)[j].timer != t
    {
      LeftMeans(es, now, Left(es, now)[j]);
    }
  }

  lemma {:induction false} FiresWithinStarts(es: seq<Entry>, ops: seq<Op>, t: Timer)
    requires Distinct(es) && OneShot(es, t)
    requires forall op :: op in ops && op.StartOp? && op.entry.timer == t ==> !op.entry.periodic
    ensures multiset(FiredIn(es, ops))[t] <= Starts(ops, t) + (if Listed(es, t) then 1 else 0)
    decreases |ops|
  {
    hide Distinct, OneShot, Listed, After, Fired;
    if ops != [] {
      AfterKeeps(es, ops[0], t);
      FiresWithinStarts(After(es, ops[0]), ops[1..], t);
      if ops[0].TickOp? {
        AfterTick(es, ops[0].now);
        if multiset(Fired(es, ops[0].now))[t] > 0 {
          FiringUnlists(es, ops[0].now, t);
        }
      }
    }
  }

  lemma AfterTick(es: seq<Entry>, now: nat)
    ensures After(es, TickOp(now)) == Left(es, now)
  {}

  /** In every run of starts, stops and ticks from the empty list, a timer that is always started
      as a one-shot fires at most once per start. */
  lemma OneShotFiresOncePerStart(ops: seq<Op>, t: Timer)
    requires forall op :: op in ops && op.StartOp? && op.entry.timer == t ==> !op.entry.periodic
    ensures multiset(FiredIn([], ops))[t] <= Starts(ops, t)
  {
    FiresWithinStarts([], ops, t);
  }

  /** Some tick of the run comes at or after `expiry`. */
  predicate Reaches(ops: seq<Op>, expiry: nat) {
    exists i :: 0 <= i < |ops| && ops[i].TickOp? && ops[i].now >= expiry
  }

  /** No call of the run starts or stops this timer. */
  predicate Untouched(ops: seq<Op>, t: Timer) {
    forall i :: 0 <= i < |ops| ==> ops[i] != StopOp(t) && !(ops[i].StartOp? && ops[i].entry.timer == t)
  }

  lemma UnlistedIsSilent(es: seq<Entry>, ops: seq<Op>, t: Timer)
    requires Distinct(es) && !Listed(es, t) && Untouched(ops, t)
    ensures multiset(FiredIn(es, ops))[t] == 0
  {
    hide After, Fired;
    FiresWithinStarts(es, ops, t);
    NoStarts(ops, t);
  }

  lemma {:induction false} NoStarts(ops: seq<Op>, t: Timer)
    requires Untouched(ops, t)
    ensures Starts(ops, t) == 0
  {
    if ops != [] {
      assert forall i :: 0 <= i < |ops[1..]| ==> ops[1..][i] == ops[i + 1];
      NoStarts(ops[1..], t);
    }
  }

  /** What an operation on other timers, or a tick that comes too early, does to a listed entry. */
  lemma EntryStays(es: seq<Entry>, op: Op, e: Entry)
    requires Distinct(es) && e in es && Untouched([op], e.timer) && (op.TickOp? ==> op.now < e.expiry)
    ensures e in After(es, op) && multiset(FiredBy(es, op))[e.timer] == 0
  {
    assert op == [op][0];
    match op
    case StartOp(s) =>
    case StopOp(u) => RemovedKeeps(es, u, e);
    case TickOp(now) =>
      var k :| 0 <= k < |es| && es[k] == e;
      assert Becomes(es[k], now, e);
      LeftMeans(es, now, e);
      FiresEachDueOnce(es, now, e.timer);
  }

  lemma {:induction false} RemovedKeeps(es: seq<Entry>, u: Timer, e: Entry)
    requires e in es && e.timer != u
    ensures e in Removed(es, u)
  {
    if es[0] != e {
      assert es == [es[0]] + es[1..];
      RemovedKeeps(es[1..], u, e);
    }
  }

  /** A listed one-shot with a callback, left alone, fires in a run exactly if a tick comes at or after
      its expiry, and then once. */
  lemma {:induction false} OneShotFiresIff(es: seq<Entry>, ops: seq<Op>, e: Entry)
    requires Distinct(es) && e in es && !e.periodic && e.callback && Untouched(ops, e.timer)
    ensures multiset(FiredIn(es, ops))[e.timer] == if Reaches(ops, e.expiry) then 1 else 0
    decreases |ops|
  {
    hide Distinct, After, FiredBy, Untouched;
    if ops != [] {
      UntouchedSplits(ops, e.timer);
      OnlyEntry(es, e);
      AfterKeeps(es, ops[0], e.timer) by { NotStarted(ops, e.timer); }
      assert Reaches(ops, e.expiry) <==> Reaches([ops[0]], e.expiry) || Reaches(ops[1..], e.expiry) by {
        assert [ops[0]] + ops[1..] == ops;
        ReachesConcat([ops[0]], ops[1..], e.expiry);
      }
      if ops[0].TickOp? && ops[0].now >= e.expiry {
        assert [ops[0]][0] == ops[0];
        TickFires(es, ops[0].now, e);
        UnlistedIsSilent(After(es, ops[0]), ops[1..], e.timer);
      } else {
        EntryStays(es, ops[0], e);
        OneShotFiresIff(After(es, ops[0]), ops[1..], e);
      }
    }
  }

  lemma ReachesConcat(a: seq<Op>, b: seq<Op>, expiry: nat)
    ensures Reaches(a + b, expiry) <==> Reaches(a, expiry) || Reaches(b, expiry)
  {
    var s := a + b;
    assert forall i :: 0 <= i < |a| ==> s[i] == a[i];
    assert forall i :: 0 <= i < |b| ==> s[|a| + i] == b[i];
  }

  lemma UntouchedSplits(ops: seq<Op>, t: Timer)
    requires ops != [] && Untouched(ops, t)
    ensures Untouched([ops[0]], t) && Untouched(ops[1..], t)
  {}

  lemma NotStarted(ops: seq<Op>, t: Timer)
    requires ops != [] && Untouched(ops, t)
    ensures !(ops[0].StartOp? && ops[0].entry.timer == t)
  {}

  lemma OnlyEntry(es: seq<Entry>, e: Entry)
    requires Distinct(es) && e in es && !e.periodic
    ensures OneShot(es, e.timer)
  {}

  lemma TickFires(es: seq<Entry>, now: nat, e: Entry)
    requires Distinct(es) && e in es && !e.periodic && e.callback && now >= e.expiry
    ensures multiset(FiredBy(es, TickOp(now)))[e.timer] == 1
    ensures !Listed(After(es, TickOp(now)), e.timer)
  {
    OnlyEntry(es, e);
    var k :| 0 <= k < |es| && es[k] == e;
    FiresEachDueOnce(es, now, e.timer);
    FiringUnlists(es, now, e.timer);
  }
}

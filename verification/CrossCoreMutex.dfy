/** The recursive mutex shared by two cores and the spinlock under it
    (platform/nrf54l15/shared/shared_memory.c), as interleaved steps.

    Hardware assumption: a critical region (interrupts off, bus locked) is one step. Everything
    the mutex code does between acquiring and releasing the spinlock is one step per statement,
    so that it is the spinlock that has to keep other threads out. `waiting_cores` is written by
    the code but read by nothing except its own updates. */
module CrossCoreMutex {

  const CORE_COUNT: nat := 2
  const WORD: nat := 0x1_0000_0000

  /** A thread is known by its core and the thread id its own kernel gave it. */
  datatype Thread = Thread(core: nat, id: nat)

  /** Where a thread stands inside `lock` or `unlock`. The flag of the taking steps says that the
      mutex was waited for; the flag of the unlocking steps that the caller held a lock to give up. */
  datatype Pc =
    | Idle
    // lock: the first attempt
    | FirstAcquire | CheckCore | CheckThread | Recurse | CheckFree
    // lock: waiting
    | SetWaiting | ReleaseToWait | WaitAcquire | WaitCheck | TimeoutClear | TimeoutRelease
    // lock: taking a free mutex, and returning true
    | TakeCore(waited: bool) | TakeThread(waited: bool) | TakeCount(waited: bool) | ClearWaiting | ReleaseTrue
    // unlock
    | UnlockAcquire(paid: bool) | UnlockCore(paid: bool) | UnlockThread(paid: bool) | UnlockCount(paid: bool)
    | Decrement(paid: bool) | ClearCore(paid: bool) | ClearThread | ClearCount | UnlockRelease

  /** `timed` says that the current lock call has a timeout. `held` counts the thread's lock calls
      that returned true, less its unlock calls since: what its own program believes it holds. */
  datatype Local = Local(pc: Pc, timed: bool, held: nat)

  /** The shared words: the spinlock's, then the mutex's. */
  datatype Mem = Mem(
    locked: bool, lockCore: nat,
    ownerCore: nat, ownerThread: nat, count: nat, waiting: set<nat>)
  {
    /** `mp_hal_nrf54l15_spinlock_release`: only for the owner's core, and only if locked. */
    function Released(t: Thread): Mem {
      if lockCore == t.core && locked then this.(locked := false, lockCore := CORE_COUNT) else this
    }

    function Acquired(t: Thread): Mem {
      this.(locked := true, lockCore := t.core)
    }
  }

  datatype State = State(mem: Mem, threads: map<Thread, Local>)

  predicate Init(s: State) {
    && s.mem == Mem(false, CORE_COUNT, CORE_COUNT, 0, 0, {})
    && forall t :: t in s.threads ==> t.core < CORE_COUNT && s.threads[t] == Local(Idle, false, 0)
  }

  /** What thread `t` may do in one step: from its own place and the shared words to the next. */
  predicate Move(t: Thread, m: Mem, l: Local, m': Mem, l': Local) {
    match l.pc
    case Idle =>
      && m' == m
      && (l' == Local(FirstAcquire, false, l.held) || l' == Local(FirstAcquire, true, l.held)
          || l' == Local(UnlockAcquire(l.held > 0), false, if l.held > 0 then l.held - 1 else 0))
    case FirstAcquire =>
      if !m.locked then m' == m.Acquired(t) && l' == l.(pc := CheckCore)
      else m' == m && (l' == l || (l.timed && l' == l.(pc := Idle, timed := false)))
    case CheckCore => m' == m && l' == l.(pc := if m.ownerCore == t.core then CheckThread else CheckFree)
    case CheckThread => m' == m && l' == l.(pc := if m.ownerThread == t.id then Recurse else CheckFree)
    case Recurse => m' == m.(count := (m.count + 1) % WORD) && l' == l.(pc := ReleaseTrue)
    case CheckFree =>
      m' == m && l' == l.(pc := if m.ownerCore == CORE_COUNT then TakeCore(false) else SetWaiting)
    case TakeCore(waited) => m' == m.(ownerCore := t.core) && l' == l.(pc := TakeThread(waited))
    case TakeThread(waited) => m' == m.(ownerThread := t.id) && l' == l.(pc := TakeCount(waited))
    case TakeCount(waited) => m' == m.(count := 1) && l' == l.(pc := if waited then ClearWaiting else ReleaseTrue)
    case ClearWaiting => m' == m.(waiting := m.waiting - {t.core}) && l' == l.(pc := ReleaseTrue)
    case ReleaseTrue => m' == m.Released(t) && l' == Local(Idle, false, l.held + 1)
    case SetWaiting => m' == m.(waiting := m.waiting + {t.core}) && l' == l.(pc := ReleaseToWait)
    case ReleaseToWait => m' == m.Released(t) && l' == l.(pc := WaitAcquire)
    case WaitAcquire =>
      if !m.locked then m' == m.Acquired(t) && l' == l.(pc := WaitCheck)
      else m' == m && (l' == l || (l.timed && l' == l.(pc := TimeoutClear)))
    case WaitCheck =>
      m' == m && l' == l.(pc := if m.ownerCore == CORE_COUNT then TakeCore(true) else ReleaseToWait)
    case TimeoutClear => m' == m.(waiting := m.waiting - {t.core}) && l' == l.(pc := TimeoutRelease)
    case TimeoutRelease => m' == m.Released(t) && l' == l.(pc := Idle, timed := false)
    case UnlockAcquire(paid) =>
      if !m.locked then m' == m.Acquired(t) && l' == l.(pc := UnlockCore(paid)) else m' == m && l' == l
    case UnlockCore(paid) =>
      m' == m && l' == l.(pc := if m.ownerCore == t.core then UnlockThread(paid) else UnlockRelease)
    case UnlockThread(paid) =>
      m' == m && l' == l.(pc := if m.ownerThread == t.id then UnlockCount(paid) else UnlockRelease)
    case UnlockCount(paid) => m' == m && l' == l.(pc := if m.count > 1 then Decrement(paid) else ClearCore(paid))
    case Decrement(_) => m.count > 0 && m' == m.(count := m.count - 1) && l' == l.(pc := UnlockRelease)
    case ClearCore(_) => m' == m.(ownerCore := CORE_COUNT) && l' == l.(pc := ClearThread)
    case ClearThread => m' == m.(ownerThread := 0) && l' == l.(pc := ClearCount)
    case ClearCount => m' == m.(count := 0) && l' == l.(pc := UnlockRelease)
    case UnlockRelease => m' == m.Released(t) && l' == l.(pc := Idle)
  }

  /** One step of the system: thread `t` moves, the others stand still. */
  predicate Step(s: State, s': State, t: Thread) {
    && t in s.threads && t in s'.threads
    && Move(t, s.mem, s.threads[t], s'.mem, s'.threads[t])
    && s'.threads == s.threads[t := s'.threads[t]]
  }

  // ---------------------------------------------------------------- what callers must respect

  /** A lock call with a timeout comes from the only thread of its core. */
  ghost predicate TimeoutsAlone(s: State) {
    forall t, u :: t in s.threads && u in s.threads && s.threads[t].timed && u.core == t.core ==> u == t
  }

  /** Nobody nests a 2^32nd lock: `recursion_count` is a 32-bit word. */
  ghost predicate NestsWithinWord(s: State) {
    forall t :: t in s.threads && s.threads[t].pc == Recurse ==> s.threads[t].held + 1 < WORD
  }

  /** A run from the initial state, each step by some thread. */
  ghost predicate FreeRun(run: seq<State>, movers: seq<Thread>) {
    && |run| == |movers| + 1
    && Init(run[0])
    && (forall i :: 0 <= i < |movers| ==> Step(run[i], run[i + 1], movers[i]))
    && (forall i :: 0 <= i < |run| ==> NestsWithinWord(run[i]))
  }

  /** The timed-out waiter `t` is about to release a spinlock that another thread of its own core
      is inside. */
  ghost predicate ReleasesAnothers(s: State, t: Thread) {
    && t in s.threads && s.threads[t].pc.TimeoutRelease?
    && exists u :: u in s.threads && Inside(s.threads[u].pc) && u.core == t.core
  }

  /** A run without a step of that kind. */
  ghost predicate Run(run: seq<State>, movers: seq<Thread>) {
    && FreeRun(run, movers)
    && forall i :: 0 <= i < |movers| ==> !ReleasesAnothers(run[i], movers[i])
  }

  // ---------------------------------------------------------------- the invariant

  /** Between a successful acquire of the spinlock and the release that ends it. */
  predicate Inside(pc: Pc) {
    !(pc.Idle? || pc.FirstAcquire? || pc.WaitAcquire? || pc.TimeoutClear? || pc.TimeoutRelease? || pc.UnlockAcquire?)
  }

  /** The owner fields are half written. */
  predicate Taking(pc: Pc) {
    pc.TakeThread? || pc.TakeCount?
  }

  /** The recursion count that stands for this thread's locks: a lock counts from its count
      statement on, before the call has returned; an unlock until its own. */
  function Level(l: Local): nat {
    match l.pc
    case ClearWaiting | ReleaseTrue => l.held + 1
    case UnlockAcquire(paid) => l.held + (if paid then 1 else 0)
    case UnlockCore(paid) => l.held + (if paid then 1 else 0)
    case UnlockThread(paid) => l.held + (if paid then 1 else 0)
    case UnlockCount(paid) => l.held + (if paid then 1 else 0)
    case Decrement(paid) => l.held + (if paid then 1 else 0)
    case ClearCore(paid) => l.held + (if paid then 1 else 0)
    case _ => l.held
  }

  /** What thread `t` may rely on at its program counter. */
  predicate Relies(t: Thread, m: Mem, l: Local) {
    && t.core < CORE_COUNT
    && (l.pc.TimeoutClear? || l.pc.TimeoutRelease? ==> l.timed)
    && (Level(l) > 0 ==> Owns(t, m) && m.count == Level(l))
    && match l.pc
       case CheckThread => m.ownerCore == t.core
       case Recurse => Owns(t, m) && l.held > 0
       case CheckFree => l.held == 0
       case SetWaiting => l.held == 0
       case ReleaseToWait => l.held == 0
       case WaitAcquire => l.held == 0
       case WaitCheck => l.held == 0
       case TakeCore(_) => m.ownerCore == CORE_COUNT && l.held == 0
       case TakeThread(_) => m.ownerCore == t.core && l.held == 0
       case TakeCount(_) => Owns(t, m) && l.held == 0
       case UnlockAcquire(paid) => paid || l.held == 0
       case UnlockCore(paid) => paid || l.held == 0
       case UnlockThread(paid) => (paid || l.held == 0) && m.ownerCore == t.core
       case UnlockCount(paid) => paid
       case Decrement(paid) => paid && l.held > 0
       case ClearCore(paid) => paid && l.held == 0
       case ClearThread => m.ownerCore == CORE_COUNT && l.held == 0
       case ClearCount => m.ownerCore == CORE_COUNT && l.held == 0
       case _ => true
  }

  predicate Owns(t: Thread, m: Mem) {
    m.ownerCore == t.core && m.ownerThread == t.id
  }

  /** The spinlock is locked exactly while some thread is inside, by that thread's core. */
  ghost predicate SpinInv(s: State) {
    && (forall t :: t in s.threads && Inside(s.threads[t].pc) ==> s.mem.locked && s.mem.lockCore == t.core)
    && (forall t, u :: t in s.threads && u in s.threads && Inside(s.threads[t].pc) && Inside(s.threads[u].pc) ==> t == u)
    && (s.mem.locked ==> exists t :: t in s.threads && Inside(s.threads[t].pc))
  }

  /** Owner fields that are wholly written name a thread that has the mutex. */
  ghost predicate OwnerInv(s: State) {
    || s.mem.ownerCore == CORE_COUNT
    || (exists t :: t in s.threads && Taking(s.threads[t].pc))
    || Named(s)
  }

  ghost predicate Named(s: State) {
    var o := Thread(s.mem.ownerCore, s.mem.ownerThread);
    o in s.threads && Level(s.threads[o]) > 0
  }

  /** While one thread writes the owner fields, no thread has the mutex. */
  ghost predicate NobodyWhileTaking(s: State) {
    forall t, u :: t in s.threads && u in s.threads && Taking(s.threads[t].pc) ==> Level(s.threads[u]) == 0
  }

  ghost predicate Inv(s: State) {
    && SpinInv(s)
    && (forall t :: t in s.threads ==> Relies(t, s.mem, s.threads[t]))
    && OwnerInv(s)
    && NobodyWhileTaking(s)
  }

  // ---------------------------------------------------------------- one thread's move

  /** How a move that respects the spinlock treats it. */
  lemma MoveLock(t: Thread, m: Mem, l: Local, m': Mem, l': Local)
    requires Move(t, m, l, m', l')
    ensures !Inside(l.pc) && Inside(l'.pc) ==> !m.locked && m'.locked && m'.lockCore == t.core
    ensures Inside(l.pc) && Inside(l'.pc) ==> m'.locked == m.locked && m'.lockCore == m.lockCore
    ensures Inside(l.pc) && !Inside(l'.pc) && m.locked && m.lockCore == t.core ==> !m'.locked
    ensures !Inside(l.pc) && !Inside(l'.pc) && !l.pc.TimeoutRelease? ==> m'.locked == m.locked && m'.lockCore == m.lockCore
    ensures l.pc.TimeoutRelease? && (!m.locked || m.lockCore != t.core) ==> m'.locked == m.locked && m'.lockCore == m.lockCore
    ensures Taking(l'.pc) ==> Inside(l.pc)
  {}

  lemma MoveTimeout(t: Thread, m: Mem, l: Local, m': Mem, l': Local)
    requires Move(t, m, l, m', l') && l.pc.TimeoutRelease?
    ensures !Inside(l.pc) && !Inside(l'.pc)
    ensures m.locked && m.lockCore == t.core ==> !m'.locked
  {}

  /** The owner fields and the count change only inside; by whom they may change. */
  lemma MoveOwner(t: Thread, m: Mem, l: Local, m': Mem, l': Local)
    requires Move(t, m, l, m', l') && Relies(t, m, l)
    ensures !Inside(l.pc) ==> m'.ownerCore == m.ownerCore && m'.ownerThread == m.ownerThread && m'.count == m.count
    ensures (m'.ownerCore == m.ownerCore && m'.ownerThread == m.ownerThread && m'.count == m.count)
         || m.ownerCore == CORE_COUNT || Owns(t, m) || Taking(l.pc)
    ensures (m'.ownerCore == m.ownerCore && m'.ownerThread == m.ownerThread)
         || m'.ownerCore == CORE_COUNT || Taking(l'.pc)
    ensures Taking(l'.pc) && !Taking(l.pc) ==> m.ownerCore == CORE_COUNT
  {}

  predicate Entering(pc: Pc) {
    pc.Idle? || pc.FirstAcquire? || pc.CheckCore? || pc.CheckThread? || pc.Recurse? || pc.CheckFree?
  }

  predicate Obtaining(pc: Pc) {
    pc.TakeCore? || pc.TakeThread? || pc.TakeCount? || pc.ClearWaiting? || pc.ReleaseTrue?
  }

  predicate AtWait(pc: Pc) {
    pc.SetWaiting? || pc.ReleaseToWait? || pc.WaitAcquire? || pc.WaitCheck? || pc.TimeoutClear? || pc.TimeoutRelease?
  }

  lemma MoveSelfEntering(t: Thread, m: Mem, l: Local, m': Mem, l': Local)
    requires Entering(l.pc)
    requires Move(t, m, l, m', l') && Relies(t, m, l)
    requires l.pc == Recurse ==> l.held + 1 < WORD
    requires Inside(l.pc) && !Taking(l.pc) && Owns(t, m) ==> Level(l) > 0
    ensures Relies(t, m', l')
  {}

  lemma MoveSelfObtaining(t: Thread, m: Mem, l: Local, m': Mem, l': Local)
    requires Obtaining(l.pc)
    requires Move(t, m, l, m', l') && Relies(t, m, l)
    requires l.pc == Recurse ==> l.held + 1 < WORD
    requires Inside(l.pc) && !Taking(l.pc) && Owns(t, m) ==> Level(l) > 0
    ensures Relies(t, m', l')
  {}

  lemma MoveSelfAtWait(t: Thread, m: Mem, l: Local, m': Mem, l': Local)
    requires AtWait(l.pc)
    requires Move(t, m, l, m', l') && Relies(t, m, l)
    requires l.pc == Recurse ==> l.held + 1 < WORD
    requires Inside(l.pc) && !Taking(l.pc) && Owns(t, m) ==> Level(l) > 0
    ensures Relies(t, m', l')
  {}

  lemma MoveSelfUnlocking(t: Thread, m: Mem, l: Local, m': Mem, l': Local)
    requires !Entering(l.pc) && !Obtaining(l.pc) && !AtWait(l.pc)
    requires Move(t, m, l, m', l') && Relies(t, m, l)
    requires l.pc == Recurse ==> l.held + 1 < WORD
    requires Inside(l.pc) && !Taking(l.pc) && Owns(t, m) ==> Level(l) > 0
    ensures Relies(t, m', l')
  {}

  /** The moving thread finds at its next place what it relies on there. */
  lemma MoveSelf(t: Thread, m: Mem, l: Local, m': Mem, l': Local)
    requires Move(t, m, l, m', l') && Relies(t, m, l)
    requires l.pc == Recurse ==> l.held + 1 < WORD
    requires Inside(l.pc) && !Taking(l.pc) && Owns(t, m) ==> Level(l) > 0
    ensures Relies(t, m', l')
  {
    hide Move, Relies, Level;
    if Entering(l.pc) {
      MoveSelfEntering(t, m, l, m', l');
    } else if Obtaining(l.pc) {
      MoveSelfObtaining(t, m, l, m', l');
    } else if AtWait(l.pc) {
      MoveSelfAtWait(t, m, l, m', l');
    } else {
      MoveSelfUnlocking(t, m, l, m', l');
    }
  }

  /** How a thread's level moves: never to nothing while the owner fields still name someone, and
      up from nothing only by taking. */
  lemma MoveLevelDown(t: Thread, m: Mem, l: Local, m': Mem, l': Local)
    requires Move(t, m, l, m', l') && Relies(t, m, l) && Level(l) > 0
    ensures m'.ownerCore != CORE_COUNT ==> Level(l') > 0
  {}

  lemma MoveLevelUp(t: Thread, m: Mem, l: Local, m': Mem, l': Local)
    requires Move(t, m, l, m', l') && Relies(t, m, l) && Level(l') > 0
    ensures Level(l) > 0 || Taking(l.pc)
  {}

  lemma FreeMeansNobody(t: Thread, m: Mem, l: Local)
    requires Relies(t, m, l) && m.ownerCore == CORE_COUNT
    ensures Level(l) == 0
  {}

  lemma MoveTaking(t: Thread, m: Mem, l: Local, m': Mem, l': Local)
    requires Move(t, m, l, m', l') && Relies(t, m, l) && (Taking(l.pc) || Taking(l'.pc))
    ensures Taking(l.pc) && !Taking(l'.pc) ==> Owns(t, m') && Level(l') > 0
    ensures Taking(l'.pc) ==> Level(l') == 0
  {}

  /** A thread that stands still keeps what it relies on: the fields named in `Relies` at places
      inside the spinlock cannot move, and outside only an owner relies on them. */
  lemma MoveOther(t: Thread, m: Mem, l: Local, m': Mem, l': Local, u: Thread, k: Local)
    requires Move(t, m, l, m', l') && Relies(t, m, l) && Relies(u, m, k)
    requires u != t && !(Inside(l.pc) && Inside(k.pc))
    requires Taking(l.pc) ==> Level(k) == 0
    ensures Relies(u, m', k)
  {
    hide Move;
    MoveOwner(t, m, l, m', l');
  }

  // ---------------------------------------------------------------- every step keeps the invariant

  lemma InitInv(s: State)
    requires Init(s)
    ensures Inv(s)
  {}

  /** The one step that breaks the spinlock is a timed-out waiter's release on a shared core; every
      other step keeps it locked around the thread inside. */
  lemma SpinStepIff(s: State, s': State, t: Thread)
    requires SpinInv(s) && Step(s, s', t)
    ensures SpinInv(s') <==> !ReleasesAnothers(s, t)
  {
    hide Move, Level, Inside;
    var l, l' := s.threads[t], s'.threads[t];
    MoveLock(t, s.mem, l, s'.mem, l');
    if l.pc.TimeoutRelease? {
      MoveTimeout(t, s.mem, l, s'.mem, l');
      if u :| u in s.threads && Inside(s.threads[u].pc) && u.core == t.core {
        assert Inside(s'.threads[u].pc);
      }
    }
    if s.mem.locked {
      var h :| h in s.threads && Inside(s.threads[h].pc);
      assert h != t ==> s'.threads[h] == s.threads[h];
    }
  }

  lemma SpinStep(s: State, s': State, t: Thread)
    requires Inv(s) && Step(s, s', t) && !ReleasesAnothers(s, t)
    ensures SpinInv(s')
  {
    SpinStepIff(s, s', t);
  }

  /** Timeouts that come from the only threads of their cores do no harm. */
  lemma AloneIsHarmless(s: State, t: Thread)
    requires Inv(s) && TimeoutsAlone(s)
    ensures !ReleasesAnothers(s, t)
  {
    hide Move, Level;
    if t in s.threads {
      assert Relies(t, s.mem, s.threads[t]);
    }
  }

  lemma ReliesStep(s: State, s': State, t: Thread)
    requires Inv(s) && Step(s, s', t) && NestsWithinWord(s)
    ensures forall u :: u in s'.threads ==> Relies(u, s'.mem, s'.threads[u])
  {
    hide Move, Relies, Level;
    var l, l' := s.threads[t], s'.threads[t];
    assert Taking(l.pc) ==> Inside(l.pc);
    forall u | u in s'.threads
      ensures Relies(u, s'.mem, s'.threads[u])
    {
      if u == t {
        assert Inside(l.pc) && !Taking(l.pc) && Owns(t, s.mem) ==> Level(l) > 0 by { OwnerKnown(s, t); }
        MoveSelf(t, s.mem, l, s'.mem, l');
      } else {
        MoveOther(t, s.mem, l, s'.mem, l', u, s.threads[u]);
      }
    }
  }

  lemma OwnerKnown(s: State, t: Thread)
    requires Inv(s) && t in s.threads
    ensures Inside(s.threads[t].pc) && !Taking(s.threads[t].pc) && Owns(t, s.mem) ==> Level(s.threads[t]) > 0
  {
    assert Relies(t, s.mem, s.threads[t]);
    assert Thread(t.core, t.id) == t;
  }

  lemma OwnerStep(s: State, s': State, t: Thread)
    requires Inv(s) && Step(s, s', t)
    ensures OwnerInv(s')
  {
    hide Move, Relies, Level, SpinInv, NobodyWhileTaking;
    var l, l' := s.threads[t], s'.threads[t];
    OwnerKnown(s, t);
    MoveOwner(t, s.mem, l, s'.mem, l');
    if Level(l) > 0 {
      MoveLevelDown(t, s.mem, l, s'.mem, l');
    }
    if Taking(l.pc) && !Taking(l'.pc) {
      MoveTaking(t, s.mem, l, s'.mem, l');
      assert Thread(s'.mem.ownerCore, s'.mem.ownerThread) == t;
    } else if exists u :: u in s.threads && u != t && Taking(s.threads[u].pc) {
      var u :| u in s.threads && u != t && Taking(s.threads[u].pc);
      assert s'.threads[u] == s.threads[u];
    }
  }

  lemma NobodyStep(s: State, s': State, t: Thread)
    requires Inv(s) && Step(s, s', t)
    ensures NobodyWhileTaking(s')
  {
    hide Move, Level, Relies, OwnerInv;
    var l, l' := s.threads[t], s'.threads[t];
    forall v, u | v in s'.threads && u in s'.threads && Taking(s'.threads[v].pc)
      ensures Level(s'.threads[u]) == 0
    {
      if Taking(l'.pc) {
        MoveTaking(t, s.mem, l, s'.mem, l');
        MoveOwner(t, s.mem, l, s'.mem, l');
        if !Taking(l.pc) {
          FreeMeansNobody(u, s.mem, s.threads[u]);
        }
      } else {
        assert v != t && s'.threads[v] == s.threads[v];
        if Level(l') > 0 {
          MoveLevelUp(t, s.mem, l, s'.mem, l');
        }
      }
    }
  }

  lemma StepInv(s: State, s': State, t: Thread)
    requires Inv(s) && Step(s, s', t) && !ReleasesAnothers(s, t) && NestsWithinWord(s)
    ensures Inv(s')
  {
    hide Step, Move, Relies, Level, SpinInv, OwnerInv, NobodyWhileTaking;
    SpinStep(s, s', t);
    ReliesStep(s, s', t);
    OwnerStep(s, s', t);
    NobodyStep(s, s', t);
  }

  lemma {:induction false} RunInv(run: seq<State>, movers: seq<Thread>, i: nat)
    requires Run(run, movers) && i < |run|
    ensures Inv(run[i])
  {
    hide Inv, Step, Init, ReleasesAnothers, NestsWithinWord;
    if i == 0 {
      InitInv(run[0]);
    } else {
      RunInv(run, movers, i - 1);
      StepInv(run[i - 1], run[i], movers[i - 1]);
    }
  }

  /** A run whose timeouts all come from the only threads of their cores is such a run. */
  lemma {:induction false} AloneRun(run: seq<State>, movers: seq<Thread>)
    requires FreeRun(run, movers) && forall i :: 0 <= i < |run| ==> TimeoutsAlone(run[i])
    ensures Run(run, movers)
  {
    forall i | 0 <= i < |movers|
      ensures !ReleasesAnothers(run[i], movers[i])
    {
      AlonePrefix(run, movers, i);
      AloneIsHarmless(run[i], movers[i]);
    }
  }

  lemma {:induction false} AlonePrefix(run: seq<State>, movers: seq<Thread>, i: nat)
    requires FreeRun(run, movers) && i < |run| && forall k :: 0 <= k < |run| ==> TimeoutsAlone(run[k])
    ensures Inv(run[i])
    decreases i
  {
    hide Inv, Step, Init, ReleasesAnothers, NestsWithinWord, TimeoutsAlone;
    if i == 0 {
      InitInv(run[0]);
    } else {
      AlonePrefix(run, movers, i - 1);
      AloneIsHarmless(run[i - 1], movers[i - 1]);
      StepInv(run[i - 1], run[i], movers[i - 1]);
    }
  }

  // ---------------------------------------------------------------- main results

  /** In every state of every run, two threads that hold the mutex are one thread. */
  lemma MutualExclusion(run: seq<State>, movers: seq<Thread>, i: nat, t: Thread, u: Thread)
    requires Run(run, movers) && i < |run|
    requires t in run[i].threads && u in run[i].threads
    requires run[i].threads[t].held > 0 && run[i].threads[u].held > 0
    ensures t == u
  {
    hide Run;
    RunInv(run, movers, i);
    assert Relies(t, run[i].mem, run[i].threads[t]);
    assert Relies(u, run[i].mem, run[i].threads[u]);
  }

  /** In every state a thread that holds the mutex and is not inside a call is its owner, and
      `recursion_count` is the number of its locks that are not yet unlocked. */
  lemma HolderOwns(run: seq<State>, movers: seq<Thread>, i: nat, t: Thread)
    requires Run(run, movers) && i < |run|
    requires t in run[i].threads && run[i].threads[t].pc.Idle? && run[i].threads[t].held > 0
    ensures run[i].mem.ownerCore == t.core && run[i].mem.ownerThread == t.id
    ensures run[i].mem.count == run[i].threads[t].held
  {
    hide Run;
    RunInv(run, movers, i);
    assert Relies(t, run[i].mem, run[i].threads[t]);
  }

  /** While the spinlock is free the owner is the holder. */
  lemma OwnerIsHolder(run: seq<State>, movers: seq<Thread>, i: nat, t: Thread)
    requires Run(run, movers) && i < |run|
    requires t in run[i].threads && run[i].threads[t].pc.Idle?
    requires !run[i].mem.locked
    ensures run[i].threads[t].held > 0 <==> run[i].mem.ownerCore == t.core && run[i].mem.ownerThread == t.id
  {
    hide Run;
    RunInv(run, movers, i);
    assert Relies(t, run[i].mem, run[i].threads[t]);
  }

  /** A step that changes an owner field or the count is taken inside the spinlock, locked by the
      stepping thread's core, with no other thread inside. */
  lemma OwnerFieldsGuarded(run: seq<State>, movers: seq<Thread>, i: nat)
    requires Run(run, movers) && i < |movers|
    requires var a, b := run[i].mem, run[i + 1].mem;
             a.ownerCore != b.ownerCore || a.ownerThread != b.ownerThread || a.count != b.count
    ensures var a, t := run[i], movers[i];
            && t in a.threads && Inside(a.threads[t].pc)
            && a.mem.locked && a.mem.lockCore == t.core
            && forall u :: u in a.threads && Inside(a.threads[u].pc) ==> u == t
  {
    RunInv(run, movers, i);
    var a, b, t := run[i], run[i + 1], movers[i];
    assert Step(a, b, t);
    assert Relies(t, a.mem, a.threads[t]);
    MoveOwner(t, a.mem, a.threads[t], b.mem, b.threads[t]);
  }

  /** When every thread is out of its calls and none holds a lock, the mutex is free again. */
  lemma QuiescentIsFree(run: seq<State>, movers: seq<Thread>, i: nat)
    requires Run(run, movers) && i < |run|
    requires forall t :: t in run[i].threads ==> run[i].threads[t].pc.Idle? && run[i].threads[t].held == 0
    ensures !run[i].mem.locked && run[i].mem.ownerCore == CORE_COUNT
  {
    hide Run;
    RunInv(run, movers, i);
  }

  // ---------------------------------------------------------------- calls on their own

  /** Thread `t` moves from each of these places to the next, and nobody else moves. */
  ghost predicate Alone(t: Thread, ms: seq<Mem>, ls: seq<Local>) {
    && |ms| == |ls| && t.core < CORE_COUNT
    && forall i :: 0 <= i < |ms| - 1 ==> Move(t, ms[i], ls[i], ms[i + 1], ls[i + 1])
  }

  lemma NextAlone(t: Thread, ms: seq<Mem>, ls: seq<Local>, i: nat)
    requires Alone(t, ms, ls) && i + 1 < |ms|
    ensures |ls| == |ms| && Move(t, ms[i], ls[i], ms[i + 1], ls[i + 1])
  {}

  /** From taking the free mutex on: four steps, or five if it was waited for. */
  lemma Taken(t: Thread, ms: seq<Mem>, ls: seq<Local>, i: nat)
    requires Alone(t, ms, ls) && i + 5 < |ms| && ls[i].pc.TakeCore?
    requires ms[i].locked && ms[i].lockCore == t.core
    ensures !ls[i].pc.waited ==>
      && ms[i + 4] == Mem(false, CORE_COUNT, t.core, t.id, 1, ms[i].waiting)
      && ls[i + 4] == Local(Idle, false, ls[i].held + 1)
    ensures ls[i].pc.waited ==>
      && ms[i + 5] == Mem(false, CORE_COUNT, t.core, t.id, 1, ms[i].waiting - {t.core})
      && ls[i + 5] == Local(Idle, false, ls[i].held + 1)
  {
    hide Alone;
    NextAlone(t, ms, ls, i);
    var waited := ls[i].pc.waited;
    assert ls[i + 1].pc == TakeThread(waited);
    NextAlone(t, ms, ls, i + 1);
    assert ls[i + 2].pc == TakeCount(waited);
    NextAlone(t, ms, ls, i + 2);
    NextAlone(t, ms, ls, i + 3);
    if waited {
      assert ls[i + 4].pc == ReleaseTrue;
      NextAlone(t, ms, ls, i + 4);
    }
  }

  /** A lock call that finds spinlock and mutex free has taken the mutex after seven steps. */
  lemma LockTakesFree(t: Thread, ms: seq<Mem>, ls: seq<Local>)
    requires Alone(t, ms, ls) && |ms| > 8 && ls[0].pc == FirstAcquire
    requires !ms[0].locked && ms[0].ownerCore == CORE_COUNT && t.core < CORE_COUNT
    ensures ms[7] == Mem(false, CORE_COUNT, t.core, t.id, 1, ms[0].waiting)
    ensures ls[7] == Local(Idle, false, ls[0].held + 1)
  {
    hide Alone;
    NextAlone(t, ms, ls, 0);
    assert ls[1].pc == CheckCore;
    NextAlone(t, ms, ls, 1);
    assert ls[2].pc == CheckFree;
    NextAlone(t, ms, ls, 2);
    hide Move;
    Taken(t, ms, ls, 3);
  }

  /** The owner's lock call raises the count by one. */
  lemma LockNests(t: Thread, ms: seq<Mem>, ls: seq<Local>)
    requires Alone(t, ms, ls) && |ms| > 5 && ls[0].pc == FirstAcquire
    requires !ms[0].locked && ms[0].ownerCore == t.core && ms[0].ownerThread == t.id && ms[0].count + 1 < WORD
    ensures ms[5] == ms[0].(lockCore := CORE_COUNT, count := ms[0].count + 1)
    ensures ls[5] == Local(Idle, false, ls[0].held + 1)
  {
    hide Alone;
    NextAlone(t, ms, ls, 0);
    assert ls[1].pc == CheckCore;
    NextAlone(t, ms, ls, 1);
    assert ls[2].pc == CheckThread;
    NextAlone(t, ms, ls, 2);
    assert ls[3].pc == Recurse;
    NextAlone(t, ms, ls, 3);
    assert ls[4].pc == ReleaseTrue;
    NextAlone(t, ms, ls, 4);
  }

  /** Any other's lock call is waiting after five steps, or six, with the spinlock free again and the
      owner as before. */
  lemma LockWaits(t: Thread, ms: seq<Mem>, ls: seq<Local>)
    requires Alone(t, ms, ls) && |ms| > 6 && ls[0].pc == FirstAcquire
    requires !ms[0].locked && ms[0].ownerCore < CORE_COUNT && !(ms[0].ownerCore == t.core && ms[0].ownerThread == t.id)
    ensures exists n :: 5 <= n <= 6 && ls[n] == ls[0].(pc := WaitAcquire)
              && ms[n] == ms[0].(lockCore := CORE_COUNT, waiting := ms[0].waiting + {t.core})
  {
    hide Alone;
    NextAlone(t, ms, ls, 0);
    assert ls[1].pc == CheckCore;
    NextAlone(t, ms, ls, 1);
    var i := 2;
    if ms[0].ownerCore == t.core {
      assert ls[2].pc == CheckThread;
      NextAlone(t, ms, ls, 2);
      i := 3;
    }
    assert ls[i].pc == CheckFree && ms[i] == ms[1];
    NextAlone(t, ms, ls, i);
    assert ls[i + 1].pc == SetWaiting;
    NextAlone(t, ms, ls, i + 1);
    assert ls[i + 2].pc == ReleaseToWait;
    NextAlone(t, ms, ls, i + 2);
    assert 5 <= i + 3 <= 6 && ls[i + 3].pc == WaitAcquire;
  }

  /** A waiter that finds spinlock and mutex free has taken the mutex after seven steps; one that finds
      the mutex taken is waiting again after three, and has changed nothing. */
  lemma WaiterTakesFree(t: Thread, ms: seq<Mem>, ls: seq<Local>)
    requires Alone(t, ms, ls) && |ms| > 7 && ls[0].pc == WaitAcquire && !ms[0].locked
    ensures ms[0].ownerCore == CORE_COUNT ==>
              && ms[7] == Mem(false, CORE_COUNT, t.core, t.id, 1, ms[0].waiting - {t.core})
              && ls[7] == Local(Idle, false, ls[0].held + 1)
    ensures ms[0].ownerCore != CORE_COUNT ==> ms[3] == ms[0].(lockCore := CORE_COUNT) && ls[3] == ls[0]
  {
    hide Alone;
    NextAlone(t, ms, ls, 0);
    assert ls[1].pc == WaitCheck;
    NextAlone(t, ms, ls, 1);
    if ms[0].ownerCore == CORE_COUNT {
      hide Move;
      Taken(t, ms, ls, 2);
    } else {
      assert ls[2].pc == ReleaseToWait;
      NextAlone(t, ms, ls, 2);
    }
  }

  /** The owner's unlock call gets as far as looking at the count. */
  lemma OwnerUnlocks(t: Thread, ms: seq<Mem>, ls: seq<Local>)
    requires Alone(t, ms, ls) && |ms| > 4 && ls[0].pc.UnlockAcquire?
    requires !ms[0].locked && ms[0].ownerCore == t.core && ms[0].ownerThread == t.id
    ensures var paid := ls[0].pc.paid;
      && ms[4] == ms[0].Acquired(t)
      && ls[4] == ls[0].(pc := if ms[0].count > 1 then Decrement(paid) else ClearCore(paid))
  {
    hide Alone;
    NextAlone(t, ms, ls, 0);
    assert ls[1].pc.UnlockCore?;
    NextAlone(t, ms, ls, 1);
    assert ls[2].pc.UnlockThread?;
    NextAlone(t, ms, ls, 2);
    assert ls[3].pc.UnlockCount?;
    NextAlone(t, ms, ls, 3);
  }

  /** The owner's unlock call takes one off a count above one. */
  lemma UnlockNests(t: Thread, ms: seq<Mem>, ls: seq<Local>)
    requires Alone(t, ms, ls) && |ms| > 6 && ls[0].pc.UnlockAcquire?
    requires !ms[0].locked && ms[0].ownerCore == t.core && ms[0].ownerThread == t.id && ms[0].count > 1
    ensures ms[6] == ms[0].(lockCore := CORE_COUNT, count := ms[0].count - 1) && ls[6] == ls[0].(pc := Idle)
  {
    hide Alone;
    OwnerUnlocks(t, ms, ls);
    NextAlone(t, ms, ls, 4);
    assert ls[5].pc == UnlockRelease;
    NextAlone(t, ms, ls, 5);
  }

  /** And with the last one it frees the mutex. */
  lemma UnlockFrees(t: Thread, ms: seq<Mem>, ls: seq<Local>)
    requires Alone(t, ms, ls) && |ms| > 8 && ls[0].pc.UnlockAcquire?
    requires !ms[0].locked && ms[0].ownerCore == t.core && ms[0].ownerThread == t.id && ms[0].count <= 1
    ensures ms[8] == Mem(false, CORE_COUNT, CORE_COUNT, 0, 0, ms[0].waiting) && ls[8] == ls[0].(pc := Idle)
  {
    hide Alone;
    OwnerUnlocks(t, ms, ls);
    NextAlone(t, ms, ls, 4);
    assert ls[5].pc == ClearThread;
    NextAlone(t, ms, ls, 5);
    assert ls[6].pc == ClearCount;
    NextAlone(t, ms, ls, 6);
    assert ls[7].pc == UnlockRelease;
    NextAlone(t, ms, ls, 7);
  }

  /** Any other's changes nothing. */
  lemma ForeignUnlock(t: Thread, ms: seq<Mem>, ls: seq<Local>)
    requires Alone(t, ms, ls) && |ms| > 4 && ls[0].pc.UnlockAcquire?
    requires !ms[0].locked && !(ms[0].ownerCore == t.core && ms[0].ownerThread == t.id)
    ensures exists n :: 3 <= n <= 4 && ms[n] == ms[0].(lockCore := CORE_COUNT) && ls[n] == ls[0].(pc := Idle)
  {
    hide Alone;
    NextAlone(t, ms, ls, 0);
    assert ls[1].pc.UnlockCore?;
    NextAlone(t, ms, ls, 1);
    if ms[0].ownerCore == t.core {
      assert ls[2].pc.UnlockThread?;
      NextAlone(t, ms, ls, 2);
      assert ls[3].pc == UnlockRelease;
      NextAlone(t, ms, ls, 3);
    } else {
      assert ls[2].pc == UnlockRelease;
      NextAlone(t, ms, ls, 2);
    }
  }

  /** A waiter that times out takes back its core's mark and returns false; of the spinlock it gives up
      what its own core has locked. */
  lemma TimeoutReturns(t: Thread, ms: seq<Mem>, ls: seq<Local>)
    requires Alone(t, ms, ls) && |ms| > 2 && ls[0].pc == TimeoutClear
    ensures ls[2] == Local(Idle, false, ls[0].held)
    ensures var unlocks := ms[0].locked && ms[0].lockCore == t.core;
      ms[2] == ms[0].(waiting := ms[0].waiting - {t.core}, locked := if unlocks then false else ms[0].locked,
                      lockCore := if unlocks then CORE_COUNT else ms[0].lockCore)
  {
    hide Alone;
    NextAlone(t, ms, ls, 0);
    assert ls[1].pc == TimeoutRelease;
    NextAlone(t, ms, ls, 1);
  }

  /** Only calls with a timeout time out. */
  ghost predicate TimeoutsAreTimed(s: State) {
    forall t :: t in s.threads && (s.threads[t].pc.TimeoutClear? || s.threads[t].pc.TimeoutRelease?) ==> s.threads[t].timed
  }

  lemma {:induction false} RunTimeouts(run: seq<State>, movers: seq<Thread>, i: nat)
    requires FreeRun(run, movers) && i < |run|
    ensures TimeoutsAreTimed(run[i])
  {
    if i > 0 {
      RunTimeouts(run, movers, i - 1);
      assert Step(run[i - 1], run[i], movers[i - 1]);
    }
  }

  /** In every run, whatever the others do, a step that ends a lock call returns true, from inside the
      spinlock, or the call has a timeout; and until it ends the call keeps its timeout, or none. */
  lemma FailsOnlyTimed(run: seq<State>, movers: seq<Thread>, i: nat)
    requires FreeRun(run, movers) && i < |movers| && movers[i] in run[i].threads
    requires var pc := run[i].threads[movers[i]].pc; !pc.Idle? && (Entering(pc) || Obtaining(pc) || AtWait(pc))
    ensures var l, l' := run[i].threads[movers[i]], run[i + 1].threads[movers[i]];
      && (l'.pc.Idle? ==> (l'.held == l.held + 1 && l.pc == ReleaseTrue) || (l'.held == l.held && l.timed))
      && (!l'.pc.Idle? ==> l'.timed == l.timed && l'.held == l.held)
  {
    RunTimeouts(run, movers, i);
    assert Step(run[i], run[i + 1], movers[i]);
  }
}

/** The re-entrant, upgrading read/write lock (src/libguac/rwlock.c).

    Each thread keeps one machine word: the low four bits say which lock it holds,
    the rest how deeply. The underlying lock is not re-entrant. Any number of
    threads run the three calls as small steps, one access to the shared lock or
    one write of the own word at a time, in any interleaving.
  */
module RwLock {

  // ---------------------------------------------------------------------
  // The packed word
  // ---------------------------------------------------------------------

  const NO_LOCK := 0
  const READ_LOCK := 1
  const WRITE_LOCK := 2

  /** The number of values of a uintptr_t. */
  const WORDS := 0x1_0000_0000_0000_0000

  /** UINTPTR_MAX >> 4. */
  const MAX_COUNT := 0x0FFF_FFFF_FFFF_FFFF

  function Flag(word: nat): nat { word % 16 }

  function Count(word: nat): nat { word / 16 }

  /** The shift drops what does not fit the machine word. */
  function Pack(flag: nat, count: nat): nat {
    flag % 16 + (count * 16) % WORDS
  }

  predicate WouldOverflow(count: nat) {
    count >= MAX_COUNT
  }

  /** The masks and shifts of the source compute what the arithmetic above does. */
  lemma MasksAreArithmetic(word: bv64, flag: bv64, count: bv64)
    ensures word & 0xF == word % 16
    ensures word >> 4 == word / 16
    ensures (flag & 0xF) | (count << 4) == flag % 16 + count * 16
  {
  }

  /** Packing loses nothing exactly when the count is within its limit. */
  lemma PackUnpacks(flag: nat, count: nat)
    requires flag < 16
    ensures Pack(flag, count) < WORDS && Flag(Pack(flag, count)) == flag
    ensures Count(Pack(flag, count)) == count <==> count <= MAX_COUNT
  {
    assert WORDS == 16 * (MAX_COUNT + 1);
    if count <= MAX_COUNT {
      assert (count * 16) % WORDS == count * 16;
    } else {
      assert (count * 16) % WORDS < WORDS;
    }
  }

  // ---------------------------------------------------------------------
  // Threads, the shared lock, steps
  // ---------------------------------------------------------------------

  type Tid = nat

  datatype Call = AcquireWrite | AcquireRead | Release

  /** Where a thread is inside a call; the argument is the call's local `count`. */
  datatype PC =
    | Idle
    | UpgradeUnlock(count: nat)  // about to drop the read lock in favour of the write lock
    | AwaitWrite(count: nat)     // in pthread_rwlock_wrlock
    | MarkWrite(count: nat)      // holds the write lock, word not yet written
    | AwaitRead                  // in pthread_rwlock_rdlock
    | MarkRead                   // holds the read lock, word not yet written
    | LastUnlock                 // about to unlock at the last release
    | MarkFree                   // unlocked, word not yet written

  /** `call`: the call that the thread has made last. */
  datatype Thread = Thread(word: nat, pc: PC, call: Call)

  /** What a call returned to its caller: success, or a refusal. */
  datatype Event = Returned(t: Tid, call: Call, ok: bool)

  datatype State = State(
    threads: map<Tid, Thread>,
    readers: set<Tid>,   // threads holding the underlying lock for reading
    writers: set<Tid>,   // threads holding it for writing
    log: seq<Event>)

  function With(s: State, t: Tid, th: Thread): State {
    s.(threads := s.threads[t := th])
  }

  function Goto(s: State, t: Tid, pc: PC): State
    requires t in s.threads
  {
    With(s, t, s.threads[t].(pc := pc))
  }

  /** The call that the thread has made returns. */
  function Return(s: State, t: Tid, word: nat, ok: bool): State
    requires t in s.threads
  {
    var call := s.threads[t].call;
    With(s, t, Thread(word, Idle, call)).(log := s.log + [Returned(t, call, ok)])
  }

  /** pthread_rwlock_unlock by a thread that holds the lock one way or the other. */
  function Unlock(s: State, t: Tid): State {
    s.(readers := s.readers - {t}, writers := s.writers - {t})
  }

  /** The first part of a call, up to the first use of the shared lock. */
  function Begin(before: State, t: Tid, call: Call): State
    requires t in before.threads
  {
    var word := before.threads[t].word;
    var s := With(before, t, Thread(word, Idle, call));
    var flag, count := Flag(word), Count(word);
    match call
    case AcquireWrite =>
      if WouldOverflow(count) then Return(s, t, word, false)
      else if flag == WRITE_LOCK then Return(s, t, Pack(flag, count + 1), true)
      else if flag == READ_LOCK then Goto(s, t, UpgradeUnlock(count))
      else Goto(s, t, AwaitWrite(count))
    case AcquireRead =>
      if WouldOverflow(count) then Return(s, t, word, false)
      else if flag == READ_LOCK || flag == WRITE_LOCK then Return(s, t, Pack(flag, count + 1), true)
      else Goto(s, t, AwaitRead)
    case Release =>
      if count <= 0 then Return(s, t, word, false)
      else if count == 1 then Goto(s, t, LastUnlock)
      else Return(s, t, Pack(flag, count - 1), true)
  }

  /** Only the two lock operations can block. */
  predicate Enabled(s: State, t: Tid) {
    && t in s.threads && s.threads[t].pc != Idle
    && (s.threads[t].pc.AwaitWrite? ==> s.readers == {} && s.writers == {})
    && (s.threads[t].pc.AwaitRead? ==> s.writers == {})
  }

  /** The next part of a call already begun. */
  function Continue(s: State, t: Tid): State
    requires Enabled(s, t)
  {
    match s.threads[t].pc
    case UpgradeUnlock(count) => Goto(Unlock(s, t), t, AwaitWrite(count))
    case AwaitWrite(count) => Goto(s.(writers := s.writers + {t}), t, MarkWrite(count))
    case MarkWrite(count) => Return(s, t, Pack(WRITE_LOCK, count + 1), true)
    case AwaitRead => Goto(s.(readers := s.readers + {t}), t, MarkRead)
    case MarkRead => Return(s, t, Pack(READ_LOCK, 1), true)
    case LastUnlock => Goto(Unlock(s, t), t, MarkFree)
    case MarkFree => Return(s, t, Pack(NO_LOCK, 0), true)
  }

  ghost predicate Step(s: State, t: Tid, s': State) {
    && t in s.threads
    && if s.threads[t].pc == Idle then exists call :: s' == Begin(s, t, call)
       else Enabled(s, t) && s' == Continue(s, t)
  }

  ghost predicate Next(s: State, s': State) {
    exists t :: Step(s, t, s')
  }

  ghost predicate Initial(s: State) {
    && s.readers == {} && s.writers == {} && s.log == []
    && forall t :: t in s.threads ==> s.threads[t].word == 0 && s.threads[t].pc == Idle
  }

  ghost predicate Run(run: seq<State>) {
    && |run| > 0 && Initial(run[0])
    && forall i :: 0 <= i < |run| - 1 ==> Next(run[i], run[i + 1])
  }

  // ---------------------------------------------------------------------
  // What every run keeps
  // ---------------------------------------------------------------------

  /** What an event adds to the depth of `t`. */
  function Change(e: Event, t: Tid): int {
    if e.t != t || !e.ok then 0 else if e.call == Release then -1 else 1
  }

  /** Acquisitions minus releases that returned success to `t`. */
  function Depth(log: seq<Event>, t: Tid): int {
    if log == [] then 0 else Depth(log[..|log| - 1], t) + Change(log[|log| - 1], t)
  }

  /** Whether `t` has been given the write lock and has not released the last of its
      acquisitions since. */
  predicate Writing(log: seq<Event>, t: Tid) {
    log != [] && Depth(log, t) > 0 &&
    (log[|log| - 1] == Returned(t, AcquireWrite, true) || Writing(log[..|log| - 1], t))
  }

  lemma DepthStep(log: seq<Event>, e: Event, t: Tid)
    ensures Depth(log + [e], t) == Depth(log, t) + Change(e, t)
    ensures Writing(log + [e], t) <==>
      Depth(log, t) + Change(e, t) > 0 && (e == Returned(t, AcquireWrite, true) || Writing(log, t))
  {
    assert (log + [e])[..|log|] == log;
  }

  /** The word is a flag and a count: the count is the depth, and the flag says whether
      the write lock has been given on the way there. */
  ghost predicate WordInv(s: State, t: Tid)
    requires t in s.threads
  {
    var word := s.threads[t].word;
    && word < WORDS && Flag(word) <= WRITE_LOCK
    && (Flag(word) == NO_LOCK <==> Count(word) == 0)
    && Count(word) == Depth(s.log, t)
    && (Flag(word) == WRITE_LOCK <==> Writing(s.log, t))
  }

  /** The call that a program counter belongs to. */
  predicate Serves(pc: PC, call: Call) {
    match pc
    case Idle => true
    case UpgradeUnlock(_) | AwaitWrite(_) | MarkWrite(_) => call == AcquireWrite
    case AwaitRead | MarkRead => call == AcquireRead
    case LastUnlock | MarkFree => call == Release
  }

  /** Who holds the underlying lock, told from the word and the program counter. */
  ghost predicate HoldInv(s: State, t: Tid)
    requires t in s.threads
  {
    var Thread(word, pc, call) := s.threads[t];
    var flag, count := Flag(word), Count(word);
    var reading, writing := t in s.readers, t in s.writers;
    Serves(pc, call) &&
    match pc
    case Idle => (reading <==> flag == READ_LOCK) && (writing <==> flag == WRITE_LOCK)
    case UpgradeUnlock(n) => n == count && !WouldOverflow(n) && flag == READ_LOCK && reading && !writing
    case AwaitWrite(n) => n == count && !WouldOverflow(n) && flag != WRITE_LOCK && !reading && !writing
    case MarkWrite(n) => n == count && !WouldOverflow(n) && flag != WRITE_LOCK && !reading && writing
    case AwaitRead => flag == NO_LOCK && !reading && !writing
    case MarkRead => flag == NO_LOCK && reading && !writing
    case LastUnlock => count == 1 && (reading <==> flag == READ_LOCK) && (writing <==> flag == WRITE_LOCK)
    case MarkFree => count == 1 && !reading && !writing
  }

  /** The underlying lock is used correctly: one writer or some readers. */
  ghost predicate LockInv(s: State) {
    && s.readers <= s.threads.Keys && s.writers <= s.threads.Keys
    && (s.writers != {} ==> s.readers == {})
    && (forall t, u :: t in s.writers && u in s.writers ==> t == u)
  }

  ghost predicate Inv(s: State) {
    LockInv(s) && forall t :: t in s.threads ==> WordInv(s, t) && HoldInv(s, t)
  }

  /** A step of `t` leaves the facts about every other thread alone. */
  ghost predicate OnlyTouches(s: State, t: Tid, s': State) {
    && t in s.threads && t in s'.threads && s'.threads == s.threads[t := s'.threads[t]]
    && s'.readers - {t} == s.readers - {t} && s'.writers - {t} == s.writers - {t}
    && (s'.log == s.log || exists e: Event :: e.t == t && s'.log == s.log + [e])
  }

  lemma OthersKeep(s: State, t: Tid, s': State, u: Tid)
    requires OnlyTouches(s, t, s') && u != t && u in s.threads && WordInv(s, u) && HoldInv(s, u)
    ensures WordInv(s', u) && HoldInv(s', u)
  {
    assert u in s'.readers - {t} <==> u in s.readers;
    assert u in s'.writers - {t} <==> u in s.writers;
    if s'.log != s.log {
      var e: Event :| e.t == t && s'.log == s.log + [e];
      DepthStep(s.log, e, u);
    }
  }

  /** It is enough to look at the stepping thread and the lock. */
  lemma StepKeepsInv(s: State, t: Tid, s': State)
    requires Inv(s) && OnlyTouches(s, t, s') && LockInv(s') && WordInv(s', t) && HoldInv(s', t)
    ensures Inv(s')
  {
    forall u | u in s'.threads && u != t
      ensures WordInv(s', u) && HoldInv(s', u)
    {
      OthersKeep(s, t, s', u);
    }
  }

  lemma BeginTouches(s: State, t: Tid, call: Call)
    requires t in s.threads
    ensures OnlyTouches(s, t, Begin(s, t, call))
  {
  }

  lemma ContinueTouches(s: State, t: Tid)
    requires Enabled(s, t)
    ensures OnlyTouches(s, t, Continue(s, t))
  {
  }

  /** Returning at once with a new depth keeps the lock as it is. */
  lemma ReturnKeepsOwn(before: State, t: Tid, call: Call, count: nat)
    requires t in before.threads && before.threads[t].pc == Idle && WordInv(before, t) && HoldInv(before, t)
    requires 0 < count <= MAX_COUNT && Count(before.threads[t].word) > 0
    requires count == Count(before.threads[t].word) + if call == Release then -1 else 1
    requires call == AcquireWrite ==> Flag(before.threads[t].word) == WRITE_LOCK
    ensures var word := before.threads[t].word;
      var s' := Return(With(before, t, Thread(word, Idle, call)), t, Pack(Flag(word), count), true);
      WordInv(s', t) && HoldInv(s', t)
  {
    PackUnpacks(Flag(before.threads[t].word), count);
    DepthStep(before.log, Returned(t, call, true), t);
  }

  lemma RefusalKeepsOwn(before: State, t: Tid, call: Call)
    requires t in before.threads && before.threads[t].pc == Idle && WordInv(before, t) && HoldInv(before, t)
    ensures var word := before.threads[t].word;
      var s' := Return(With(before, t, Thread(word, Idle, call)), t, word, false);
      WordInv(s', t) && HoldInv(s', t)
  {
    DepthStep(before.log, Returned(t, call, false), t);
  }

  lemma BeginKeepsOwn(s: State, t: Tid, call: Call)
    requires t in s.threads && s.threads[t].pc == Idle && WordInv(s, t) && HoldInv(s, t)
    ensures var s' := Begin(s, t, call); WordInv(s', t) && HoldInv(s', t)
  {
    var s' := Begin(s, t, call);
    var word := s.threads[t].word;
    var count := Count(word);
    if call == Release && count > 1 {
      ReturnKeepsOwn(s, t, call, count - 1);
    } else if call != Release && 0 < count < MAX_COUNT && s'.threads[t].pc == Idle {
      ReturnKeepsOwn(s, t, call, count + 1);
    } else if s'.threads[t].pc == Idle {
      RefusalKeepsOwn(s, t, call);
    } else {
      assert s'.threads[t].word == word && s'.log == s.log;
    }
  }

  lemma BeginKeepsInv(s: State, t: Tid, call: Call)
    requires Inv(s) && t in s.threads && s.threads[t].pc == Idle
    ensures Inv(Begin(s, t, call))
    ensures Begin(s, t, call).threads[t].call == call
  {
    assert WordInv(s, t) && HoldInv(s, t);
    BeginKeepsOwn(s, t, call);
    BeginTouches(s, t, call);
    StepKeepsInv(s, t, Begin(s, t, call));
  }

  /** The moves that change only the shared lock. */
  lemma LockMoveKeepsInv(s: State, t: Tid)
    requires Inv(s) && Enabled(s, t)
    requires var pc := s.threads[t].pc; !pc.MarkWrite? && !pc.MarkRead? && !pc.MarkFree?
    ensures Inv(Continue(s, t))
  {
    assert WordInv(s, t) && HoldInv(s, t);
    ContinueTouches(s, t);
    StepKeepsInv(s, t, Continue(s, t));
  }

  /** The moves that write the thread's own word. */
  lemma MarkMoveKeepsInv(s: State, t: Tid)
    requires Inv(s) && Enabled(s, t)
    requires var pc := s.threads[t].pc; pc.MarkWrite? || pc.MarkRead? || pc.MarkFree?
    ensures Inv(Continue(s, t))
  {
    var s' := Continue(s, t);
    assert WordInv(s, t) && HoldInv(s, t);
    PackUnpacks(WRITE_LOCK, Count(s.threads[t].word) + 1);
    PackUnpacks(READ_LOCK, 1);
    PackUnpacks(NO_LOCK, 0);
    DepthStep(s.log, s'.log[|s.log|], t);
    ContinueTouches(s, t);
    StepKeepsInv(s, t, s');
  }

  lemma NextKeepsInv(s: State, s': State)
    requires Inv(s) && Next(s, s')
    ensures Inv(s')
  {
    var t :| Step(s, t, s');
    if s.threads[t].pc == Idle {
      var call :| s' == Begin(s, t, call);
      BeginKeepsInv(s, t, call);
    } else if s.threads[t].pc.MarkWrite? || s.threads[t].pc.MarkRead? || s.threads[t].pc.MarkFree? {
      MarkMoveKeepsInv(s, t);
    } else {
      LockMoveKeepsInv(s, t);
    }
  }

  /** Every state of every run, for any number of threads. */
  lemma {:induction false} RunKeepsInv(run: seq<State>, i: nat)
    requires Run(run) && i < |run|
    ensures Inv(run[i])
  {
    if i > 0 {
      RunKeepsInv(run, i - 1);
      assert Next(run[i - 1], run[i - 1 + 1]);
      NextKeepsInv(run[i - 1], run[i]);
    }
  }

  // ---------------------------------------------------------------------
  // What callers rely on
  // ---------------------------------------------------------------------

  /** The word tells the truth about the underlying lock. */
  ghost predicate Agrees(s: State, t: Tid)
    requires t in s.threads
  {
    var flag := Flag(s.threads[t].word);
    (flag == READ_LOCK <==> t in s.readers) && (flag == WRITE_LOCK <==> t in s.writers)
  }

  /** Inside the upgrade the read lock is gone while the word still claims it. */
  ghost predicate InUpgradeWindow(s: State, t: Tid)
    requires t in s.threads
  {
    s.threads[t].pc.AwaitWrite? && Flag(s.threads[t].word) == READ_LOCK
  }

  /** Between the underlying operation and the write of the thread's own word. */
  ghost predicate AboutToMark(s: State, t: Tid)
    requires t in s.threads
  {
    var pc := s.threads[t].pc;
    pc.MarkWrite? || pc.MarkRead? || pc.MarkFree?
  }

  /** Word and lock disagree in the upgrade window and at the instant between an
      operation on the lock and the note of it, and nowhere else. */
  lemma DisagreeExactlyWhen(run: seq<State>, i: nat, t: Tid)
    requires Run(run) && i < |run| && t in run[i].threads
    ensures !Agrees(run[i], t) <==> InUpgradeWindow(run[i], t) || AboutToMark(run[i], t)
  {
    RunKeepsInv(run, i);
    assert WordInv(run[i], t) && HoldInv(run[i], t);
  }

  /** A thread whose word says WRITE, outside its final release, holds the lock
      alone: nobody else holds it, and no thread outside a call even believes to. */
  lemma WriterIsAlone(run: seq<State>, i: nat, t: Tid, u: Tid)
    requires Run(run) && i < |run| && t in run[i].threads && u in run[i].threads && t != u
    requires Flag(run[i].threads[t].word) == WRITE_LOCK && !run[i].threads[t].pc.MarkFree?
    ensures run[i].writers == {t} && run[i].readers == {}
    ensures run[i].threads[u].pc == Idle ==> run[i].threads[u].word == 0
  {
    RunKeepsInv(run, i);
    assert HoldInv(run[i], t) && WordInv(run[i], u) && HoldInv(run[i], u);
    assert run[i].writers == {t};
  }

  /** Between calls a thread holds the lock exactly while its successful
      acquisitions outnumber its releases, to any depth up to the limit. */
  lemma HeldWhileNested(run: seq<State>, i: nat, t: Tid)
    requires Run(run) && i < |run| && t in run[i].threads
    ensures 0 <= Depth(run[i].log, t) <= MAX_COUNT
    ensures run[i].threads[t].pc == Idle ==>
      (Depth(run[i].log, t) > 0 <==> t in run[i].readers || t in run[i].writers)
  {
    RunKeepsInv(run, i);
    assert WordInv(run[i], t) && HoldInv(run[i], t);
  }

  /** Between calls a thread holds exactly what it has been given: the write lock if an
      acquire_write has returned success to it at any depth and it has not released the
      last of its acquisitions since, and else the read lock if it has acquired at all. */
  lemma HoldsWhatWasGiven(run: seq<State>, i: nat, t: Tid)
    requires Run(run) && i < |run| && t in run[i].threads && run[i].threads[t].pc == Idle
    ensures t in run[i].writers <==> Writing(run[i].log, t)
    ensures t in run[i].readers <==> Depth(run[i].log, t) > 0 && !Writing(run[i].log, t)
  {
    RunKeepsInv(run, i);
    assert WordInv(run[i], t) && HoldInv(run[i], t);
  }

  /** In the state in which an acquire_write returns success its caller is the writer, at
      whatever depth and whatever it held before. */
  lemma AcquiredWrites(run: seq<State>, i: nat, t: Tid)
    requires Run(run) && i + 1 < |run|
    requires run[i + 1].log == run[i].log + [Returned(t, AcquireWrite, true)]
    ensures t in run[i + 1].threads && Flag(run[i + 1].threads[t].word) == WRITE_LOCK
    ensures run[i + 1].writers == {t} && run[i + 1].readers == {}
  {
    LoggerReturns(run, i, Returned(t, AcquireWrite, true));
    RunKeepsInv(run, i);
    RunKeepsInv(run, i + 1);
    assert WordInv(run[i], t) && WordInv(run[i + 1], t) && HoldInv(run[i + 1], t);
    DepthStep(run[i].log, Returned(t, AcquireWrite, true), t);
    assert run[i + 1].writers == {t};
  }

  /** An acquire_read that returns success leaves its caller a reader if it held nothing,
      and otherwise leaves it what it held. */
  lemma AcquiredReads(run: seq<State>, i: nat, t: Tid)
    requires Run(run) && i + 1 < |run|
    requires run[i + 1].log == run[i].log + [Returned(t, AcquireRead, true)]
    ensures Depth(run[i].log, t) == 0 ==> t in run[i + 1].readers && t !in run[i + 1].writers
    ensures Depth(run[i].log, t) > 0 ==> run[i + 1].readers == run[i].readers && run[i + 1].writers == run[i].writers
    ensures Depth(run[i].log, t) >= 0
  {
    LoggerReturns(run, i, Returned(t, AcquireRead, true));
    RunKeepsInv(run, i);
    RunKeepsInv(run, i + 1);
    assert WordInv(run[i], t) && HoldInv(run[i], t) && WordInv(run[i + 1], t) && HoldInv(run[i + 1], t);
    DepthStep(run[i].log, Returned(t, AcquireRead, true), t);
  }

  /** An event is logged by the thread that it is about, in the step in which its call
      returns. */
  lemma LoggerReturns(run: seq<State>, i: nat, e: Event)
    requires Run(run) && i + 1 < |run| && run[i + 1].log == run[i].log + [e]
    ensures Step(run[i], e.t, run[i + 1]) && e.t in run[i + 1].threads && run[i + 1].threads[e.t].pc == Idle
    ensures run[i + 1].threads[e.t].call == e.call
  {
    assert Next(run[i], run[i + 1]);
    var t :| Step(run[i], t, run[i + 1]);
    assert run[i + 1].log[|run[i].log|] == e;
  }

  /** A step appends at most one event. */
  lemma StepLogs(s: State, s': State)
    requires Next(s, s')
    ensures s'.log == s.log || exists e :: s'.log == s.log + [e]
  {
    var t :| Step(s, t, s');
    if s.threads[t].pc == Idle {
      var call :| s' == Begin(s, t, call);
      BeginTouches(s, t, call);
    } else {
      ContinueTouches(s, t);
    }
  }

  lemma WritesOn(s: State, s': State, t: Tid)
    requires Next(s, s') && Writing(s.log, t) && Depth(s'.log, t) > 0
    ensures Writing(s'.log, t)
  {
    StepLogs(s, s');
    if s'.log != s.log {
      var e :| s'.log == s.log + [e];
      DepthStep(s.log, e, t);
    }
  }

  /** From state `i` on the depth has stayed positive. */
  ghost predicate Nested(run: seq<State>, i: nat, k: nat, t: Tid)
    requires i <= k < |run|
    decreases k - i
  {
    Depth(run[k].log, t) > 0 && (i < k ==> Nested(run, i, k - 1, t))
  }

  lemma NextAt(run: seq<State>, k: nat)
    requires Run(run) && 0 < k < |run|
    ensures Next(run[k - 1], run[k])
  {
    assert Next(run[k - 1], run[k - 1 + 1]);
  }

  lemma {:induction false} WritesUntilLast(run: seq<State>, i: nat, k: nat, t: Tid)
    requires Run(run) && i <= k < |run| && Writing(run[i].log, t) && Nested(run, i, k, t)
    ensures Writing(run[k].log, t)
  {
    if i < k {
      WritesUntilLast(run, i, k - 1, t);
      NextAt(run, k);
      WritesOn(run[k - 1], run[k], t);
    }
  }

  /** The write lock lasts until the last release: as long as its depth stays positive a
      thread that has been given it is the writer, until it is past its last unlock. */
  lemma WriterUntilLast(run: seq<State>, i: nat, k: nat, t: Tid)
    requires Run(run) && i <= k < |run| && Writing(run[i].log, t) && Nested(run, i, k, t) && t in run[k].threads
    ensures t in run[k].writers || run[k].threads[t].pc.MarkFree?
  {
    WritesUntilLast(run, i, k, t);
    RunKeepsInv(run, k);
    assert WordInv(run[k], t) && HoldInv(run[k], t);
  }

  /** The underlying lock is given up only by an upgrade or by the last of the nested
      releases, and only ever by a thread that holds it. */
  lemma UnlocksOnlyLast(run: seq<State>, i: nat, t: Tid)
    requires Run(run) && i + 1 < |run| && Step(run[i], t, run[i + 1])
    requires var pc := run[i].threads[t].pc; pc.UpgradeUnlock? || pc.LastUnlock?
    ensures t in run[i].readers + run[i].writers && t !in run[i + 1].readers + run[i + 1].writers
    ensures run[i].threads[t].pc.LastUnlock? ==> Depth(run[i].log, t) == 1
  {
    RunKeepsInv(run, i);
    assert WordInv(run[i], t) && HoldInv(run[i], t);
  }

  lemma OthersDoNotUnlock(run: seq<State>, i: nat, t: Tid, u: Tid)
    requires Run(run) && i + 1 < |run| && Step(run[i], t, run[i + 1])
    requires u in run[i].readers + run[i].writers && u !in run[i + 1].readers + run[i + 1].writers
    ensures u == t && (run[i].threads[t].pc.UpgradeUnlock? || run[i].threads[t].pc.LastUnlock?)
  {
  }

  /** A call is refused only for one of the two documented reasons. */
  lemma RefusedOnlyWhen(run: seq<State>, i: nat, t: Tid, call: Call)
    requires Run(run) && i < |run| && t in run[i].threads && run[i].threads[t].pc == Idle
    ensures Begin(run[i], t, call).log == run[i].log + [Returned(t, call, false)] <==>
      if call == Release then Depth(run[i].log, t) == 0 else Depth(run[i].log, t) == MAX_COUNT
  {
    RunKeepsInv(run, i);
    assert WordInv(run[i], t);
    assert forall e :: (run[i].log + [e])[|run[i].log|] == e;
  }

  /** The lock itself never deadlocks: when threads are inside calls and none of
      them can move, a thread outside any call is holding the lock. */
  lemma NoDeadlock(run: seq<State>, i: nat, t: Tid)
    requires Run(run) && i < |run| && t in run[i].threads && run[i].threads[t].pc != Idle
    requires forall u :: u in run[i].threads ==> !Enabled(run[i], u)
    ensures exists h :: h in run[i].threads && run[i].threads[h].pc == Idle && Depth(run[i].log, h) > 0
  {
    var s := run[i];
    RunKeepsInv(run, i);
    assert !Enabled(s, t);
    var h :| h in s.readers + s.writers;
    assert WordInv(s, h) && HoldInv(s, h);
    assert !Enabled(s, h);
  }

  /** While one thread holds the write lock, another can be nested inside its own
      acquisitions only in the upgrade window or past the unlock of its last release. */
  lemma NestedUnderWriter(run: seq<State>, i: nat, t: Tid, u: Tid)
    requires Run(run) && i < |run| && t in run[i].writers && u in run[i].threads && u != t
    requires Depth(run[i].log, u) > 0
    ensures InUpgradeWindow(run[i], u) || run[i].threads[u].pc.MarkFree?
  {
    RunKeepsInv(run, i);
    assert WordInv(run[i], u) && HoldInv(run[i], u);
  }

  ghost predicate Reachable(s: State) {
    exists run :: Run(run) && run[|run| - 1] == s
  }

  lemma Reach(s: State, t: Tid, s': State)
    requires Reachable(s) && Step(s, t, s')
    ensures Reachable(s')
  {
    var run :| Run(run) && run[|run| - 1] == s;
    var longer := run + [s'];
    forall i | 0 <= i < |longer| - 1
      ensures Next(longer[i], longer[i + 1])
    {
      if i < |run| - 1 {
        assert Next(run[i], run[i + 1]);
      } else {
        assert Step(longer[i], t, longer[i + 1]);
      }
    }
    assert Run(longer) && longer[|longer| - 1] == s';
  }

  /** Two threads, 0 and 1, and what the log says once thread 0 has acquired. */
  function Pair(a: Thread, b: Thread, readers: set<Tid>, writers: set<Tid>, log: seq<Event>): State {
    State(map[0 := a, 1 := b], readers, writers, log)
  }

  /** Thread 0 is about to note that it holds the read lock. */
  lemma MarkReadReachable() returns (s: State)
    ensures s == Pair(Thread(0, MarkRead, AcquireRead), Thread(0, Idle, Release), {0}, {}, [])
    ensures Reachable(s)
  {
    var rest := Thread(0, Idle, Release);
    var s0 := Pair(rest, rest, {}, {}, []);
    assert Run([s0]) && [s0][|[s0]| - 1] == s0;
    var s1 := Begin(s0, 0, AcquireRead);
    Reach(s0, 0, s1);
    s := Continue(s1, 0);
    Reach(s1, 0, s);
    assert s.threads == map[0 := Thread(0, MarkRead, AcquireRead), 1 := rest];
  }

  lemma ReaderReachable() returns (s: State)
    ensures s == Pair(Thread(0x11, Idle, AcquireRead), Thread(0, Idle, Release), {0}, {},
                      [Returned(0, AcquireRead, true)])
    ensures Reachable(s)
  {
    var s2 := MarkReadReachable();
    s := Continue(s2, 0);
    Reach(s2, 0, s);
    assert s.threads == map[0 := Thread(0x11, Idle, AcquireRead), 1 := Thread(0, Idle, Release)];
  }

  /** And it does happen: an upgrade is not atomic. Thread 0 reads, asks for the
      write lock, and thread 1 writes before thread 0 gets it. */
  lemma UpgradeIsNotAtomic() returns (s: State)
    ensures Reachable(s) && Depth(s.log, 0) == 1 && s.writers == {1}
  {
    var s3 := ReaderReachable();
    var s4 := Begin(s3, 0, AcquireWrite);
    Reach(s3, 0, s4);
    var s5 := Continue(s4, 0);
    Reach(s4, 0, s5);
    var s6 := Begin(s5, 1, AcquireWrite);
    Reach(s5, 1, s6);
    s := Continue(s6, 1);
    Reach(s6, 1, s);
    DepthStep([], Returned(0, AcquireRead, true), 0);
    assert s.log == [] + [Returned(0, AcquireRead, true)];
  }
}

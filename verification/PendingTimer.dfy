/** The timer that promotes pending users (src/libguac/client.c).

    A handler instance starts on a thread of its own each time the timer fires; it
    must not overlap a previous instance that is still at work. Instances and calls
    that start the timer interleave freely, one statement at a time.
  */
module PendingTimer {

  type Tid = nat

  datatype TimerState = Unregistered | Registered | Triggered

  /** How an instance or a call ended. */
  datatype Outcome = GaveWay | Promoted | Started | NotStarted

  datatype PC =
    // guac_client_promote_pending_users
    | HandlerLock                    // about to lock the timer mutex
    | HandlerCheck                   // reads whether an instance is already running
    | HandlerMark(already: bool)     // writes TRIGGERED
    | HandlerUnlock(already: bool)   // unlocks; returns if already running
    | HandlerWork                    // promotes the pending users
    | HandlerRelock
    | HandlerUnmark                  // writes REGISTERED
    | HandlerUnlockLast
    // guac_client_start_pending_users_timer
    | StartLock
    | StartCheck                     // returns if the timer is registered
    | StartArm                       // creates and starts the timer, which may fail
    | StartMark                      // writes REGISTERED
    | StartUnlock(ok: bool)
    | Finished(outcome: Outcome)

  /** `armed`: the timer exists and may fire. `owner`: who holds the timer mutex.
      `promoters`: the instances that have promoted the pending users. `refused`: the calls
      for which the timer could not be created or started. */
  datatype State = State(timer: TimerState, armed: bool, owner: set<Tid>, pcs: map<Tid, PC>,
                         promoters: set<Tid>, refused: set<Tid>)

  predicate InHandler(pc: PC) {
    match pc
    case StartLock | StartCheck | StartArm | StartMark | StartUnlock(_) | Finished(_) => false
    case _ => true
  }

  /** The statements executed with the mutex held. */
  predicate Holding(pc: PC) {
    match pc
    case HandlerLock | HandlerWork | HandlerRelock | StartLock | Finished(_) => false
    case _ => true
  }

  /** Past the already-running check and not yet done. */
  predicate Active(pc: PC) {
    pc == HandlerUnlock(false) || pc == HandlerWork || pc == HandlerRelock || pc == HandlerUnmark
  }

  function At(s: State, t: Tid, pc: PC): State {
    s.(pcs := s.pcs[t := pc])
  }

  function Locked(s: State, t: Tid, pc: PC): State {
    At(s, t, pc).(owner := {t})
  }

  function Unlocked(s: State, t: Tid, pc: PC): State {
    At(s, t, pc).(owner := {})
  }

  /** Locking waits until the mutex is free. */
  predicate Enabled(s: State, t: Tid) {
    && t in s.pcs && !s.pcs[t].Finished?
    && (s.pcs[t] == HandlerLock || s.pcs[t] == HandlerRelock || s.pcs[t] == StartLock ==> s.owner == {})
  }

  /** The next statement of thread `t`. */
  function Continue(s: State, t: Tid): State
    requires Enabled(s, t)
  {
    match s.pcs[t]
    case HandlerLock => Locked(s, t, HandlerCheck)
    case HandlerCheck => At(s, t, HandlerMark(s.timer == Triggered))
    case HandlerMark(already) => At(s, t, HandlerUnlock(already)).(timer := Triggered)
    case HandlerUnlock(already) => Unlocked(s, t, if already then Finished(GaveWay) else HandlerWork)
    case HandlerWork => At(s, t, HandlerRelock).(promoters := s.promoters + {t})
    case HandlerRelock => Locked(s, t, HandlerUnmark)
    case HandlerUnmark => At(s, t, HandlerUnlockLast).(timer := Registered)
    case HandlerUnlockLast => Unlocked(s, t, Finished(Promoted))
    case StartLock => Locked(s, t, StartCheck)
    case StartCheck => At(s, t, if s.timer != Unregistered then StartUnlock(true) else StartArm)
    case StartArm => At(s, t, StartMark).(armed := true)
    case StartMark => At(s, t, StartUnlock(true)).(timer := Registered)
    case StartUnlock(ok) => Unlocked(s, t, Finished(if ok then Started else NotStarted))
  }

  /** The timer cannot be created or started. */
  function Refused(s: State, t: Tid): State {
    At(s, t, StartUnlock(false)).(refused := s.refused + {t})
  }

  /** A step of thread `t`; arming the timer may succeed or fail. */
  ghost predicate Step(s: State, t: Tid, s': State) {
    Enabled(s, t) && (s' == Continue(s, t) || (s.pcs[t] == StartArm && s' == Refused(s, t)))
  }

  /** The timer fires, if armed; or another user joins and starts the timer. */
  ghost predicate Spawn(s: State, t: Tid, s': State) {
    t !in s.pcs && ((s.armed && s' == At(s, t, HandlerLock)) || s' == At(s, t, StartLock))
  }

  ghost predicate Next(s: State, s': State) {
    exists t :: Step(s, t, s') || Spawn(s, t, s')
  }

  ghost predicate Run(run: seq<State>) {
    && |run| > 0 && run[0] == State(Unregistered, false, {}, map[], {}, {})
    && forall i :: 0 <= i < |run| - 1 ==> Next(run[i], run[i + 1])
  }

  // ---------------------------------------------------------------------
  // What every run keeps
  // ---------------------------------------------------------------------

  /** What the program counter of one thread says about the shared state. */
  ghost predicate ThreadInv(s: State, t: Tid)
    requires t in s.pcs
  {
    var pc := s.pcs[t];
    && (Holding(pc) <==> t in s.owner)
    && (InHandler(pc) ==> s.armed)
    && (Active(pc) ==> s.timer == Triggered)
    && (pc == HandlerMark(true) || pc == HandlerUnlock(true) ==> s.timer == Triggered)
    && (pc == HandlerMark(false) ==> s.timer == Registered)
    && (pc == StartArm ==> s.timer == Unregistered && !s.armed)
    && (pc == StartMark ==> s.timer == Unregistered && s.armed)
  }

  /** What is recorded of one thread, and what a call that succeeds leaves. */
  ghost predicate RecordInv(s: State, t: Tid)
    requires t in s.pcs
  {
    var pc := s.pcs[t];
    && (pc == StartUnlock(true) || pc == Finished(Started) ==> s.armed && s.timer != Unregistered)
    && (t in s.refused <==> pc == StartUnlock(false) || pc == Finished(NotStarted))
    && (t in s.promoters <==> HasPromoted(pc))
  }

  predicate HasPromoted(pc: PC) {
    pc == HandlerRelock || pc == HandlerUnmark || pc == HandlerUnlockLast || pc == Finished(Promoted)
  }

  ghost predicate Inv(s: State) {
    && (forall t :: t in s.pcs ==> ThreadInv(s, t) && RecordInv(s, t))
    && s.owner <= s.pcs.Keys && s.refused <= s.pcs.Keys && s.promoters <= s.pcs.Keys
    && (forall t, u :: t in s.owner && u in s.owner ==> t == u)
    && (forall t, u :: t in s.pcs && u in s.pcs && Active(s.pcs[t]) && Active(s.pcs[u]) ==> t == u)
    && (s.timer == Triggered ==> exists t :: t in s.pcs && Active(s.pcs[t]))
    && (s.timer != Unregistered ==> s.armed)
    && (s.armed && s.timer == Unregistered ==> exists t :: t in s.owner && s.pcs[t] == StartMark)
  }

  /** A step of `t` keeps what is known of every other thread. */
  lemma OthersKeep(s: State, t: Tid, s': State, u: Tid)
    requires Inv(s) && Step(s, t, s') && u in s.pcs && u != t
    ensures u in s'.pcs && s'.pcs[u] == s.pcs[u] && ThreadInv(s', u) && RecordInv(s', u)
  {
    assert ThreadInv(s, t) && ThreadInv(s, u) && RecordInv(s, u);
  }

  /** What the holder of the mutex knows of the timer. */
  ghost predicate HolderKnows(s: State, t: Tid)
    requires t in s.pcs
  {
    && (s.timer != Unregistered ==> s.armed)
    && (t in s.owner && s.armed && s.timer == Unregistered ==> s.pcs[t] == StartMark)
  }

  lemma OwnKeeps(s: State, t: Tid, s': State)
    requires t in s.pcs && ThreadInv(s, t) && HolderKnows(s, t) && Step(s, t, s')
    ensures t in s'.pcs && ThreadInv(s', t)
  {
  }

  lemma OwnRecords(s: State, t: Tid, s': State)
    requires t in s.pcs && ThreadInv(s, t) && RecordInv(s, t) && HolderKnows(s, t) && Step(s, t, s')
    ensures t in s'.pcs && RecordInv(s', t)
  {
  }

  /** If the timer is triggered after a step, some instance is active. */
  lemma WorkerKeeps(s: State, t: Tid, s': State)
    requires Inv(s) && Step(s, t, s') && s'.timer == Triggered
    ensures exists w :: w in s'.pcs && Active(s'.pcs[w])
  {
    assert ThreadInv(s, t);
    if s.timer == Triggered {
      var w :| w in s.pcs && Active(s.pcs[w]);
      assert ThreadInv(s, w);
      assert w in s'.pcs && Active(s'.pcs[w]);
    } else {
      assert Active(s'.pcs[t]);
    }
  }

  /** The timer is armed before it is registered only while its creator holds the
      mutex: a step of anybody else would need that mutex. */
  lemma ArmedKeeps(s: State, t: Tid, s': State)
    requires Inv(s) && Step(s, t, s') && s'.armed && s'.timer == Unregistered
    ensures exists w :: w in s'.owner && w in s'.pcs && s'.pcs[w] == StartMark
  {
    assert ThreadInv(s, t);
    var w := if s.armed then MarkerOf(s) else t;
    assert ThreadInv(s, w);
    assert w in s'.owner && s'.pcs[w] == StartMark;
  }

  ghost function MarkerOf(s: State): (w: Tid)
    requires Inv(s) && s.armed && s.timer == Unregistered
    ensures w in s.owner && w in s.pcs && s.pcs[w] == StartMark
  {
    var w :| w in s.owner && s.pcs[w] == StartMark;
    w
  }

  /** A step leaves at most one instance active. */
  lemma OneActive(s: State, t: Tid, s': State, u: Tid, v: Tid)
    requires Inv(s) && Step(s, t, s')
    requires u in s'.pcs && v in s'.pcs && Active(s'.pcs[u]) && Active(s'.pcs[v])
    ensures u == v
  {
    assert ThreadInv(s, t) && s'.pcs.Keys == s.pcs.Keys;
    assert ThreadInv(s, u) && ThreadInv(s, v);
    if u == t {
      BecomesActive(s, t, s', v);
    } else if v == t {
      BecomesActive(s, t, s', u);
    }
  }

  /** An instance that becomes active does so when no other is. */
  lemma BecomesActive(s: State, t: Tid, s': State, u: Tid)
    requires t in s.pcs && u in s.pcs && ThreadInv(s, t) && ThreadInv(s, u) && Step(s, t, s')
    requires t in s'.pcs && u in s'.pcs && Active(s'.pcs[t]) && Active(s'.pcs[u])
    requires Active(s.pcs[t]) && Active(s.pcs[u]) ==> t == u
    ensures t == u
  {
  }

  lemma StepKeepsInv(s: State, t: Tid, s': State)
    requires Inv(s) && Step(s, t, s')
    ensures Inv(s')
  {
    forall u | u in s'.pcs
      ensures ThreadInv(s', u) && RecordInv(s', u)
    {
      if u == t {
        assert ThreadInv(s, t) && RecordInv(s, t);
        OwnKeeps(s, t, s');
        OwnRecords(s, t, s');
      } else {
        OthersKeep(s, t, s', u);
      }
    }
    forall u, v | u in s'.pcs && v in s'.pcs && Active(s'.pcs[u]) && Active(s'.pcs[v])
      ensures u == v
    {
      OneActive(s, t, s', u, v);
    }
    if s'.timer == Triggered {
      WorkerKeeps(s, t, s');
    }
    if s'.armed && s'.timer == Unregistered {
      ArmedKeeps(s, t, s');
    }
  }

  lemma SpawnKeepsInv(s: State, t: Tid, s': State)
    requires Inv(s) && Spawn(s, t, s')
    ensures Inv(s')
  {
    forall u | u in s'.pcs
      ensures ThreadInv(s', u) && RecordInv(s', u)
    {
      if u != t {
        assert ThreadInv(s, u) && RecordInv(s, u);
      }
    }
    if s'.timer == Triggered {
      var w :| w in s.pcs && Active(s.pcs[w]);
      assert w in s'.pcs && Active(s'.pcs[w]);
    }
    if s'.armed && s'.timer == Unregistered {
      var w :| w in s.owner && s.pcs[w] == StartMark;
      assert w in s'.owner && s'.pcs[w] == StartMark;
    }
  }

  lemma {:induction false} RunKeepsInv(run: seq<State>, i: nat)
    requires Run(run) && i < |run|
    ensures Inv(run[i])
  {
    if i > 0 {
      RunKeepsInv(run, i - 1);
      assert Next(run[i - 1], run[i - 1 + 1]);
      var t :| Step(run[i - 1], t, run[i]) || Spawn(run[i - 1], t, run[i]);
      if Step(run[i - 1], t, run[i]) {
        StepKeepsInv(run[i - 1], t, run[i]);
      } else {
        SpawnKeepsInv(run[i - 1], t, run[i]);
      }
    }
  }

  // ---------------------------------------------------------------------
  // What the timer is for
  // ---------------------------------------------------------------------

  /** In every run, instances never overlap, and one is past the check exactly while
      the state is TRIGGERED. */
  lemma NeverOverlaps(run: seq<State>, i: nat, t: Tid, u: Tid)
    requires Run(run) && i < |run|
    requires t in run[i].pcs && u in run[i].pcs && Active(run[i].pcs[t]) && Active(run[i].pcs[u])
    ensures t == u
  {
    RunKeepsInv(run, i);
  }

  lemma ActiveExactlyWhenTriggered(run: seq<State>, i: nat)
    requires Run(run) && i < |run|
    ensures (exists t :: t in run[i].pcs && Active(run[i].pcs[t])) <==> run[i].timer == Triggered
  {
    RunKeepsInv(run, i);
    if t :| t in run[i].pcs && Active(run[i].pcs[t]) {
      assert ThreadInv(run[i], t);
    }
  }

  /** An instance gives way only to another one that is active at that moment, and
      starting the timer never disturbs a running instance. */
  lemma GivesWayOnlyToAnother(run: seq<State>, i: nat, t: Tid)
    requires Run(run) && i < |run| && t in run[i].pcs
    ensures run[i].pcs[t] == HandlerUnlock(true) ==>
      exists u :: u != t && u in run[i].pcs && Active(run[i].pcs[u])
    ensures run[i].pcs[t] == StartMark ==> forall u :: u in run[i].pcs ==> !Active(run[i].pcs[u])
  {
    RunKeepsInv(run, i);
    assert ThreadInv(run[i], t);
    forall u | u in run[i].pcs
      ensures ThreadInv(run[i], u)
    {
    }
  }

  // ---------------------------------------------------------------------
  // What calls and instances come to
  // ---------------------------------------------------------------------

  /** A call that has returned success leaves the timer armed and registered, for good; a
      call fails exactly if the timer could not be created or started for it. */
  lemma StartedExactlyWhen(run: seq<State>, i: nat, t: Tid)
    requires Run(run) && i < |run| && t in run[i].pcs
    ensures run[i].pcs[t] == Finished(Started) ==> run[i].armed && run[i].timer != Unregistered
    ensures run[i].pcs[t] == Finished(NotStarted) ==> t in run[i].refused
    ensures t in run[i].refused && run[i].pcs[t].Finished? ==> run[i].pcs[t] == Finished(NotStarted)
  {
    RunKeepsInv(run, i);
    assert RecordInv(run[i], t);
  }

  /** An instance that has ended has promoted the pending users, unless it gave way. */
  lemma PromotedExactlyWhen(run: seq<State>, i: nat, t: Tid)
    requires Run(run) && i < |run| && t in run[i].pcs && run[i].pcs[t].Finished?
    ensures t in run[i].promoters <==> run[i].pcs[t] == Finished(Promoted)
  {
    RunKeepsInv(run, i);
    assert RecordInv(run[i], t);
  }

  /** How many statements are left to a thread, at most. */
  function Left(pc: PC): nat {
    match pc
    case HandlerLock => 8
    case HandlerCheck => 7
    case HandlerMark(_) => 6
    case HandlerUnlock(_) => 5
    case HandlerWork => 4
    case HandlerRelock => 3
    case HandlerUnmark => 2
    case HandlerUnlockLast => 1
    case StartLock => 5
    case StartCheck => 4
    case StartArm => 3
    case StartMark => 2
    case StartUnlock(_) => 1
    case Finished(_) => 0
  }

  /** Every step brings its thread closer to its end. */
  lemma StepsEnd(s: State, t: Tid, s': State)
    requires Step(s, t, s')
    ensures t in s'.pcs && Left(s'.pcs[t]) < Left(s.pcs[t])
    ensures forall u :: u in s.pcs && u != t ==> u in s'.pcs && s'.pcs[u] == s.pcs[u]
  {
  }

  /** Some thread can always move, until all have ended. */
  lemma NoDeadlock(run: seq<State>, i: nat, t: Tid)
    requires Run(run) && i < |run| && t in run[i].pcs && !run[i].pcs[t].Finished?
    ensures exists u, s' :: Step(run[i], u, s')
  {
    RunKeepsInv(run, i);
    var s := run[i];
    assert ThreadInv(s, t);
    var u := t;
    if s.owner != {} {
      u :| u in s.owner;
    }
    assert ThreadInv(s, u);
    assert Step(s, u, Continue(s, u));
  }

  /** When all have ended the mutex is free, and the timer is registered if any call has
      started it. */
  lemma AllEnded(run: seq<State>, i: nat)
    requires Run(run) && i < |run| && forall t :: t in run[i].pcs ==> run[i].pcs[t].Finished?
    ensures run[i].owner == {} && run[i].timer != Triggered
    ensures run[i].timer == Registered <==> run[i].armed
    ensures forall t :: t in run[i].pcs && run[i].pcs[t] == Finished(Started) ==> run[i].timer == Registered
  {
    RunKeepsInv(run, i);
    forall t | t in run[i].pcs
      ensures ThreadInv(run[i], t) && RecordInv(run[i], t)
    {
    }
  }

  // ---------------------------------------------------------------------
  // And it does happen
  // ---------------------------------------------------------------------

  ghost predicate Reachable(s: State) {
    exists run :: Run(run) && run[|run| - 1] == s
  }

  lemma Reach(s: State, s': State)
    requires Reachable(s) && Next(s, s')
    ensures Reachable(s')
  {
    var run :| Run(run) && run[|run| - 1] == s;
    var longer := run + [s'];
    forall i | 0 <= i < |longer| - 1
      ensures Next(longer[i], longer[i + 1])
    {
      if i < |run| - 1 {
        assert Next(run[i], run[i + 1]);
      }
    }
    assert longer[|longer| - 1] == s';
  }

  lemma Go(s: State, t: Tid) returns (s': State)
    requires Reachable(s) && Enabled(s, t)
    ensures s' == Continue(s, t) && Reachable(s')
  {
    s' := Continue(s, t);
    assert Step(s, t, s');
    Reach(s, s');
  }

  /** The first call starts the timer. */
  lemma TimerStarts() returns (s: State)
    ensures Reachable(s) && s.armed && s.timer == Registered && s.owner == {} && s.promoters == {}
    ensures s.pcs == map[0 := Finished(Started)]
  {
    var s0 := State(Unregistered, false, {}, map[], {}, {});
    assert Run([s0]) && [s0][|[s0]| - 1] == s0;
    var s1 := At(s0, 0, StartLock);
    assert Spawn(s0, 0, s1);
    Reach(s0, s1);
    var s2 := Go(s1, 0);
    var s3 := Go(s2, 0);
    var s4 := Go(s3, 0);
    var s5 := Go(s4, 0);
    s := Go(s5, 0);
  }

  /** Once the timer is registered and nothing else is going on, an instance that it
      spawns comes to promote the pending users, ... */
  lemma InstanceWorks(s: State, t: Tid) returns (work: State)
    requires Reachable(s) && s.armed && s.timer == Registered && s.owner == {} && t !in s.pcs
    ensures Reachable(work) && t in work.pcs && work.pcs[t] == HandlerWork
    ensures work.timer == Triggered && work.owner == {}
  {
    var s1 := At(s, t, HandlerLock);
    assert Spawn(s, t, s1);
    Reach(s, s1);
    var s2 := Go(s1, t);
    var s3 := Go(s2, t);
    var s4 := Go(s3, t);
    work := Go(s4, t);
  }

  /** ... and an instance at work can go on to its end, where the timer is registered for
      the next one. */
  lemma InstancePromotes(work: State, t: Tid) returns (end: State)
    requires Reachable(work) && t in work.pcs && work.pcs[t] == HandlerWork && work.owner == {}
    ensures Reachable(end) && t in end.pcs && end.pcs[t] == Finished(Promoted) && t in end.promoters
    ensures end.timer == Registered && end.owner == {}
  {
    var s6 := Go(work, t);
    var s7 := Go(s6, t);
    var s8 := Go(s7, t);
    end := Go(s8, t);
  }
}

/** The two lists of users under their two locks (src/libguac/client.c), one statement at
    a time.

    Any number of threads add, promote, remove and read users. Of the locks it is used
    that a writer is alone, which is what `RwLock.WriterIsAlone` proves of them. The lists
    are sequences, and what the calls should make of them is what `UserLists` proves that
    the pointers make of them (`UserOrder`). A user is added while it is not connected and
    removed while it is.
    A callback of a reader may ask for the write lock of the list; it adds, promotes and
    removes nobody itself.
  */
module UserSteps {

  import opened UserOrder

  type Tid = nat
  type User = nat

  /** A call that changes the lists. A promotion gives up if nobody waits or the join
      handler fails. */
  datatype Call = Add(user: User) | Promote(done: bool) | Remove(user: User)

  datatype PC =
    | Idle
    // guac_client_add_pending_user
    | AddLock(user: User)
    | AddLink(user: User)            // puts the user at the head of the pending list
    | AddCount(user: User)           // connected_users++
    // guac_client_promote_pending_users, past the already-running check
    | PromoteLock
    | PromoteTake                    // empties the pending list, or gives up
    | PromoteLockUsers(list: seq<User>)
    | PromoteSplice(list: seq<User>) // puts the former pending users in front
    | PromoteUnlockUsers
    // guac_client_remove_user
    | RemoveLock(user: User)
    | RemoveLockUsers(user: User)
    | RemoveUnlink(user: User)
    | RemoveCount(user: User)        // connected_users--
    | RemoveUnlockUsers(user: User)
    // the last statement of all three
    | Unlock(call: Call)
    // guac_client_foreach_user and guac_client_foreach_pending_user
    | ReadLock(full: bool)
    | Reading(full: bool)
    // a callback has asked for the write lock of the list: the read lock is gone
    | Upgrading(full: bool)
    | Upgraded(full: bool)           // reads on as the writer

  /** Who holds a lock: a writer, or readers. */
  datatype Lock = Lock(writer: set<Tid>, readers: set<Tid>)

  /** `joined`: the users that have been added and not removed. */
  datatype Data = Data(full: seq<User>, waiting: seq<User>, connected: int, joined: set<User>) {
    function Both(): Lists<User> {
      Lists(full, waiting)
    }

    function WithLists(l: Lists<User>): Data {
      this.(full := l.full, waiting := l.waiting)
    }
  }

  /** `returned`: the calls that have returned, in that order. */
  datatype State = State(data: Data, pending: Lock, users: Lock, pcs: map<Tid, PC>, returned: seq<Call>)

  predicate Free(lock: Lock) {
    lock.writer == {} && lock.readers == {}
  }

  // ---------------------------------------------------------------------
  // Steps
  // ---------------------------------------------------------------------

  /** Statements that change the lists or the count. */
  ghost predicate DataStep(d: Data, pc: PC, d': Data, pc': PC) {
    match pc
    case AddLink(u) =>
      u !in d.joined && pc' == AddCount(u) && d' == d.(waiting := [u] + d.waiting, joined := d.joined + {u})
    case AddCount(u) => pc' == Unlock(Add(u)) && d' == d.(connected := d.connected + 1)
    case PromoteTake =>
      || (pc' == Unlock(Promote(false)) && d' == d)
      || (d.waiting != [] && pc' == PromoteLockUsers(d.waiting) && d' == d.(waiting := []))
    case PromoteSplice(list) => pc' == PromoteUnlockUsers && d' == d.(full := list + d.full)
    case RemoveUnlink(u) =>
      u in d.joined && pc' == RemoveCount(u) &&
      d' == d.(full := Without(d.full, u), waiting := Without(d.waiting, u), joined := d.joined - {u})
    case RemoveCount(u) => pc' == RemoveUnlockUsers(u) && d' == d.(connected := d.connected - 1)
    case _ => false
  }

  predicate Begins(pc: PC, pc': PC) {
    pc == Idle && (pc'.AddLock? || pc'.PromoteLock? || pc'.RemoveLock? || pc'.ReadLock?)
  }

  /** Statements that lock or unlock the pending list. */
  ghost predicate PendingStep(lock: Lock, t: Tid, pc: PC, lock': Lock, pc': PC) {
    match pc
    case AddLock(u) => Free(lock) && lock' == Lock({t}, {}) && pc' == AddLink(u)
    case PromoteLock => Free(lock) && lock' == Lock({t}, {}) && pc' == PromoteTake
    case RemoveLock(u) => Free(lock) && lock' == Lock({t}, {}) && pc' == RemoveLockUsers(u)
    case Unlock(_) => lock' == Lock({}, {}) && pc' == Idle
    case ReadLock(full) =>
      !full && lock.writer == {} && lock' == Lock({}, lock.readers + {t}) && pc' == Reading(false)
    case Reading(full) =>
      !full && lock' == lock.(readers := lock.readers - {t}) && (pc' == Idle || pc' == Upgrading(false))
    case Upgrading(full) => !full && Free(lock) && lock' == Lock({t}, {}) && pc' == Upgraded(false)
    case Upgraded(full) => !full && lock' == Lock({}, {}) && pc' == Idle
    case _ => false
  }

  /** Statements that lock or unlock the list of full users. */
  ghost predicate UsersStep(lock: Lock, t: Tid, pc: PC, lock': Lock, pc': PC) {
    match pc
    case PromoteLockUsers(list) => Free(lock) && lock' == Lock({t}, {}) && pc' == PromoteSplice(list)
    case RemoveLockUsers(u) => Free(lock) && lock' == Lock({t}, {}) && pc' == RemoveUnlink(u)
    case PromoteUnlockUsers => lock' == Lock({}, {}) && pc' == Unlock(Promote(true))
    case RemoveUnlockUsers(u) => lock' == Lock({}, {}) && pc' == Unlock(Remove(u))
    case ReadLock(full) =>
      full && lock.writer == {} && lock' == Lock({}, lock.readers + {t}) && pc' == Reading(true)
    case Reading(full) =>
      full && lock' == lock.(readers := lock.readers - {t}) && (pc' == Idle || pc' == Upgrading(true))
    case Upgrading(full) => full && Free(lock) && lock' == Lock({t}, {}) && pc' == Upgraded(true)
    case Upgraded(full) => full && lock' == Lock({}, {}) && pc' == Idle
    case _ => false
  }

  /** A step of a thread from `pc` to `pc'`. */
  ghost predicate Moves(s: State, t: Tid, pc: PC, s': State, pc': PC) {
    || (DataStep(s.data, pc, s'.data, pc') && s'.pending == s.pending && s'.users == s.users)
    || (Begins(pc, pc') && s'.data == s.data && s'.pending == s.pending && s'.users == s.users)
    || (PendingStep(s.pending, t, pc, s'.pending, pc') && s'.data == s.data && s'.users == s.users)
    || (UsersStep(s.users, t, pc, s'.users, pc') && s'.data == s.data && s'.pending == s.pending)
  }

  ghost predicate Step(s: State, t: Tid, s': State) {
    && t in s.pcs && t in s'.pcs && s'.pcs == s.pcs[t := s'.pcs[t]]
    && Moves(s, t, s.pcs[t], s', s'.pcs[t])
    && s'.returned == if s.pcs[t].Unlock? then s.returned + [s.pcs[t].call] else s.returned
  }

  ghost predicate Next(s: State, s': State) {
    exists t :: Step(s, t, s')
  }

  ghost predicate Initial(s: State) {
    && s.data == Data([], [], 0, {}) && s.returned == [] && Free(s.pending) && Free(s.users)
    && forall t :: t in s.pcs ==> s.pcs[t] == Idle
  }

  ghost predicate Run(run: seq<State>) {
    && |run| > 0 && Initial(run[0])
    && forall i :: 0 <= i < |run| - 1 ==> Next(run[i], run[i + 1])
  }

  // ---------------------------------------------------------------------
  // What every run keeps
  // ---------------------------------------------------------------------

  /** The statements executed as the writer of the pending list. */
  predicate WritesPending(pc: PC) {
    match pc
    case Idle | AddLock(_) | PromoteLock | RemoveLock(_) | ReadLock(_) | Reading(_) | Upgrading(_) => false
    case Upgraded(full) => !full
    case _ => true
  }

  /** The statements executed as the writer of the list of full users. */
  predicate WritesFull(pc: PC) {
    match pc
    case PromoteSplice(_) | PromoteUnlockUsers | RemoveUnlink(_) | RemoveCount(_) | RemoveUnlockUsers(_) => true
    case Upgraded(full) => full
    case _ => false
  }

  /** The users that are on neither list because they are being promoted. */
  function Moving(pc: PC): seq<User> {
    match pc
    case PromoteLockUsers(list) => list
    case PromoteSplice(list) => list
    case _ => []
  }

  /** By how much the count is behind. */
  function Due(pc: PC): int {
    if pc.AddCount? then 1 else if pc.RemoveCount? then -1 else 0
  }

  ghost predicate LockInv(lock: Lock) {
    && (forall t, u :: t in lock.writer && u in lock.writer ==> t == u)
    && (lock.writer != {} ==> lock.readers == {})
  }

  /** Who holds the locks is told by the program counters. */
  ghost predicate HoldInv(s: State, t: Tid, pc: PC) {
    && (t in s.pending.writer <==> WritesPending(pc)) && (t in s.users.writer <==> WritesFull(pc))
    && (t in s.pending.readers <==> pc == Reading(false)) && (t in s.users.readers <==> pc == Reading(true))
  }

  /** Every user that has joined is listed, once, and counted. */
  ghost predicate Listed(all: seq<User>, joined: set<User>, count: int) {
    Distinct(all) && (forall u :: u in joined <==> u in all) && count == |joined|
  }

  /** Every user that has joined is in exactly one place, once, and the count is behind
      by `due`. */
  ghost predicate Placed(d: Data, moving: seq<User>, due: int) {
    Listed(moving + d.full + d.waiting, d.joined, d.connected + due)
  }

  ghost predicate Inv(s: State) {
    && LockInv(s.pending) && LockInv(s.users) && s.pending.writer <= s.pcs.Keys
    && (forall t :: t in s.pcs ==> HoldInv(s, t, s.pcs[t]))
    && (s.pending.writer == {} ==> Placed(s.data, [], 0))
    && (forall t :: t in s.pcs && t in s.pending.writer ==> Placed(s.data, Moving(s.pcs[t]), Due(s.pcs[t])))
  }

  // Each kind of statement, and the program counters around it.

  lemma DataAround(d: Data, pc: PC, d': Data, pc': PC)
    requires DataStep(d, pc, d', pc')
    ensures WritesPending(pc) && WritesPending(pc') && (WritesFull(pc) <==> WritesFull(pc'))
    ensures !pc.Reading? && !pc'.Reading?
  {
  }

  lemma PendingAround(lock: Lock, t: Tid, pc: PC, lock': Lock, pc': PC)
    requires PendingStep(lock, t, pc, lock', pc') && LockInv(lock)
    requires (t in lock.writer <==> WritesPending(pc)) && (t in lock.readers <==> pc == Reading(false))
    ensures LockInv(lock') && (WritesFull(pc) <==> WritesFull(pc')) && (pc == Reading(true) <==> pc' == Reading(true))
    ensures (t in lock'.writer <==> WritesPending(pc')) && (t in lock'.readers <==> pc' == Reading(false))
    ensures forall v :: v != t ==> (v in lock'.writer <==> v in lock.writer)
    ensures forall v :: v != t ==> (v in lock'.readers <==> v in lock.readers)
  {
  }

  lemma UsersAround(lock: Lock, t: Tid, pc: PC, lock': Lock, pc': PC)
    requires UsersStep(lock, t, pc, lock', pc') && LockInv(lock)
    requires (t in lock.writer <==> WritesFull(pc)) && (t in lock.readers <==> pc == Reading(true))
    ensures LockInv(lock') && (WritesPending(pc) <==> WritesPending(pc'))
    ensures pc == Reading(false) <==> pc' == Reading(false)
    ensures (t in lock'.writer <==> WritesFull(pc')) && (t in lock'.readers <==> pc' == Reading(true))
    ensures forall v :: v != t ==> (v in lock'.writer <==> v in lock.writer)
    ensures forall v :: v != t ==> (v in lock'.readers <==> v in lock.readers)
    ensures Moving(pc') == Moving(pc) && Due(pc') == Due(pc)
  {
  }

  /** A step keeps what the locks say of every thread. */
  lemma PendingKept(s: State, t: Tid, pc: PC, s': State, pc': PC)
    requires HoldInv(s, t, pc) && LockInv(s.pending) && LockInv(s.users) && Moves(s, t, pc, s', pc')
    ensures LockInv(s'.pending)
    ensures (t in s'.pending.writer <==> WritesPending(pc')) && (t in s'.pending.readers <==> pc' == Reading(false))
    ensures forall v :: v != t ==> (v in s'.pending.writer <==> v in s.pending.writer)
    ensures forall v :: v != t ==> (v in s'.pending.readers <==> v in s.pending.readers)
  {
    if PendingStep(s.pending, t, pc, s'.pending, pc') {
      PendingAround(s.pending, t, pc, s'.pending, pc');
    } else if UsersStep(s.users, t, pc, s'.users, pc') {
      UsersAround(s.users, t, pc, s'.users, pc');
    } else if DataStep(s.data, pc, s'.data, pc') {
      DataAround(s.data, pc, s'.data, pc');
    }
  }

  lemma UsersKept(s: State, t: Tid, pc: PC, s': State, pc': PC)
    requires HoldInv(s, t, pc) && LockInv(s.pending) && LockInv(s.users) && Moves(s, t, pc, s', pc')
    ensures LockInv(s'.users)
    ensures (t in s'.users.writer <==> WritesFull(pc')) && (t in s'.users.readers <==> pc' == Reading(true))
    ensures forall v :: v != t ==> (v in s'.users.writer <==> v in s.users.writer)
    ensures forall v :: v != t ==> (v in s'.users.readers <==> v in s.users.readers)
  {
    if UsersStep(s.users, t, pc, s'.users, pc') {
      UsersAround(s.users, t, pc, s'.users, pc');
    } else if PendingStep(s.pending, t, pc, s'.pending, pc') {
      PendingAround(s.pending, t, pc, s'.pending, pc');
    } else if DataStep(s.data, pc, s'.data, pc') {
      DataAround(s.data, pc, s'.data, pc');
    }
  }

  // ---------------------------------------------------------------------
  // The contents
  // ---------------------------------------------------------------------

  /** Inserting a new user anywhere. */
  lemma Inserted(a: seq<User>, b: seq<User>, u: User, joined: set<User>, count: int)
    requires Listed(a + b, joined, count) && u !in joined
    ensures Listed(a + ([u] + b), joined + {u}, count + 1)
  {
    var before, all, n := a + b, a + ([u] + b), |a|;
    assert forall i :: 0 <= i < |all| && i != n ==> all[i] == before[if i < n then i else i - 1];
    assert all[n] == u;
    forall v
      ensures v in all <==> v == u || v in before
    {
      if v in before {
        var i :| 0 <= i < |before| && before[i] == v;
        assert all[if i < n then i else i + 1] == v;
      }
    }
  }

  lemma LinkPlaced(d: Data, u: User)
    requires Placed(d, [], 0) && u !in d.joined
    ensures Placed(d.(waiting := [u] + d.waiting, joined := d.joined + {u}), [], 1)
  {
    assert [] + d.full == d.full;
    Inserted(d.full, d.waiting, u, d.joined, d.connected);
  }

  lemma SplicePlaced(d: Data, list: seq<User>)
    requires Placed(d, list, 0)
    ensures Placed(d.(full := list + d.full), [], 0)
  {
    assert [] + (list + d.full) + d.waiting == list + d.full + d.waiting;
  }

  lemma TakePlaced(d: Data)
    requires Placed(d, [], 0)
    ensures Placed(d.(waiting := []), d.waiting, 0)
  {
    var a, b := d.full, d.waiting;
    assert [] + a + b == a + b && b + a + [] == b + a;
    Swapped(a, b);
  }

  lemma Swapped(a: seq<User>, b: seq<User>)
    requires Distinct(a + b)
    ensures Distinct(b + a) && forall u :: u in b + a <==> u in a + b
  {
    var x, y := a + b, b + a;
    assert forall i :: 0 <= i < |y| ==> y[i] == x[if i < |b| then |a| + i else i - |b|];
  }

  /** Cutting out one user. */
  lemma CutOut(list: seq<User>, k: nat, joined: set<User>, count: int)
    requires k < |list| && Listed(list, joined, count)
    ensures Listed(Cut(list, k), joined - {list[k]}, count - 1)
  {
    var rest := Cut(list, k);
    assert forall i :: 0 <= i < |rest| ==> rest[i] == list[if i < k then i else i + 1];
    forall u
      ensures u in rest <==> u in list && u != list[k]
    {
      if u in list && u != list[k] {
        var i :| 0 <= i < |list| && list[i] == u;
        assert rest[if i < k then i else i - 1] == u;
      }
    }
  }

  lemma CutFront(a: seq<User>, b: seq<User>, k: nat)
    requires k < |a|
    ensures Cut(a, k) + b == Cut(a + b, k) && (a + b)[k] == a[k]
  {
  }

  lemma CutBack(a: seq<User>, b: seq<User>, k: nat)
    requires k < |b|
    ensures a + Cut(b, k) == Cut(a + b, |a| + k) && (a + b)[|a| + k] == b[k]
  {
  }

  lemma OnOneOnly(a: seq<User>, b: seq<User>, u: User)
    requires Distinct(a + b) && u in a
    ensures u !in b
  {
    var i :| 0 <= i < |a| && a[i] == u;
    forall j | 0 <= j < |b|
      ensures b[j] != u
    {
      assert (a + b)[i] == u && (a + b)[|a| + j] == b[j];
    }
  }

  lemma InSecond(a: seq<User>, b: seq<User>, u: User)
    requires u in a + b && u !in a
    ensures u in b
  {
  }

  lemma WithoutBoth(a: seq<User>, b: seq<User>, u: User, joined: set<User>, count: int)
    requires Listed(a + b, joined, count) && u in a + b
    ensures Listed(Without(a, u) + Without(b, u), joined - {u}, count - 1)
  {
    if u in a {
      OnOneOnly(a, b, u);
      var k := Position(a, u);
      CutFront(a, b, k);
      CutOut(a + b, k, joined, count);
    } else {
      InSecond(a, b, u);
      var k := Position(b, u);
      CutBack(a, b, k);
      CutOut(a + b, |a| + k, joined, count);
    }
  }

  lemma UnlinkPlaced(d: Data, u: User)
    requires Placed(d, [], 0) && u in d.joined
    ensures Placed(d.(full := Without(d.full, u), waiting := Without(d.waiting, u), joined := d.joined - {u}), [], -1)
  {
    var a, b := d.full, d.waiting;
    assert [] + a == a && [] + Without(a, u) == Without(a, u);
    WithoutBoth(a, b, u, d.joined, d.connected);
  }

  /** A statement that changes the lists or the count keeps every user in its place. */
  lemma DataPlaced(d: Data, pc: PC, d': Data, pc': PC)
    requires DataStep(d, pc, d', pc') && Placed(d, Moving(pc), Due(pc))
    ensures Placed(d', Moving(pc'), Due(pc'))
  {
    match pc
    case AddLink(u) => LinkPlaced(d, u);
    case AddCount(_) =>
    case PromoteTake => TakePlaced(d);
    case PromoteSplice(list) => SplicePlaced(d, list);
    case RemoveUnlink(u) => UnlinkPlaced(d, u);
    case RemoveCount(_) =>
  }

  // ---------------------------------------------------------------------
  // Runs
  // ---------------------------------------------------------------------

  lemma StepKeepsInv(s: State, t: Tid, s': State)
    requires Inv(s) && Step(s, t, s')
    ensures Inv(s')
  {
    var pc, pc' := s.pcs[t], s'.pcs[t];
    assert HoldInv(s, t, pc);
    PendingKept(s, t, pc, s', pc');
    UsersKept(s, t, pc, s', pc');
    forall v | v in s'.pcs
      ensures HoldInv(s', v, s'.pcs[v])
    {
      assert v != t ==> HoldInv(s, v, s.pcs[v]);
    }
    WriterKept(s, t, s');
    ContentKept(s, t, s');
  }

  lemma WriterKept(s: State, t: Tid, s': State)
    requires Inv(s) && Step(s, t, s')
    ensures s'.pending.writer <= s'.pcs.Keys
  {
    assert forall v :: v in s'.pending.writer ==> v == t || v in s.pending.writer;
  }

  lemma ContentKept(s: State, t: Tid, s': State)
    requires Inv(s) && Step(s, t, s')
    ensures s'.pending.writer == {} ==> Placed(s'.data, [], 0)
    ensures forall v :: v in s'.pcs && v in s'.pending.writer ==> Placed(s'.data, Moving(s'.pcs[v]), Due(s'.pcs[v]))
  {
    var pc, pc' := s.pcs[t], s'.pcs[t];
    assert HoldInv(s, t, pc);
    if DataStep(s.data, pc, s'.data, pc') {
      DataAround(s.data, pc, s'.data, pc');
      DataPlaced(s.data, pc, s'.data, pc');
    } else if UsersStep(s.users, t, pc, s'.users, pc') {
      UsersAround(s.users, t, pc, s'.users, pc');
    }
  }

  lemma {:induction false} RunKeepsInv(run: seq<State>, i: nat)
    requires Run(run) && i < |run|
    ensures Inv(run[i])
  {
    if i > 0 {
      RunKeepsInv(run, i - 1);
      assert Next(run[i - 1], run[i - 1 + 1]);
      var t :| Step(run[i - 1], t, run[i]);
      StepKeepsInv(run[i - 1], t, run[i]);
    }
  }

  // ---------------------------------------------------------------------
  // The order of the calls
  // ---------------------------------------------------------------------

  /** What one call makes of the lists, taken as a whole. */
  ghost function Done(d: Data, call: Call): Data {
    match call
    case Add(u) => d.WithLists(Added(d.Both(), u)).(connected := d.connected + 1, joined := d.joined + {u})
    case Promote(done) => if done then d.WithLists(Promoted(d.Both())) else d
    case Remove(u) => d.WithLists(Removed(d.Both(), u)).(connected := d.connected - 1, joined := d.joined - {u})
  }

  /** What a series of calls makes of empty lists, one after the other. */
  ghost function Outcome(calls: seq<Call>): Data {
    if calls == [] then Data([], [], 0, {}) else Done(Outcome(calls[..|calls| - 1]), calls[|calls| - 1])
  }

  /** What the writer of the pending list has made of `o` so far. */
  ghost predicate Underway(o: Data, pc: PC, d: Data) {
    match pc
    case AddLink(_) | PromoteTake | RemoveLockUsers(_) | RemoveUnlink(_) | Upgraded(_) => d == o
    case AddCount(u) => d == Done(o, Add(u)).(connected := o.connected)
    case PromoteLockUsers(list) => list == o.waiting && d == o.(waiting := [])
    case PromoteSplice(list) => list == o.waiting && d == o.(waiting := [])
    case PromoteUnlockUsers => d == Done(o, Promote(true))
    case RemoveCount(u) => d == Done(o, Remove(u)).(connected := o.connected)
    case RemoveUnlockUsers(u) => d == Done(o, Remove(u))
    case Unlock(call) => d == Done(o, call)
    case _ => true
  }

  ghost predicate OrderInv(s: State) {
    && (s.pending.writer == {} ==> s.data == Outcome(s.returned))
    && (forall t :: t in s.pcs && t in s.pending.writer ==> Underway(Outcome(s.returned), s.pcs[t], s.data))
  }

  lemma DataUnderway(o: Data, d: Data, pc: PC, d': Data, pc': PC)
    requires DataStep(d, pc, d', pc') && Underway(o, pc, d)
    ensures Underway(o, pc', d')
  {
  }

  lemma OutcomeNext(calls: seq<Call>, call: Call)
    ensures Outcome(calls + [call]) == Done(Outcome(calls), call)
  {
    assert (calls + [call])[..|calls|] == calls;
  }

  lemma UnlockKeepsOrder(s: State, t: Tid, s': State)
    requires Inv(s) && OrderInv(s) && Step(s, t, s') && s.pcs[t].Unlock?
    ensures OrderInv(s')
  {
    assert HoldInv(s, t, s.pcs[t]);
    OutcomeNext(s.returned, s.pcs[t].call);
  }

  lemma StepKeepsOrder(s: State, t: Tid, s': State)
    requires Inv(s) && OrderInv(s) && Step(s, t, s') && !s.pcs[t].Unlock?
    ensures OrderInv(s')
  {
    var pc, pc' := s.pcs[t], s'.pcs[t];
    assert HoldInv(s, t, pc);
    PendingKept(s, t, pc, s', pc');
    if DataStep(s.data, pc, s'.data, pc') {
      DataAround(s.data, pc, s'.data, pc');
      DataUnderway(Outcome(s.returned), s.data, pc, s'.data, pc');
    }
  }

  lemma {:induction false} RunKeepsOrder(run: seq<State>, i: nat)
    requires Run(run) && i < |run|
    ensures OrderInv(run[i])
  {
    if i > 0 {
      RunKeepsOrder(run, i - 1);
      RunKeepsInv(run, i - 1);
      assert Next(run[i - 1], run[i - 1 + 1]);
      var t :| Step(run[i - 1], t, run[i]);
      if run[i - 1].pcs[t].Unlock? {
        UnlockKeepsOrder(run[i - 1], t, run[i]);
      } else {
        StepKeepsOrder(run[i - 1], t, run[i]);
      }
    }
  }

  /** Whenever no thread holds the pending-users lock as a writer, lists and count are
      exactly what the calls that have returned make of them one after the other. */
  lemma ListsFollowCalls(run: seq<State>, i: nat)
    requires Run(run) && i < |run| && run[i].pending.writer == {}
    ensures run[i].data == Outcome(run[i].returned)
  {
    RunKeepsOrder(run, i);
  }

  /** Whether a program counter belongs to a call. */
  predicate InCall(pc: PC, call: Call) {
    match pc
    case AddLock(u) => call == Add(u)
    case AddLink(u) => call == Add(u)
    case AddCount(u) => call == Add(u)
    case PromoteLock | PromoteTake | PromoteLockUsers(_) | PromoteSplice(_) | PromoteUnlockUsers => call.Promote?
    case RemoveLock(u) => call == Remove(u)
    case RemoveLockUsers(u) => call == Remove(u)
    case RemoveUnlink(u) => call == Remove(u)
    case RemoveCount(u) => call == Remove(u)
    case RemoveUnlockUsers(u) => call == Remove(u)
    case Unlock(c) => call == c
    case Idle | ReadLock(_) | Reading(_) | Upgrading(_) | Upgraded(_) => false
  }

  /** Whether a program counter belongs to a call that reads a list. */
  predicate InReading(pc: PC, full: bool) {
    pc == ReadLock(full) || pc == Reading(full) || pc == Upgrading(full) || pc == Upgraded(full)
  }

  /** What a call returns as is what it was made as, ... */
  lemma CallGoesOn(s: State, t: Tid, s': State, call: Call)
    requires Step(s, t, s') && InCall(s'.pcs[t], call)
    ensures InCall(s.pcs[t], call) || s.pcs[t] == Idle
  {
  }

  /** ... and a reader stays with its list. */
  lemma ReadingGoesOn(s: State, t: Tid, s': State, full: bool)
    requires Step(s, t, s') && InReading(s'.pcs[t], full)
    ensures InReading(s.pcs[t], full) || s.pcs[t] == Idle
  {
  }

  /** Whenever no thread holds the pending-users lock as a writer, every user that has
      joined is on exactly one of the lists, once, and the count is their number. */
  lemma EveryUserOnOneList(run: seq<State>, i: nat)
    requires Run(run) && i < |run| && run[i].pending.writer == {}
    ensures var d := run[i].data;
      && Distinct(d.full + d.waiting)
      && (forall u :: u in d.joined <==> u in d.full + d.waiting)
      && d.connected == |d.joined|
  {
    RunKeepsInv(run, i);
    assert [] + run[i].data.full + run[i].data.waiting == run[i].data.full + run[i].data.waiting;
  }

  lemma SomewhereElse(d: Data, moving: seq<User>, due: int, u: User)
    requires Placed(d, moving, due) && u in d.joined && u !in d.full && u !in d.waiting
    ensures u in moving
  {
    assert u in moving + d.full + d.waiting;
  }

  /** A user that has joined is on neither list only while it is being promoted, by a
      thread that holds the pending-users lock. */
  lemma MissingOnlyWhileMoving(run: seq<State>, i: nat, u: User)
    requires Run(run) && i < |run| && u in run[i].data.joined
    requires u !in run[i].data.full && u !in run[i].data.waiting
    ensures exists t :: t in run[i].pcs && t in run[i].pending.writer && u in Moving(run[i].pcs[t])
  {
    RunKeepsInv(run, i);
    var s := run[i];
    if s.pending.writer == {} {
      SomewhereElse(s.data, [], 0, u);
      assert false;
    }
    var t :| t in s.pending.writer;
    SomewhereElse(s.data, Moving(s.pcs[t]), Due(s.pcs[t]), u);
  }

  /** A thread reads a list: under the read lock or, after an upgrade, under the write lock. */
  predicate Reads(pc: PC, full: bool) {
    pc == Reading(full) || pc == Upgraded(full)
  }

  /** Nobody changes a list under a reader, except while it waits for an upgrade of its
      lock. */
  lemma ReadersSeeNoChange(run: seq<State>, i: nat, t: Tid, r: Tid)
    requires Run(run) && i + 1 < |run| && Step(run[i], t, run[i + 1])
    requires r in run[i].pcs
    ensures Reads(run[i].pcs[r], true) ==> run[i + 1].data.full == run[i].data.full
    ensures Reads(run[i].pcs[r], false) ==> run[i + 1].data.waiting == run[i].data.waiting
  {
    RunKeepsInv(run, i);
    var s, s' := run[i], run[i + 1];
    var pc, pc' := s.pcs[t], s'.pcs[t];
    assert HoldInv(s, t, pc) && HoldInv(s, r, s.pcs[r]);
    if DataStep(s.data, pc, s'.data, pc') {
      DataAround(s.data, pc, s'.data, pc');
    }
  }

  ghost predicate Reachable(s: State) {
    exists run :: Run(run) && run[|run| - 1] == s
  }

  lemma Reach(s: State, t: Tid, s': State)
    requires Reachable(s) && Step(s, t, s')
    ensures Reachable(s')
  {
    var run :| Run(run) && run[|run| - 1] == s;
    var longer := run + [s'];
    forall i | 0 <= i < |longer| - 1
      ensures Next(longer[i], longer[i + 1])
    {
      if i < |run| - 1 {
        assert Next(run[i], run[i + 1]);
      } else {
        assert Step(longer[i], t, longer[i + 1]);
      }
    }
    assert longer[|longer| - 1] == s';
  }

  /** A thread takes or gives back a lock, or enters a call. */
  ghost predicate LockStep(s: State, t: Tid, pending': Lock, users': Lock, pc': PC)
    requires t in s.pcs
  {
    || (PendingStep(s.pending, t, s.pcs[t], pending', pc') && users' == s.users)
    || (UsersStep(s.users, t, s.pcs[t], users', pc') && pending' == s.pending)
    || (Begins(s.pcs[t], pc') && pending' == s.pending && users' == s.users)
  }

  lemma LockMoves(s: State, t: Tid, pending': Lock, users': Lock, pc': PC) returns (s': State)
    requires Reachable(s) && t in s.pcs && !s.pcs[t].Unlock?
    requires LockStep(s, t, pending', users', pc')
    ensures s' == s.(pending := pending', users := users', pcs := s.pcs[t := pc']) && Reachable(s')
  {
    s' := s.(pending := pending', users := users', pcs := s.pcs[t := pc']);
    Reach(s, t, s');
  }

  lemma DataMoves(s: State, t: Tid, data': Data, pc': PC) returns (s': State)
    requires Reachable(s) && t in s.pcs && DataStep(s.data, s.pcs[t], data', pc')
    ensures s' == s.(data := data', pcs := s.pcs[t := pc']) && Step(s, t, s') && Reachable(s')
  {
    s' := s.(data := data', pcs := s.pcs[t := pc']);
    Reach(s, t, s');
  }

  lemma Returns(s: State, t: Tid) returns (s': State)
    requires Reachable(s) && t in s.pcs && s.pcs[t].Unlock?
    ensures s' == s.(pending := Lock({}, {}), pcs := s.pcs[t := Idle], returned := s.returned + [s.pcs[t].call])
    ensures Reachable(s')
  {
    s' := s.(pending := Lock({}, {}), pcs := s.pcs[t := Idle], returned := s.returned + [s.pcs[t].call]);
    Reach(s, t, s');
  }

  /** Two threads that have done nothing yet. */
  lemma TwoThreads() returns (s: State)
    ensures Reachable(s) && s.data == Data([], [], 0, {}) && Free(s.pending) && Free(s.users) && s.returned == []
    ensures 1 in s.pcs && 2 in s.pcs && s.pcs[1] == s.pcs[2] == Idle
  {
    var free := Lock({}, {});
    s := State(Data([], [], 0, {}), free, free, map[1 := Idle, 2 := Idle], []);
    assert Run([s]) && [s][|[s]| - 1] == s;
  }

  /** A thread that finds the locks free can go so far in adding a user. */
  lemma Adds(s: State, t: Tid, u: User) returns (s': State)
    requires Reachable(s) && t in s.pcs && s.pcs[t] == Idle && Free(s.pending)
    ensures Reachable(s') && s' == s.(pending := Lock({t}, {}), pcs := s.pcs[t := AddLink(u)])
  {
    var s1 := LockMoves(s, t, s.pending, s.users, AddLock(u));
    s' := LockMoves(s1, t, Lock({t}, {}), s.users, AddLink(u));
    assert s'.pcs == s.pcs[t := AddLink(u)];
  }

  lemma StartsReading(s: State, t: Tid) returns (s': State)
    requires Reachable(s) && t in s.pcs && s.pcs[t] == Idle && s.pending == Lock({}, {})
    ensures Reachable(s') && s' == s.(pending := Lock({}, {t}), pcs := s.pcs[t := Reading(false)])
  {
    var s1 := LockMoves(s, t, s.pending, s.users, ReadLock(false));
    s' := LockMoves(s1, t, Lock({}, {t}), s.users, Reading(false));
    assert s'.pcs == s.pcs[t := Reading(false)];
  }

  lemma Upgrades(s: State, t: Tid) returns (s': State)
    requires Reachable(s) && t in s.pcs && s.pcs[t] == Idle && s.pending == Lock({}, {})
    ensures Reachable(s') && s' == s.(pcs := s.pcs[t := Upgrading(false)])
  {
    var s2 := StartsReading(s, t);
    s' := LockMoves(s2, t, Lock({}, {t} - {t}), s.users, Upgrading(false));
    assert s'.pcs == s.pcs[t := Upgrading(false)];
  }

  /** The exception does happen: a reader asks for the write lock, and a user is added
      before it gets it. */
  lemma UpgradingReaderSeesChange() returns (s: State, s': State)
    ensures Reachable(s) && Step(s, 2, s') && s.data.waiting != s'.data.waiting
    ensures 1 in s.pcs && 1 in s'.pcs && s.pcs[1] == s'.pcs[1] == Upgrading(false)
  {
    var s0 := TwoThreads();
    var s1 := Upgrades(s0, 1);
    s := Adds(s1, 2, 7);
    s' := DataMoves(s, 2, s.data.(waiting := [7] + s.data.waiting, joined := s.data.joined + {7}), AddCount(7));
  }

  // ---------------------------------------------------------------------
  // Calls come to their end
  // ---------------------------------------------------------------------

  /** A user can be added, ... */
  lemma AddEnds(s: State, t: Tid, u: User) returns (s': State)
    requires Reachable(s) && t in s.pcs && s.pcs[t] == Idle && Free(s.pending) && u !in s.data.joined
    ensures Reachable(s') && s'.returned == s.returned + [Add(u)]
    ensures s'.data == Done(s.data, Add(u)) && Free(s'.pending) && s'.users == s.users && s'.pcs == s.pcs
  {
    var s1 := Adds(s, t, u);
    var s2 := DataMoves(s1, t, s.data.(waiting := [u] + s.data.waiting, joined := s.data.joined + {u}), AddCount(u));
    var s3 := DataMoves(s2, t, s2.data.(connected := s2.data.connected + 1), Unlock(Add(u)));
    s' := Returns(s3, t);
    assert s'.pcs == s.pcs;
  }

  /** ... and if any users wait they can be promoted. */
  lemma PromoteEnds(s: State, t: Tid) returns (s': State)
    requires Reachable(s) && t in s.pcs && s.pcs[t] == Idle && Free(s.pending) && Free(s.users)
    requires s.data.waiting != []
    ensures Reachable(s') && s'.returned == s.returned + [Promote(true)]
    ensures s'.data == Done(s.data, Promote(true)) && s'.data.waiting == []
  {
    var s1 := LockMoves(s, t, s.pending, s.users, PromoteLock);
    var s2 := LockMoves(s1, t, Lock({t}, {}), s.users, PromoteTake);
    s' := TakeEnds(s2, t);
  }

  lemma TakeEnds(s: State, t: Tid) returns (s': State)
    requires Reachable(s) && t in s.pcs && s.pcs[t] == PromoteTake && Free(s.users) && s.data.waiting != []
    ensures Reachable(s') && s'.returned == s.returned + [Promote(true)]
    ensures s'.data == Done(s.data, Promote(true)) && s'.data.waiting == []
  {
    var list := s.data.waiting;
    var s3 := DataMoves(s, t, s.data.(waiting := []), PromoteLockUsers(list));
    var s4 := LockMoves(s3, t, s3.pending, Lock({t}, {}), PromoteSplice(list));
    var s5 := DataMoves(s4, t, s4.data.(full := list + s4.data.full), PromoteUnlockUsers);
    var s6 := LockMoves(s5, t, s5.pending, Lock({}, {}), Unlock(Promote(true)));
    s' := Returns(s6, t);
  }

  /** Whether a thread waits for a lock. */
  predicate Waits(pc: PC) {
    match pc
    case AddLock(_) | PromoteLock | RemoveLock(_) | PromoteLockUsers(_) | RemoveLockUsers(_) | ReadLock(_) => true
    case Upgrading(_) => true
    case _ => false
  }

  /** What callers see to: a user is added while it is not connected, and removed while it
      is. */
  ghost predicate Legal(s: State, t: Tid)
    requires t in s.pcs
  {
    match s.pcs[t]
    case AddLink(u) => u !in s.data.joined
    case RemoveUnlink(u) => u in s.data.joined
    case _ => true
  }

  ghost predicate CanMove(s: State, t: Tid) {
    exists s' :: Step(s, t, s')
  }

  lemma DataCanMove(s: State, t: Tid, d': Data, pc': PC)
    requires t in s.pcs && DataStep(s.data, s.pcs[t], d', pc')
    ensures CanMove(s, t)
  {
    assert Step(s, t, s.(data := d', pcs := s.pcs[t := pc']));
  }

  lemma LockCanMove(s: State, t: Tid, pending': Lock, users': Lock, pc': PC)
    requires t in s.pcs && !s.pcs[t].Unlock?
    requires LockStep(s, t, pending', users', pc')
    ensures CanMove(s, t)
  {
    assert Step(s, t, s.(pending := pending', users := users', pcs := s.pcs[t := pc']));
  }

  /** A thread that waits for no lock can go on. */
  lemma WaitingForNothing(s: State, t: Tid)
    requires t in s.pcs && s.pcs[t] != Idle && !Waits(s.pcs[t]) && Legal(s, t)
    ensures CanMove(s, t)
  {
    var d, free := s.data, Lock({}, {});
    match s.pcs[t]
    case AddLink(u) => DataCanMove(s, t, d.(waiting := [u] + d.waiting, joined := d.joined + {u}), AddCount(u));
    case AddCount(u) => DataCanMove(s, t, d.(connected := d.connected + 1), Unlock(Add(u)));
    case PromoteTake => DataCanMove(s, t, d, Unlock(Promote(false)));
    case PromoteSplice(list) => DataCanMove(s, t, d.(full := list + d.full), PromoteUnlockUsers);
    case RemoveUnlink(u) =>
      DataCanMove(s, t, d.(full := Without(d.full, u), waiting := Without(d.waiting, u), joined := d.joined - {u}),
                  RemoveCount(u));
    case RemoveCount(u) => DataCanMove(s, t, d.(connected := d.connected - 1), RemoveUnlockUsers(u));
    case PromoteUnlockUsers => LockCanMove(s, t, s.pending, free, Unlock(Promote(true)));
    case RemoveUnlockUsers(u) => LockCanMove(s, t, s.pending, free, Unlock(Remove(u)));
    case Unlock(call) =>
      assert Step(s, t, s.(pending := free, pcs := s.pcs[t := Idle], returned := s.returned + [call]));
    case Reading(full) =>
      if full {
        LockCanMove(s, t, s.pending, s.users.(readers := s.users.readers - {t}), Idle);
      } else {
        LockCanMove(s, t, s.pending.(readers := s.pending.readers - {t}), s.users, Idle);
      }
    case Upgraded(full) =>
      if full {
        LockCanMove(s, t, s.pending, free, Idle);
      } else {
        LockCanMove(s, t, free, s.users, Idle);
      }
  }

  /** Neither lock is held by a thread that is not there. */
  ghost predicate HoldersThere(s: State) {
    s.pending.readers <= s.pcs.Keys && s.users.writer <= s.pcs.Keys && s.users.readers <= s.pcs.Keys
  }

  lemma {:induction false} RunKeepsHolders(run: seq<State>, i: nat)
    requires Run(run) && i < |run|
    ensures HoldersThere(run[i])
  {
    if i > 0 {
      RunKeepsHolders(run, i - 1);
      assert Next(run[i - 1], run[i - 1 + 1]);
      var t :| Step(run[i - 1], t, run[i]);
      StepKeepsHolders(run[i - 1], t, run[i]);
    }
  }

  lemma StepKeepsHolders(s: State, t: Tid, s': State)
    requires HoldersThere(s) && Step(s, t, s')
    ensures HoldersThere(s')
  {
  }

  /** Where the lock of the full list is held, its holder can go on. */
  lemma UsersHolderMoves(s: State)
    requires Inv(s) && HoldersThere(s) && !Free(s.users) && forall t :: t in s.pcs ==> Legal(s, t)
    ensures exists u :: CanMove(s, u)
  {
    var h :| h in s.users.writer + s.users.readers;
    assert HoldInv(s, h, s.pcs[h]);
    WaitingForNothing(s, h);
  }

  /** The two locks never deadlock: as long as some thread is inside a call, some thread can
      go on. */
  lemma NoDeadlock(run: seq<State>, i: nat, t: Tid)
    requires Run(run) && i < |run| && t in run[i].pcs && run[i].pcs[t] != Idle
    requires forall u :: u in run[i].pcs ==> Legal(run[i], u)
    ensures exists u :: CanMove(run[i], u)
  {
    var s := run[i];
    RunKeepsInv(run, i);
    RunKeepsHolders(run, i);
    if !Free(s.users) {
      UsersHolderMoves(s);
    } else if !Free(s.pending) {
      var h :| h in s.pending.writer + s.pending.readers;
      assert HoldInv(s, h, s.pcs[h]);
      FreeUsersGoOn(s, h);
    } else {
      FreeUsersGoOn(s, t);
    }
  }

  /** With the lock of the full list free, a thread that holds the other lock, or that finds
      it free as well, can go on. */
  lemma FreeUsersGoOn(s: State, t: Tid)
    requires t in s.pcs && s.pcs[t] != Idle && Free(s.users) && Legal(s, t)
    requires Free(s.pending) || WritesPending(s.pcs[t]) || s.pcs[t] == Reading(false)
    ensures CanMove(s, t)
  {
    var own := Lock({t}, {});
    match s.pcs[t]
    case AddLock(u) => LockCanMove(s, t, own, s.users, AddLink(u));
    case PromoteLock => LockCanMove(s, t, own, s.users, PromoteTake);
    case RemoveLock(u) => LockCanMove(s, t, own, s.users, RemoveLockUsers(u));
    case PromoteLockUsers(list) => LockCanMove(s, t, s.pending, own, PromoteSplice(list));
    case RemoveLockUsers(u) => LockCanMove(s, t, s.pending, own, RemoveUnlink(u));
    case ReadLock(full) =>
      if full {
        LockCanMove(s, t, s.pending, Lock({}, s.users.readers + {t}), Reading(true));
      } else {
        LockCanMove(s, t, Lock({}, s.pending.readers + {t}), s.users, Reading(false));
      }
    case Upgrading(full) =>
      if full {
        LockCanMove(s, t, s.pending, own, Upgraded(true));
      } else {
        LockCanMove(s, t, own, s.users, Upgraded(false));
      }
    case _ => WaitingForNothing(s, t);
  }
}

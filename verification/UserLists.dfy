/** The two lists of connected users (src/libguac/client.c).

    Every operation here runs with the pending-users write lock held from its first
    to its last access, so the invariant is what holds whenever no thread has that
    lock.
  */
module UserLists {

  import opened UserOrder

  class User {
    var prev: User?
    var next: User?

    constructor () {
      prev := null;
      next := null;
    }
  }

  /** A null-terminated, doubly linked list that starts at `head` and runs through `s`. */
  ghost predicate Linked(head: User?, s: seq<User>)
    reads s
  {
    && (|s| == 0 ==> head == null)
    && (|s| > 0 ==> head == s[0] && s[0].prev == null && s[|s| - 1].next == null)
    && (forall i :: 0 <= i < |s| - 1 ==> s[i].next == s[i + 1])
    && (forall i :: 0 < i < |s| ==> s[i].prev == s[i - 1])
  }

  ghost predicate Apart(s: seq<User>, t: seq<User>) {
    forall i, j :: 0 <= i < |s| && 0 <= j < |t| ==> s[i] != t[j]
  }

  lemma CutKeeps(s: seq<User>, k: nat, t: seq<User>)
    requires k < |s| && Distinct(s) && Apart(s, t)
    ensures Distinct(Cut(s, k)) && Apart(Cut(s, k), t) && Apart(t, Cut(s, k))
    ensures forall i :: 0 <= i < |s| - 1 ==> Cut(s, k)[i] == if i < k then s[i] else s[i + 1]
  {
  }

  lemma Ends(head: User?, s: seq<User>, k: nat)
    requires Linked(head, s) && k < |s|
    ensures s[k].prev == null <==> k == 0
    ensures s[k].next == if k == |s| - 1 then null else s[k + 1]
    ensures k == 0 ==> head == s[k]
  {
    if k > 0 {
      var before: User := s[k - 1];
      assert s[k].prev == before;
    }
  }

  /** The list from `head` after the user at position `k` has been detached. */
  lemma Rehung(head: User?, s: seq<User>, k: nat, next: User?)
    requires k < |s| && (|s| > 1 ==> Linked(Cut(s, k)[0], Cut(s, k)))
    requires k == 0 ==> next == (if |s| == 1 then null else s[1])
    requires k > 0 ==> head == s[0]
    ensures Linked(if k == 0 then next else head, Cut(s, k))
  {
  }

  /** Joins the neighbours of the user at position `k` of a list; another list `t` that
      shares no user with it is not disturbed. */
  method Detach(user: User, ghost s: seq<User>, ghost k: nat, ghost t: seq<User>, ghost head: User?)
    requires |s| > 0 && Linked(s[0], s) && Distinct(s) && k < |s| && s[k] == user
    requires Linked(head, t) && Apart(s, t)
    modifies s
    ensures Linked(head, t)
    ensures |s| > 1 ==> Linked(Cut(s, k)[0], Cut(s, k))
    ensures user.next == old(user.next) && user.prev == old(user.prev)
  {
    assert user.prev == (if k == 0 then null else s[k - 1]);
    assert user.next == (if k == |s| - 1 then null else s[k + 1]);
    if user.prev != null {
      user.prev.next := user.next;
    }
    if user.next != null {
      user.next.prev := user.prev;
    }
    ghost var rest := Cut(s, k);
    assert forall i :: 0 <= i < |rest| ==> rest[i] == if i < k then s[i] else s[i + 1];
  }

  class Client {
    var users: User?
    var pending: User?
    var connected: int
    ghost var full: seq<User>
    ghost var waiting: seq<User>

    /** Both lists are well formed, no user is on two of them or twice on one, and the
        count is the number of users on both. */
    ghost predicate Valid()
      reads this, full, waiting
    {
      && Linked(users, full) && Linked(pending, waiting)
      && Distinct(full) && Distinct(waiting) && Apart(full, waiting)
      && connected == |full| + |waiting|
    }

    ghost function Contents(): Lists<User>
      reads this
    {
      Lists(full, waiting)
    }

    constructor ()
      ensures Valid() && full == [] && waiting == []
    {
      users, pending, connected := null, null, 0;
      full, waiting := [], [];
    }

    /** guac_client_add_pending_user. */
    method AddPending(user: User)
      requires Valid() && user !in full + waiting
      modifies this, user, waiting
      ensures Valid() && waiting == [user] + old(waiting) && full == old(full)
      ensures Contents() == Added(old(Contents()), user)
    {
      user.prev := null;
      user.next := pending;
      if pending != null {
        pending.prev := user;
      }
      pending := user;
      waiting := [user] + waiting;
      connected := connected + 1;
    }

    /** The loop of guac_client_promote_pending_users that looks for the last user. */
    method LastPending() returns (last: User)
      requires Valid() && pending != null
      ensures last == waiting[|waiting| - 1]
    {
      last := pending;
      var user := pending;
      ghost var i := 0;
      while user != null
        invariant 0 <= i <= |waiting|
        invariant user == if i < |waiting| then waiting[i] else null
        invariant i > 0 ==> last == waiting[i - 1]
        decreases |waiting| - i
      {
        last := user;
        user := user.next;
        i := i + 1;
      }
    }

    /** guac_client_promote_pending_users, past the already-running check: all pending
        users move, in order, to the front of the full list, unless there are none or
        the join handler fails. */
    method Promote(handlerFails: bool)
      requires Valid()
      modifies this, full, waiting
      ensures Valid()
      ensures handlerFails ==> waiting == old(waiting) && full == old(full)
      ensures !handlerFails ==> waiting == [] && full == old(waiting) + old(full)
      ensures Contents() == if handlerFails then old(Contents()) else Promoted(old(Contents()))
    {
      if pending == null {
        return;
      }
      if handlerFails {
        return;
      }
      var first := pending;
      var last := LastPending();
      pending := null;
      if users != null {
        users.prev := last;
      }
      last.next := users;
      users := first;
      full, waiting := waiting + full, [];
    }

    /** "Update prev / head": the list a removed first user was on starts at its next. */
    method Rehead(user: User)
      modifies this`users, this`pending
      ensures users == if user.prev == null && old(users) == user then user.next else old(users)
      ensures pending ==
        if user.prev == null && old(users) != user && old(pending) == user then user.next else old(pending)
    {
      if user.prev == null {
        if users == user {
          users := user.next;
        } else if pending == user {
          pending := user.next;
        }
      }
    }

    /** guac_client_remove_user: the user, at position `k` of the full list or of the pending
        list, leaves it. */
    method Remove(user: User, ghost isFull: bool, ghost k: nat)
      requires Valid()
      requires if isFull then k < |full| && full[k] == user else k < |waiting| && waiting[k] == user
      modifies this, full, waiting
      ensures Valid() && Contents() == Removed(old(Contents()), user)
    {
      RemovedIs(user, isFull, k);
      Unlist(user, isFull, k);
    }

    method Unlist(user: User, ghost isFull: bool, ghost k: nat)
      requires Valid()
      requires if isFull then k < |full| && full[k] == user else k < |waiting| && waiting[k] == user
      modifies this, full, waiting
      ensures Valid()
      ensures isFull ==> full == Cut(old(full), k) && waiting == old(waiting)
      ensures !isFull ==> waiting == Cut(old(waiting), k) && full == old(full)
    {
      if isFull {
        Ends(users, full, k);
        CutKeeps(full, k, waiting);
      } else {
        Ends(pending, waiting, k);
        CutKeeps(waiting, k, full);
      }
      ghost var s, head := if isFull then full else waiting, if isFull then users else pending;
      ghost var t, other := if isFull then waiting else full, if isFull then pending else users;
      Rehead(user);
      connected := connected - 1;
      if isFull {
        full := Cut(full, k);
      } else {
        waiting := Cut(waiting, k);
      }
      Detach(user, s, k, t, other);
      Rehung(head, s, k, user.next);
    }

    /** Removing the user is cutting it out of the list it is on. */
    lemma RemovedIs(user: User, isFull: bool, k: nat)
      requires Valid()
      requires if isFull then k < |full| && full[k] == user else k < |waiting| && waiting[k] == user
      ensures Removed(Contents(), user) ==
        if isFull then Lists(Cut(full, k), waiting) else Lists(full, Cut(waiting, k))
    {
      if isFull {
        CutAt(full, user, k);
      } else {
        CutAt(waiting, user, k);
      }
    }
  }
}

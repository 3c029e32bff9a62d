/** What joining, promotion and removal make of the two lists of users
    (src/libguac/client.c), whatever the users are.
  */
module UserOrder {

  /** The full users and those that wait to be promoted, first to last. */
  datatype Lists<T> = Lists(full: seq<T>, waiting: seq<T>)

  /** A new user waits in front of the others. */
  function Added<T>(l: Lists<T>, user: T): Lists<T> {
    l.(waiting := [user] + l.waiting)
  }

  /** All that wait move, in order, in front of the full users. */
  function Promoted<T>(l: Lists<T>): Lists<T> {
    Lists(l.waiting + l.full, [])
  }

  /** Where a user is on a list. */
  ghost function Position<T>(list: seq<T>, user: T): (k: nat)
    requires user in list
    ensures k < |list| && list[k] == user
  {
    var k :| 0 <= k < |list| && list[k] == user;
    k
  }

  ghost function Cut<T>(list: seq<T>, k: nat): seq<T>
    requires k < |list|
  {
    list[..k] + list[k + 1..]
  }

  ghost function Without<T>(list: seq<T>, user: T): seq<T> {
    if user in list then Cut(list, Position(list, user)) else list
  }

  /** A user leaves the list that it is on. */
  ghost function Removed<T>(l: Lists<T>, user: T): Lists<T> {
    Lists(Without(l.full, user), Without(l.waiting, user))
  }

  ghost predicate Distinct<T>(list: seq<T>) {
    forall i, j :: 0 <= i < j < |list| ==> list[i] != list[j]
  }

  /** A user that stands on a list once is cut out where it stands. */
  lemma CutAt<T>(list: seq<T>, user: T, k: nat)
    requires Distinct(list) && k < |list| && list[k] == user
    ensures Without(list, user) == Cut(list, k)
  {
    var p := Position(list, user);
    assert p == k;
  }
}

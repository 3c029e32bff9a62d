/** The map from connection IDs to processes (src/guacd/proc-map.c).

    Every operation is taken as one step: it holds the lock of its bucket throughout.
  */
module ProcMaps {

  import opened Lists

  const MAX_CONNECTIONS := 65536
  const BUCKETS := MAX_CONNECTIONS * 2

  /** A byte of a null-terminated string, as the signed character that it is read as. */
  type Char = c: int | -128 <= c < 128 && c != 0 witness 1

  type Id = seq<Char>

  class Proc {
    const id: Id

    constructor (id: Id)
      ensures this.id == id
    {
      this.id := id;
    }
  }

  datatype Entry = Entry(proc: Proc, element: Element<Proc>)

  // ---------------------------------------------------------------------
  // Hashing
  // ---------------------------------------------------------------------

  /** The hash of a string is the value of its characters as the digits of a number to
      the base 65599, in 32-bit unsigned arithmetic. */
  function Number(id: Id): int {
    if |id| == 0 then 0 else Number(id[..|id| - 1]) * 65599 + id[|id| - 1]
  }

  function Hash(id: Id): nat {
    Number(id) % 0x1_0000_0000
  }

  /** The hash of strings of up to two characters. */
  lemma ShortHashes(c: Char, d: Char)
    ensures Hash([]) == 0 && Hash([c]) == c % 0x1_0000_0000
    ensures Hash([c, d]) == (c * 65599 + d) % 0x1_0000_0000
  {
    assert [c][..0] == [] && [c, d][..1] == [c];
  }

  /** One step modulo 2^32 is the step itself, modulo 2^32. */
  lemma Wraps(a: int, c: int)
    ensures (a % 0x1_0000_0000 * 65599 + c) % 0x1_0000_0000 == (a * 65599 + c) % 0x1_0000_0000
  {
    var q, x := a / 0x1_0000_0000, a % 0x1_0000_0000 * 65599 + c;
    assert a * 65599 + c == (q * 65599 + x / 0x1_0000_0000) * 0x1_0000_0000 + x % 0x1_0000_0000;
  }

  method ClientHash(id: Id) returns (hash: nat)
    ensures hash == Hash(id)
  {
    hash := 0;
    var i := 0;
    while i < |id|
      invariant i <= |id| && hash == Hash(id[..i])
    {
      assert id[..i + 1][..i] == id[..i];
      Wraps(Number(id[..i]), id[i]);
      hash := (hash * 65599 + id[i]) % 0x1_0000_0000;
      i := i + 1;
    }
    assert id[..i] == id;
  }

  /** Only the even buckets are ever used, since the macro for the number of buckets
      expands without parentheses. */
  function BucketOf(id: Id): (index: nat)
    ensures index < 131072 && index % 2 == 0 && index / 2 == Hash(id) % 65536
  {
    Hash(id) % MAX_CONNECTIONS * 2
  }

  // ---------------------------------------------------------------------
  // What ties the buckets and the list of processes to the map
  // ---------------------------------------------------------------------

  /** The bucket element of every mapped ID. */
  type Index = map<Id, Element<Entry>>

  /** The elements of bucket `b` are those of the IDs that belong there. */
  ghost predicate Filed(at: Index, b: nat, chain: seq<Element<Entry>>) {
    forall e :: e in chain ==>
      BucketOf(e.data.proc.id) == b && e.data.proc.id in at && at[e.data.proc.id] == e
  }

  /** A mapped ID is in the bucket given, and its entry points at its own element of
      the list of all processes. */
  ghost predicate Present(at: Index, id: Id, chain: seq<Element<Entry>>, all: seq<Element<Proc>>) {
    && id in at && at[id] in chain && at[id].data.proc.id == id
    && at[id].data.element in all && at[id].data.element.data == at[id].data.proc
  }

  /** The list of all processes holds mapped processes only, each in the element that
      its own entry points at. */
  ghost predicate Listed(at: Index, all: seq<Element<Proc>>) {
    forall p :: p in all ==> p.data.id in at && at[p.data.id].data.element == p
  }

  ghost function ProcsOf(at: Index): map<Id, Proc> {
    map id | id in at :: at[id].data.proc
  }

  lemma ProcsGrow(at: Index, id: Id, e: Element<Entry>)
    ensures ProcsOf(at[id := e]) == ProcsOf(at)[id := e.data.proc]
  {
  }

  lemma ProcsShrink(at: Index, id: Id)
    ensures ProcsOf(at - {id}) == ProcsOf(at) - {id}
  {
  }

  lemma FiledGrows(at: Index, b: nat, chain: seq<Element<Entry>>, e: Element<Entry>)
    requires Filed(at, b, chain) && e.data.proc.id !in at
    ensures Filed(at[e.data.proc.id := e], b, chain)
    ensures BucketOf(e.data.proc.id) == b ==> Filed(at[e.data.proc.id := e], b, [e] + chain)
  {
  }

  lemma ListedGrows(at: Index, all: seq<Element<Proc>>, e: Element<Entry>)
    requires Listed(at, all) && e.data.proc.id !in at && e.data.element.data == e.data.proc
    ensures Listed(at[e.data.proc.id := e], [e.data.element] + all)
  {
  }

  ghost predicate Distinct<T>(s: seq<T>) {
    forall i, j :: 0 <= i < j < |s| ==> s[i] != s[j]
  }

  ghost function Without<T>(s: seq<T>, k: nat): seq<T>
    requires k < |s|
  {
    s[..k] + s[k + 1..]
  }

  /** Removing one of distinct elements leaves all the others and only them. */
  lemma WithoutHolds<T>(s: seq<T>, k: nat, x: T)
    requires k < |s| && Distinct(s)
    ensures x in Without(s, k) <==> x in s && x != s[k]
  {
    var t := Without(s, k);
    if x in s && x != s[k] {
      var i :| 0 <= i < |s| && s[i] == x;
      assert t[if i < k then i else i - 1] == x;
    }
  }

  lemma FiledShrinks(at: Index, b: nat, chain: seq<Element<Entry>>, id: Id, k: nat)
    requires Filed(at, b, chain) && id in at && at[id].data.proc.id == id && Distinct(chain)
    requires BucketOf(id) == b ==> k < |chain| && chain[k] == at[id]
    ensures Filed(at - {id}, b, if BucketOf(id) == b then Without(chain, k) else chain)
  {
    if BucketOf(id) == b {
      forall e | e in Without(chain, k)
        ensures e in chain && e != at[id]
      {
        WithoutHolds(chain, k, e);
      }
    }
  }

  lemma PresentShrinks(at: Index, other: Id, chain: seq<Element<Entry>>, all: seq<Element<Proc>>, id: Id,
                       k: nat, p: nat)
    requires Present(at, other, chain, all) && id in at && at[id].data.proc.id == id && other != id
    requires at[id].data.element.data == at[id].data.proc
    requires Distinct(chain) && Distinct(all)
    requires BucketOf(id) == BucketOf(other) ==> k < |chain| && chain[k] == at[id]
    requires p < |all| && all[p] == at[id].data.element
    ensures Present(at - {id}, other,
                    if BucketOf(id) == BucketOf(other) then Without(chain, k) else chain,
                    Without(all, p))
  {
    if BucketOf(id) == BucketOf(other) {
      WithoutHolds(chain, k, at[other]);
    }
    WithoutHolds(all, p, at[other].data.element);
  }

  lemma ListedShrinks(at: Index, all: seq<Element<Proc>>, id: Id, p: nat)
    requires Listed(at, all) && Distinct(all) && id in at && p < |all| && all[p] == at[id].data.element
    ensures Listed(at - {id}, Without(all, p))
  {
    forall q | q in Without(all, p)
      ensures q in all && q != all[p]
    {
      WithoutHolds(all, p, q);
    }
  }

  class ProcMap {
    const buckets: seq<List<Entry>>
    const processes: List<Proc>
    ghost var at: Index

    ghost predicate Shape()
    {
      && |buckets| == BUCKETS
      && forall i, j :: 0 <= i < j < BUCKETS ==> buckets[i] != buckets[j]
    }

    /** A mapped ID is where it belongs. */
    ghost predicate Home(id: Id)
      reads *
      requires Shape()
    {
      Present(at, id, buckets[BucketOf(id)].elements, processes.elements)
    }

    ghost predicate Agrees()
      reads *
      requires Shape()
    {
      && (forall b :: 0 <= b < BUCKETS ==> Filed(at, b, buckets[b].elements))
      && (forall id {:trigger Home(id)} :: id in at ==> Home(id))
      && Listed(at, processes.elements)
    }

    ghost predicate Sound()
      reads *
    {
      && Shape()
      && (forall b :: 0 <= b < BUCKETS ==> buckets[b].Valid())
      && processes.Valid()
    }

    ghost predicate Valid()
      reads *
    {
      Sound() && Agrees()
    }

    /** The map from IDs to processes that this structure stands for. */
    ghost function Contents(): map<Id, Proc>
      reads this
    {
      ProcsOf(at)
    }

    constructor ()
      ensures Valid() && Contents() == map[]
    {
      var made: seq<List<Entry>> := [];
      for i := 0 to BUCKETS
        invariant |made| == i
        invariant forall b :: 0 <= b < i ==> made[b].Valid() && made[b].elements == []
        invariant forall b, c :: 0 <= b < c < i ==> made[b] != made[c]
        invariant forall b :: 0 <= b < i ==> fresh(made[b])
      {
        var bucket := new List<Entry>();
        made := made + [bucket];
      }
      buckets := made;
      processes := new List();
      at := map[];
    }

    method FindBucket(id: Id) returns (bucket: List<Entry>)
      requires Shape()
      ensures bucket == buckets[BucketOf(id)]
    {
      var hash := ClientHash(id);
      bucket := buckets[hash % MAX_CONNECTIONS * 2];
    }

    /** Searches a bucket for an ID. */
    method Find(bucket: List<Entry>, id: Id) returns (found: Element?<Entry>, ghost k: nat)
      requires bucket.Valid()
      ensures found == null ==> forall e :: e in bucket.elements ==> e.data.proc.id != id
      ensures found != null ==>
        k < |bucket.elements| && bucket.elements[k] == found && found.data.proc.id == id
    {
      k := 0;
      found := bucket.head;
      while found != null
        invariant k <= |bucket.elements| && found == bucket.Following(k)
        invariant forall i :: 0 <= i < k ==> bucket.elements[i].data.proc.id != id
        decreases |bucket.elements| - k
      {
        if found.data.proc.id == id {
          return;
        }
        found, k := found.next, k + 1;
      }
    }

    /** Whether a bucket lacks an ID is whether the map does. */
    lemma AbsentExactlyWhen(id: Id)
      requires Valid()
      ensures id !in at <==> forall e :: e in buckets[BucketOf(id)].elements ==> e.data.proc.id != id
    {
      if id in at {
        assert Home(id);
      } else {
        assert Filed(at, BucketOf(id), buckets[BucketOf(id)].elements);
      }
    }

    /** Finds the bucket of an ID and the element in it, if the ID is mapped. */
    method Locate(id: Id) returns (bucket: List<Entry>, found: Element?<Entry>, ghost k: nat)
      requires Valid()
      ensures bucket == buckets[BucketOf(id)] && (found == null <==> id !in at)
      ensures found != null ==> found == at[id] && k < |bucket.elements| && bucket.elements[k] == found
    {
      bucket := FindBucket(id);
      found, k := Find(bucket, id);
      AbsentExactlyWhen(id);
      assert Filed(at, BucketOf(id), bucket.elements);
      assert found != null ==> bucket.elements[k] in bucket.elements;
    }

    /** The process mapped to an ID, or null. */
    method Retrieve(id: Id) returns (proc: Proc?)
      requires Valid()
      ensures proc == if id in Contents() then Contents()[id] else null
    {
      var bucket, found, k := Locate(id);
      proc := if found == null then null else found.data.proc;
    }

    /** Maps the ID of a process to it, unless that ID is mapped already. */
    method Add(proc: Proc) returns (ok: bool)
      requires Valid()
      modifies this, processes, processes.elements
      modifies buckets[BucketOf(proc.id)], buckets[BucketOf(proc.id)].elements
      ensures Valid() && (ok <==> proc.id !in old(Contents()))
      ensures Contents() == if ok then old(Contents())[proc.id := proc] else old(Contents())
    {
      var bucket, found, k := Locate(proc.id);
      if found != null {
        return false;
      }
      ghost var before := at;
      Install(proc, bucket);
      ProcsGrow(before, proc.id, at[proc.id]);
      return true;
    }

    method Install(proc: Proc, bucket: List<Entry>)
      requires Valid() && proc.id !in at && bucket == buckets[BucketOf(proc.id)]
      modifies this, processes, processes.elements, bucket, bucket.elements
      ensures Valid() && proc.id in at && at[proc.id].data.proc == proc && at == old(at)[proc.id := at[proc.id]]
    {
      var e := Insert(proc, bucket, BucketOf(proc.id));
      at := at[proc.id := e];
      forall c | 0 <= c < BUCKETS
        ensures Filed(at, c, buckets[c].elements)
      {
        FiledGrows(old(at), c, old(buckets[c].elements), e);
      }
      forall id | id in at
        ensures Home(id)
      {
        if id != proc.id {
          assert old(Home(id));
        }
      }
      ListedGrows(old(at), old(processes.elements), e);
    }

    /** Adds a process to the list of all processes and an entry for it to its bucket. */
    method Insert(proc: Proc, bucket: List<Entry>, ghost b: nat) returns (e: Element<Entry>)
      requires Sound() && b < BUCKETS && buckets[b] == bucket
      modifies processes, processes.elements, bucket, bucket.elements
      ensures Sound() && e.data.proc == proc && e.data.element.data == proc
      ensures bucket.elements == [e] + old(bucket.elements)
      ensures forall c :: 0 <= c < BUCKETS && c != b ==> buckets[c].elements == old(buckets[c].elements)
      ensures processes.elements == [e.data.element] + old(processes.elements)
    {
      var element := processes.Add(proc);
      assert Sound();
      e := bucket.Add(Entry(proc, element));
    }

    /** Removes the mapping of an ID and returns its process, or null. */
    method Remove(id: Id) returns (proc: Proc?)
      requires Valid()
      modifies this, processes, processes.elements
      modifies buckets[BucketOf(id)], buckets[BucketOf(id)].elements
      ensures Valid() && Contents() == old(Contents()) - {id}
      ensures proc == if id in old(Contents()) then old(Contents())[id] else null
    {
      var bucket, found, k := Locate(id);
      if found == null {
        ProcsShrink(at, id);
        return null;
      }
      ghost var before := at;
      proc := found.data.proc;
      Uninstall(id, bucket, found, k);
      ProcsShrink(before, id);
    }

    method Uninstall(id: Id, bucket: List<Entry>, found: Element<Entry>, ghost k: nat)
      requires Valid() && id in at && found == at[id] && bucket == buckets[BucketOf(id)]
      requires k < |bucket.elements| && bucket.elements[k] == found
      modifies this, processes, processes.elements, bucket, bucket.elements
      ensures Valid() && at == old(at) - {id}
    {
      assert Home(id);
      ghost var p :| 0 <= p < |processes.elements| && processes.elements[p] == found.data.element;
      Extract(bucket, found, BucketOf(id), k, p);
      at := at - {id};
      forall c | 0 <= c < BUCKETS
        ensures Filed(at, c, buckets[c].elements)
      {
        FiledShrinks(old(at), c, old(buckets[c].elements), id, k);
      }
      forall other | other in at
        ensures Home(other)
      {
        assert old(Home(other)) && old(Home(id));
        PresentShrinks(old(at), other, old(buckets[BucketOf(other)].elements), old(processes.elements), id, k, p);
      }
      ListedShrinks(old(at), old(processes.elements), id, p);
    }

    /** Removes an entry from its bucket and its process from the list of all. */
    method Extract(bucket: List<Entry>, found: Element<Entry>, ghost b: nat, ghost k: nat, ghost p: nat)
      requires Sound() && b < BUCKETS && buckets[b] == bucket
      requires k < |bucket.elements| && bucket.elements[k] == found
      requires p < |processes.elements| && processes.elements[p] == found.data.element
      modifies processes, processes.elements, bucket, bucket.elements
      ensures Sound() && bucket.elements == Without(old(bucket.elements), k)
      ensures forall c :: 0 <= c < BUCKETS && c != b ==> buckets[c].elements == old(buckets[c].elements)
      ensures processes.elements == Without(old(processes.elements), p)
    {
      processes.Remove(found.data.element, p);
      assert Sound();
      bucket.Remove(found, k);
    }

    /** Visits every process of the map once and nothing else. */
    method Foreach() returns (visited: seq<Proc>)
      requires Valid()
      ensures forall i, j :: 0 <= i < j < |visited| ==> visited[i] != visited[j]
      ensures forall proc :: proc in visited <==> proc.id in Contents() && Contents()[proc.id] == proc
    {
      visited := [];
      var element := processes.head;
      while element != null
        invariant |visited| <= |processes.elements| && element == processes.Following(|visited|)
        invariant forall i :: 0 <= i < |visited| ==> visited[i] == processes.elements[i].data
        decreases |processes.elements| - |visited|
      {
        visited := visited + [element.data];
        element := element.next;
      }
      AllVisited(visited);
    }

    lemma AllVisited(visited: seq<Proc>)
      requires Valid() && |visited| == |processes.elements|
      requires forall i :: 0 <= i < |visited| ==> visited[i] == processes.elements[i].data
      ensures forall i, j :: 0 <= i < j < |visited| ==> visited[i] != visited[j]
      ensures forall proc :: proc in visited <==> proc.id in Contents() && Contents()[proc.id] == proc
    {
      forall i | 0 <= i < |visited|
        ensures visited[i].id in at && at[visited[i].id].data.element == processes.elements[i]
        ensures at[visited[i].id].data.proc == visited[i]
      {
        assert processes.elements[i] in processes.elements;
        assert Home(visited[i].id);
      }
      forall id | id in at
        ensures at[id].data.proc in visited
      {
        assert Home(id);
        var i :| 0 <= i < |processes.elements| && processes.elements[i] == at[id].data.element;
        assert visited[i] == at[id].data.proc;
      }
    }
  }
}

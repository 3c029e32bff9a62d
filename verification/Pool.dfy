/** Integer pools (src/libguac/pool.c) and the buffer and stream indices that a client
    takes from them (src/libguac/client.c).
  */
module Pools {

  /** The abstract value of a pool: `free` lists the returned integers, oldest first. */
  datatype State = State(minSize: nat, next: nat, free: seq<nat>, outstanding: set<nat>, peak: nat)

  datatype Operation = Take | Give(value: nat)

  /** Whether the next value is a new one. */
  predicate Grows(s: State) {
    |s.free| == 0 || s.next < s.minSize
  }

  function Value(s: State): nat {
    if Grows(s) then s.next else s.free[0]
  }

  function Max(a: nat, b: nat): (m: nat)
    ensures m >= a && m >= b && (m == a || m == b)
  {
    if a < b then b else a
  }

  function Taken(s: State): State {
    var out := s.outstanding + {Value(s)};
    var rest := if Grows(s) then s.free else s.free[1..];
    State(s.minSize, if Grows(s) then s.next + 1 else s.next, rest, out, Max(s.peak, |out|))
  }

  function Given(s: State, value: nat): State {
    s.(free := s.free + [value], outstanding := s.outstanding - {value})
  }

  /** Only integers that are outstanding may be returned. */
  predicate Legal(s: State, op: Operation) {
    op.Give? ==> op.value in s.outstanding
  }

  function After(s: State, op: Operation): State {
    match op
    case Take => Taken(s)
    case Give(value) => Given(s, value)
  }

  ghost predicate Run(minSize: nat, ops: seq<Operation>, states: seq<State>) {
    && |states| == |ops| + 1
    && states[0] == State(minSize, 0, [], {}, 0)
    && forall i :: 0 <= i < |ops| ==> Legal(states[i], ops[i]) && states[i + 1] == After(states[i], ops[i])
  }

  /** The outstanding and the free integers partition those below `next`. */
  ghost predicate Partitioned(s: State) {
    && (forall i, j :: 0 <= i < j < |s.free| ==> s.free[i] != s.free[j])
    && (forall v :: 0 <= v < s.next <==> v in s.outstanding || v in s.free)
    && (forall v :: v in s.free ==> v !in s.outstanding)
    && s.next == |s.outstanding| + |s.free|
  }

  ghost predicate Inv(s: State) {
    && Partitioned(s)
    && |s.outstanding| <= s.peak
    && s.next <= Max(s.minSize, s.peak)
  }

  lemma TakeKeeps(s: State)
    requires Inv(s)
    ensures Inv(Taken(s)) && Value(s) !in s.outstanding
    ensures |Taken(s).outstanding| == |s.outstanding| + 1
  {
    if Grows(s) {
      assert s.next !in s.outstanding;
    } else {
      assert s.free == [s.free[0]] + s.free[1..];
      assert s.free[0] !in s.outstanding;
      assert s.free[0] !in s.free[1..];
    }
  }

  lemma GiveKeeps(s: State, value: nat)
    requires Inv(s) && value in s.outstanding
    ensures Inv(Given(s, value))
    ensures |Given(s, value).outstanding| == |s.outstanding| - 1
  {
    assert s.outstanding == s.outstanding - {value} + {value};
    assert value !in s.free;
  }

  lemma {:induction false} RunKeepsInv(minSize: nat, ops: seq<Operation>, states: seq<State>, i: nat)
    requires Run(minSize, ops, states) && i < |states|
    ensures Inv(states[i]) && states[i].minSize == minSize
  {
    if i > 0 {
      RunKeepsInv(minSize, ops, states, i - 1);
      assert states[i - 1 + 1] == After(states[i - 1], ops[i - 1]);
      match ops[i - 1]
      case Take => TakeKeeps(states[i - 1]);
      case Give(value) => GiveKeeps(states[i - 1], value);
    }
  }

  lemma PeakStep(s: State, op: Operation)
    ensures After(s, op).peak >= s.peak
    ensures After(s, op).peak == s.peak || After(s, op).peak == |After(s, op).outstanding|
  {
  }

  function TakenMany(s: State, n: nat): State {
    if n == 0 then s else Taken(TakenMany(s, n - 1))
  }

  lemma {:induction false} TakenManyFree(s: State, n: nat)
    requires n <= |s.free| && s.next >= s.minSize
    ensures TakenMany(s, n).free == s.free[n..] && TakenMany(s, n).next == s.next
    ensures TakenMany(s, n).minSize == s.minSize
  {
    if n > 0 {
      TakenManyFree(s, n - 1);
    }
  }

  /** Once the minimum is reached, integers are handed out again in the order in which they
      were returned: one that is returned now comes after all those that wait. */
  lemma FirstBackFirstOut(s: State, value: nat, n: nat)
    requires s.next >= s.minSize && n <= |s.free|
    ensures Value(TakenMany(Given(s, value), n)) == if n < |s.free| then s.free[n] else value
  {
    TakenManyFree(Given(s, value), n);
  }

  /** Before that, and whenever none wait, new integers are handed out, in order. */
  lemma {:induction false} NewInOrder(s: State, n: nat)
    requires s.next + n < s.minSize || s.free == []
    ensures Value(TakenMany(s, n)) == s.next + n
    ensures TakenMany(s, n).next == s.next + n && TakenMany(s, n).free == s.free
    ensures TakenMany(s, n).minSize == s.minSize
  {
    if n > 0 {
      NewInOrder(s, n - 1);
    }
  }

  /** `peak` is the largest number of integers that were ever outstanding at once. */
  lemma {:induction false} PeakIsReached(minSize: nat, ops: seq<Operation>, states: seq<State>, i: nat)
    requires Run(minSize, ops, states) && i < |states|
    ensures forall j :: 0 <= j <= i ==> |states[j].outstanding| <= states[i].peak
    ensures exists j :: 0 <= j <= i && |states[j].outstanding| == states[i].peak
  {
    RunKeepsInv(minSize, ops, states, i);
    if i == 0 {
      assert |states[0].outstanding| == states[0].peak;
    } else {
      PeakIsReached(minSize, ops, states, i - 1);
      assert states[i - 1 + 1] == After(states[i - 1], ops[i - 1]);
      PeakStep(states[i - 1], ops[i - 1]);
      var j :| 0 <= j <= i - 1 && |states[j].outstanding| == states[i - 1].peak;
      j := if states[i].peak == states[i - 1].peak then j else i;
      assert |states[j].outstanding| == states[i].peak;
    }
  }

  // ---------------------------------------------------------------------
  // The pool itself
  // ---------------------------------------------------------------------

  class Node {
    const value: nat
    var next: Node?

    constructor (value: nat)
      ensures this.value == value && next == null
    {
      this.value, next := value, null;
    }
  }

  class Pool {
    const minSize: nat
    var active: int
    var nextValue: nat
    var head: Node?
    var tail: Node?

    ghost var nodes: seq<Node>
    ghost var state: State

    /** The nodes form a null-terminated list from `head` to `tail`. */
    ghost predicate Linked()
      reads this, nodes
    {
      && (|nodes| == 0 ==> head == null && tail == null)
      && (|nodes| > 0 ==> head == nodes[0] && tail == nodes[|nodes| - 1] && nodes[|nodes| - 1].next == null)
      && (forall i :: 0 <= i < |nodes| - 1 ==> nodes[i].next == nodes[i + 1])
      && (forall i, j :: 0 <= i < j < |nodes| ==> nodes[i] != nodes[j])
    }

    /** The fields hold what `state` says. */
    ghost predicate Tracks()
      reads this
    {
      && state.minSize == minSize && state.next == nextValue
      && |state.free| == |nodes|
      && (forall i :: 0 <= i < |nodes| ==> nodes[i].value == state.free[i])
    }

    /** What every call keeps, whatever is returned to the pool. */
    ghost predicate Sound()
      reads this, nodes
    {
      Linked() && Tracks()
    }

    /** What every call keeps if only outstanding integers are returned. */
    ghost predicate Valid()
      reads this, nodes
    {
      Sound() && Inv(state) && active == |state.outstanding|
    }

    constructor (size: nat)
      ensures Valid() && state == State(size, 0, [], {}, 0) && nodes == []
    {
      minSize, active, nextValue, head, tail := size, 0, 0, null, null;
      nodes, state := [], State(size, 0, [], {}, 0);
    }

    /** Takes an integer, which is not outstanding in a valid pool. */
    method NextInt() returns (value: nat)
      requires Sound()
      modifies this
      ensures Sound() && state == Taken(old(state)) && value == Value(old(state))
      ensures old(Valid()) ==> Valid() && value !in old(state).outstanding
      ensures nodes == if Grows(old(state)) then old(nodes) else old(nodes)[1..]
    {
      if Inv(state) {
        TakeKeeps(state);
      }
      active := active + 1;
      if head == null || nextValue < minSize {
        value := nextValue;
        nextValue := nextValue + 1;
        state := Taken(state);
        return;
      }
      state := Taken(state);
      value := Pop();
    }

    /** Removes the first node. */
    method Pop() returns (value: nat)
      requires Linked() && head != null
      modifies this`head, this`tail, this`nodes
      ensures Linked() && nodes == old(nodes)[1..] && value == old(nodes)[0].value
    {
      value := head.value;
      if tail == head {
        assert |nodes| == 1;
        head, tail := null, null;
      } else {
        head := head.next;
      }
      nodes := nodes[1..];
    }

    /** Returns an integer, which should be outstanding. */
    method FreeInt(value: nat)
      requires Sound()
      modifies this, nodes
      ensures Sound() && state == Given(old(state), value)
      ensures old(Valid()) && value in old(state).outstanding ==> Valid()
      ensures |nodes| == |old(nodes)| + 1 && nodes[..|old(nodes)|] == old(nodes) && fresh(nodes[|old(nodes)|])
    {
      var node := new Node(value);
      if Inv(state) && value in state.outstanding {
        GiveKeeps(state, value);
      }
      active := active - 1;
      ghost var before := nodes;
      nodes, state := nodes + [node], Given(state, value);
      if tail == null {
        head := node;
      } else {
        tail.next := node;
      }
      tail := node;
      assert forall i :: 0 <= i < |before| - 1 ==> before[i].next == before[i + 1];
    }
  }

  // ---------------------------------------------------------------------
  // The indices of a client
  // ---------------------------------------------------------------------

  const MAX_STREAMS := 64
  const CLOSED_STREAM := -1
  const BUFFER_POOL_SIZE := 1024

  function BufferIndex(value: nat): int {
    var v: int := value;
    -v - 1
  }

  function StreamIndex(slot: nat): int {
    slot * 2 + 1
  }

  class Client {
    const buffers: Pool
    const streams: Pool

    /** The `index` of every output stream. */
    const outputs: array<int>

    ghost predicate Apart()
      reads this, buffers, streams
    {
      buffers != streams && forall i, j :: 0 <= i < |buffers.nodes| && 0 <= j < |streams.nodes| ==>
        buffers.nodes[i] != streams.nodes[j]
    }

    /** A slot of the stream array is open exactly if its number is outstanding. */
    ghost predicate Slots()
      reads this, outputs, streams
    {
      && outputs.Length == MAX_STREAMS
      && streams.state.minSize == 0 && streams.state.peak <= MAX_STREAMS
      && forall s :: 0 <= s < MAX_STREAMS ==>
           outputs[s] == if s in streams.state.outstanding then StreamIndex(s) else CLOSED_STREAM
    }

    ghost predicate Valid()
      reads this, outputs, buffers, buffers.nodes, streams, streams.nodes
    {
      Apart() && buffers.Valid() && streams.Valid() && Slots()
    }

    /** The indices of the buffers in use. */
    ghost function LiveBuffers(): set<int>
      reads this, buffers
    {
      set v | v in buffers.state.outstanding :: BufferIndex(v)
    }

    constructor ()
      ensures Valid() && LiveBuffers() == {} && streams.state.outstanding == {}
      ensures buffers.state == State(1024, 0, [], {}, 0) && outputs[..] == seq(64, _ => -1)
    {
      buffers := new Pool(BUFFER_POOL_SIZE);
      streams := new Pool(0);
      outputs := new int[MAX_STREAMS](_ => CLOSED_STREAM);
    }

    /** A new buffer gets an index that no buffer in use has. */
    method AllocBuffer() returns (index: int)
      requires Valid()
      modifies buffers
      ensures Valid() && index < 0 && -index == Value(old(buffers.state)) + 1
      ensures index !in old(LiveBuffers()) && LiveBuffers() == old(LiveBuffers()) + {index}
    {
      index := buffers.NextInt();
      index := -index - 1;
    }

    method FreeBuffer(index: int)
      requires Valid() && index in LiveBuffers()
      modifies buffers, buffers.nodes
      ensures Valid() && LiveBuffers() == old(LiveBuffers()) - {index}
    {
      buffers.FreeInt(-index - 1);
    }

    /** A new stream takes a slot inside the array that was closed, and is refused only
        while all 64 are open. */
    method AllocStream() returns (slot: int)
      requires Valid()
      modifies streams, outputs
      ensures Valid()
      ensures slot == -1 <==> forall s :: 0 <= s < MAX_STREAMS ==> old(outputs[s]) != CLOSED_STREAM
      ensures slot == -1 ==> outputs[..] == old(outputs[..])
      ensures slot != -1 ==> 0 <= slot < MAX_STREAMS && old(outputs[slot]) == CLOSED_STREAM
      ensures slot != -1 ==> outputs[..] == old(outputs[..])[slot := StreamIndex(slot)]
      ensures slot != -1 ==> outputs[slot] % 2 == 1 && outputs[slot] / 2 == slot
    {
      FullExactlyWhen();
      if streams.active == MAX_STREAMS {
        return -1;
      }
      slot := TakeSlot();
      outputs[slot] := slot * 2 + 1;
    }

    /** The number that is taken is that of a closed slot inside the array. */
    method TakeSlot() returns (slot: nat)
      requires Valid() && streams.active != MAX_STREAMS
      modifies streams
      ensures Apart() && buffers.Valid() && streams.Valid()
      ensures streams.state.minSize == 0 && streams.state.peak <= MAX_STREAMS
      ensures slot < MAX_STREAMS && slot !in old(streams.state).outstanding
      ensures streams.state.outstanding == old(streams.state).outstanding + {slot}
    {
      TakeKeeps(streams.state);
      slot := streams.NextInt();
      assert slot in streams.state.outstanding;
    }

    lemma FullExactlyWhen()
      requires Valid()
      ensures streams.active == MAX_STREAMS <==>
        forall s :: 0 <= s < MAX_STREAMS ==> outputs[s] != CLOSED_STREAM
    {
      if streams.active == MAX_STREAMS {
        AllOpen(streams.state);
      } else {
        SomeClosed(streams.state);
      }
    }

    method FreeStream(slot: nat)
      requires Valid() && slot < MAX_STREAMS && outputs[slot] != CLOSED_STREAM
      modifies streams, streams.nodes, outputs
      ensures Valid() && outputs[..] == old(outputs[..])[slot := CLOSED_STREAM]
    {
      ReturnSlot((outputs[slot] - 1) / 2);
      outputs[slot] := CLOSED_STREAM;
    }

    method ReturnSlot(slot: nat)
      requires Valid() && slot in streams.state.outstanding
      modifies streams, streams.nodes
      ensures Apart() && buffers.Valid() && streams.Valid()
      ensures streams.state == Given(old(streams.state), slot)
    {
      streams.FreeInt(slot);
    }
  }

  ghost function Below(n: nat): (r: set<nat>)
    ensures |r| == n && forall v :: v in r <==> 0 <= v < n
  {
    if n == 0 then {} else Below(n - 1) + {n - 1}
  }

  lemma SubsetCount(a: set<nat>, b: set<nat>)
    requires a <= b
    ensures |a| <= |b| && (|a| == |b| ==> a == b)
  {
    assert b == a + (b - a);
  }

  /** 64 outstanding slots are all the slots. */
  lemma AllOpen(s: State)
    requires Inv(s) && s.minSize == 0 && s.peak <= MAX_STREAMS && |s.outstanding| == MAX_STREAMS
    ensures forall v: nat :: v < MAX_STREAMS ==> v in s.outstanding
  {
    assert s.outstanding <= Below(s.next);
    SubsetCount(s.outstanding, Below(s.next));
  }

  lemma SomeClosed(s: State)
    requires |s.outstanding| < MAX_STREAMS
    ensures exists v: nat :: v < MAX_STREAMS && v !in s.outstanding
  {
    if Below(MAX_STREAMS) <= s.outstanding {
      SubsetCount(Below(MAX_STREAMS), s.outstanding);
    } else {
      var v :| v in Below(MAX_STREAMS) && v !in s.outstanding;
      assert v < MAX_STREAMS;
    }
  }
}

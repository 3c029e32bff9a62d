/** Layer indices (src/libguac/client.c): allocation adds one to the value of the pool,
    and freeing gives the index back as it is.

    Runs of allocations and frees are followed exactly: when the indices in use are
    unique, and when they cannot stay so.
  */
module Layers {

  import opened Pools

  /** The pool, the indices of the layers in use, and those of all layers ever freed. */
  datatype Layers = Layers(pool: State, live: multiset<nat>, freed: multiset<nat>)

  datatype Change = AllocLayer | FreeLayer(index: nat)

  function LayerIndex(value: nat): nat {
    value + 1
  }

  function Start(minSize: nat): Layers {
    Layers(State(minSize, 0, [], {}, 0), multiset{}, multiset{})
  }

  /** The index of the next layer. */
  function NextIndex(s: Layers): nat {
    LayerIndex(Value(s.pool))
  }

  function Allocated(s: Layers): Layers {
    s.(pool := Taken(s.pool), live := s.live + multiset{NextIndex(s)})
  }

  function Released(s: Layers, index: nat): Layers {
    Layers(Given(s.pool, index), s.live - multiset{index}, s.freed + multiset{index})
  }

  /** Only a layer in use can be freed. */
  predicate Possible(s: Layers, change: Change) {
    change.FreeLayer? ==> change.index in s.live
  }

  function Changed(s: Layers, change: Change): Layers {
    match change
    case AllocLayer => Allocated(s)
    case FreeLayer(index) => Released(s, index)
  }

  ghost predicate LayerRun(minSize: nat, changes: seq<Change>, states: seq<Layers>) {
    && |states| == |changes| + 1 && states[0] == Start(minSize)
    && forall i :: 0 <= i < |changes| ==>
         Possible(states[i], changes[i]) && states[i + 1] == Changed(states[i], changes[i])
  }

  /** No two layers in use have the same index. */
  ghost predicate Unique(s: Layers) {
    forall i :: i in s.live ==> s.live[i] == 1
  }

  // ---------------------------------------------------------------------
  // The account of every index
  // ---------------------------------------------------------------------

  function One(b: bool): nat {
    if b then 1 else 0
  }

  /** Of a value there are as many as were handed out for the first time or given back;
      each is a layer in use, a layer freed since, or waits in the pool. */
  ghost predicate BalancedAt(s: Layers, value: nat) {
    s.live[value + 1] + s.freed[value + 1] + multiset(s.pool.free)[value] ==
      One(value < s.pool.next) + s.freed[value]
  }

  ghost predicate Balanced(s: Layers) {
    && (forall value: nat {:trigger BalancedAt(s, value)} :: BalancedAt(s, value))
    && s.live[0] == 0 && s.freed[0] == 0 && multiset(s.pool.free) <= s.freed
  }

  lemma AllocatedBalanced(s: Layers)
    requires Balanced(s)
    ensures Balanced(Allocated(s))
  {
    var s' := Allocated(s);
    var free := s.pool.free;
    if !Grows(s.pool) {
      assert free == [free[0]] + free[1..];
      assert multiset(free) == multiset{free[0]} + multiset(free[1..]);
    }
    forall value: nat
      ensures BalancedAt(s', value)
    {
      assert BalancedAt(s, value);
    }
  }

  lemma ReleasedBalanced(s: Layers, index: nat)
    requires Balanced(s) && index in s.live
    ensures Balanced(Released(s, index))
  {
    var s' := Released(s, index);
    assert multiset(s'.pool.free) == multiset(s.pool.free) + multiset{index};
    forall value: nat
      ensures BalancedAt(s', value)
    {
      assert BalancedAt(s, value);
    }
  }

  lemma {:induction false} RunBalanced(minSize: nat, changes: seq<Change>, states: seq<Layers>, i: nat)
    requires LayerRun(minSize, changes, states) && i < |states|
    ensures Balanced(states[i]) && states[i].pool.minSize == minSize
  {
    if i > 0 {
      RunBalanced(minSize, changes, states, i - 1);
      assert states[i - 1 + 1] == Changed(states[i - 1], changes[i - 1]);
      match changes[i - 1]
      case AllocLayer => AllocatedBalanced(states[i - 1]);
      case FreeLayer(index) => ReleasedBalanced(states[i - 1], index);
    } else {
      forall value: nat
        ensures BalancedAt(states[0], value)
      {
      }
    }
  }

  // ---------------------------------------------------------------------
  // When indices are unique
  // ---------------------------------------------------------------------

  /** How many layers were allocated. */
  function Allocations(changes: seq<Change>): nat {
    if |changes| == 0 then 0
    else Allocations(changes[..|changes| - 1]) + One(changes[|changes| - 1].AllocLayer?)
  }

  /** While nothing that was given back is handed out again, indices are unique. */
  lemma UntouchedUnique(s: Layers)
    requires Balanced(s) && multiset(s.pool.free) == s.freed
    ensures Unique(s)
  {
    forall i | i in s.live
      ensures s.live[i] == 1
    {
      assert BalancedAt(s, i - 1);
    }
  }

  lemma {:induction false} EarlyUntouched(minSize: nat, changes: seq<Change>, states: seq<Layers>, i: nat)
    requires LayerRun(minSize, changes, states) && i < |states| && Allocations(changes[..i]) <= minSize
    ensures states[i].pool.next == Allocations(changes[..i])
    ensures multiset(states[i].pool.free) == states[i].freed
  {
    if i > 0 {
      assert changes[..i][..i - 1] == changes[..i - 1];
      EarlyUntouched(minSize, changes, states, i - 1);
      RunBalanced(minSize, changes, states, i - 1);
      assert states[i - 1 + 1] == Changed(states[i - 1], changes[i - 1]);
    }
  }

  /** The first `minSize` allocations get unique indices, whatever is freed. */
  lemma EarlyUnique(minSize: nat, changes: seq<Change>, states: seq<Layers>, i: nat)
    requires LayerRun(minSize, changes, states) && i < |states| && Allocations(changes[..i]) <= minSize
    ensures Unique(states[i])
  {
    EarlyUntouched(minSize, changes, states, i);
    RunBalanced(minSize, changes, states, i);
    UntouchedUnique(states[i]);
  }

  /** Whether the next layer repeats an index can be told before it is allocated. */
  lemma NextRepeatsExactlyWhen(s: Layers)
    requires Unique(s)
    ensures !Unique(Allocated(s)) <==> NextIndex(s) in s.live
    ensures NextIndex(s) == if Grows(s.pool) then s.pool.next + 1 else s.pool.free[0] + 1
  {
    var s', index := Allocated(s), NextIndex(s);
    assert s'.live[index] == s.live[index] + 1;
    if index !in s.live {
      forall i | i in s'.live
        ensures s'.live[i] == 1
      {
        assert i != index ==> s'.live[i] == s.live[i];
      }
    }
  }

  /** A run has unique indices throughout exactly if no allocation of it meets an index
      in use. */
  lemma {:induction false} RunUniqueExactlyWhen(minSize: nat, changes: seq<Change>, states: seq<Layers>, i: nat)
    requires LayerRun(minSize, changes, states) && i < |states|
    ensures (forall j :: 0 <= j <= i ==> Unique(states[j])) <==>
            (forall j :: 0 <= j < i && changes[j].AllocLayer? ==> NextIndex(states[j]) !in states[j].live)
  {
    if i > 0 {
      RunUniqueExactlyWhen(minSize, changes, states, i - 1);
      assert states[i - 1 + 1] == Changed(states[i - 1], changes[i - 1]);
      if Unique(states[i - 1]) {
        if changes[i - 1].AllocLayer? {
          NextRepeatsExactlyWhen(states[i - 1]);
        } else {
          ReleasedUnique(states[i - 1], changes[i - 1].index);
        }
      }
    }
  }

  lemma ReleasedUnique(s: Layers, index: nat)
    requires Unique(s)
    ensures Unique(Released(s, index))
  {
    forall i | i in Released(s, index).live
      ensures Released(s, index).live[i] == 1
    {
      assert i in s.live;
    }
  }

  // ---------------------------------------------------------------------
  // When they cannot stay so
  // ---------------------------------------------------------------------

  /** A series of allocations and nothing else. */
  function AllocMany(s: Layers, n: nat): Layers {
    if n == 0 then s else Allocated(AllocMany(s, n - 1))
  }

  lemma {:induction false} AllocManyBalanced(s: Layers, n: nat)
    requires Balanced(s)
    ensures Balanced(AllocMany(s, n)) && AllocMany(s, n).freed == s.freed
  {
    if n > 0 {
      AllocManyBalanced(s, n - 1);
      AllocatedBalanced(AllocMany(s, n - 1));
    }
  }

  lemma {:induction false} AllocManyFirst(s: Layers, n: nat)
    ensures AllocMany(s, n + 1) == AllocMany(Allocated(s), n)
  {
    if n > 0 {
      AllocManyFirst(s, n - 1);
    }
  }

  function Short(a: nat, b: nat): nat {
    if a < b then b - a else 0
  }

  /** Enough allocations use up what was given back and reach any value. */
  lemma {:induction false} Exhausts(s: Layers, value: nat) returns (n: nat)
    ensures AllocMany(s, n).pool.free == [] && value < AllocMany(s, n).pool.next
    decreases Short(s.pool.next, s.pool.minSize), |s.pool.free|, Short(s.pool.next, value + 1)
  {
    if s.pool.free == [] && value < s.pool.next {
      n := 0;
    } else {
      n := Exhausts(Allocated(s), value);
      AllocManyFirst(s, n);
      n := n + 1;
    }
  }

  /** The last of a series of neighbouring freed indices. */
  lemma {:induction false} LastFreed(freed: multiset<nat>, index: nat) returns (last: nat)
    requires index in freed
    ensures index <= last && last in freed && last + 1 !in freed
    decreases |freed|
  {
    last := index;
    if index + 1 in freed {
      var others := freed[index := 0];
      assert freed == others + multiset{index}[index := freed[index]];
      last := LastFreed(others, index + 1);
    }
  }

  /** Once a layer has been freed, allocations alone come to repeat an index: the one
      after the last freed. */
  lemma FreedRepeats(s: Layers, index: nat) returns (n: nat, repeated: nat)
    requires Balanced(s) && index in s.freed
    ensures index < repeated && AllocMany(s, n).live[repeated] >= 2
  {
    var last := LastFreed(s.freed, index);
    n := Exhausts(s, last);
    repeated := last + 1;
    AllocManyBalanced(s, n);
    assert BalancedAt(AllocMany(s, n), last);
  }

  /** The exact condition: in whatever way a run has come to a state, the allocations to
      come get unique indices for ever if and only if no layer has ever been freed. */
  lemma UniqueForeverExactlyWhen(minSize: nat, changes: seq<Change>, states: seq<Layers>, i: nat)
    requires LayerRun(minSize, changes, states) && i < |states|
    ensures (forall n: nat :: Unique(AllocMany(states[i], n))) <==> states[i].freed == multiset{}
  {
    var s := states[i];
    RunBalanced(minSize, changes, states, i);
    if s.freed == multiset{} {
      forall n: nat
        ensures Unique(AllocMany(s, n))
      {
        AllocManyBalanced(s, n);
        UntouchedUnique(AllocMany(s, n));
      }
    } else {
      var index :| index in s.freed;
      var n, repeated := FreedRepeats(s, index);
      assert !Unique(AllocMany(s, n)) by {
        assert repeated in AllocMany(s, n).live;
      }
    }
  }

  lemma {:induction false} FreedExactlyWhen(minSize: nat, changes: seq<Change>, states: seq<Layers>, i: nat)
    requires LayerRun(minSize, changes, states) && i < |states|
    ensures states[i].freed == multiset{} <==> forall j :: 0 <= j < i ==> changes[j] == AllocLayer
  {
    if i > 0 {
      FreedExactlyWhen(minSize, changes, states, i - 1);
      assert states[i - 1 + 1] == Changed(states[i - 1], changes[i - 1]);
    }
  }

  // ---------------------------------------------------------------------
  // Witnesses
  // ---------------------------------------------------------------------

  /** A pool filled to its minimum, one layer freed, then more allocated. */
  function Witness(minSize: nat, index: nat): seq<Change> {
    seq(minSize, _ => AllocLayer) + [FreeLayer(index), AllocLayer, AllocLayer]
  }

  lemma {:induction false} Filled(minSize: nat, n: nat)
    requires n <= minSize
    ensures var s := AllocMany(Start(minSize), n);
      && s.pool.next == n && s.pool.free == [] && s.pool.minSize == minSize
      && forall i :: s.live[i] == One(1 <= i <= n)
  {
    if n > 0 {
      Filled(minSize, n - 1);
      var s := AllocMany(Start(minSize), n - 1);
      assert NextIndex(s) == n;
      forall i
        ensures Allocated(s).live[i] == One(1 <= i <= n)
      {
        assert s.live[i] == One(1 <= i <= n - 1);
      }
    }
  }

  /** A run can be extended by any possible change. */
  lemma Extend(minSize: nat, changes: seq<Change>, states: seq<Layers>, change: Change) returns (states': seq<Layers>)
    requires LayerRun(minSize, changes, states) && Possible(states[|changes|], change)
    ensures LayerRun(minSize, changes + [change], states') && states' == states + [Changed(states[|changes|], change)]
  {
    states' := states + [Changed(states[|changes|], change)];
  }

  lemma {:induction false} FilledRun(minSize: nat, n: nat) returns (states: seq<Layers>)
    ensures LayerRun(minSize, seq(n, _ => AllocLayer), states)
    ensures states[n] == AllocMany(Start(minSize), n)
  {
    if n == 0 {
      states := [Start(minSize)];
    } else {
      var before := FilledRun(minSize, n - 1);
      states := Extend(minSize, seq(n - 1, _ => AllocLayer), before, AllocLayer);
      assert seq(n - 1, _ => AllocLayer) + [AllocLayer] == seq(n, _ => AllocLayer);
    }
  }

  lemma FreedRun(minSize: nat, index: nat) returns (states: seq<Layers>)
    requires 1 <= index <= minSize
    ensures LayerRun(minSize, seq(minSize, _ => AllocLayer) + [FreeLayer(index)], states)
    ensures states[minSize] == AllocMany(Start(minSize), minSize)
  {
    Filled(minSize, minSize);
    var full := FilledRun(minSize, minSize);
    assert full[minSize].live[index] == 1;
    states := Extend(minSize, seq(minSize, _ => AllocLayer), full, FreeLayer(index));
  }

  /** There is such a run for every index. */
  lemma WitnessRun(minSize: nat, index: nat) returns (states: seq<Layers>)
    requires 1 <= index <= minSize
    ensures LayerRun(minSize, Witness(minSize, index), states)
    ensures states[minSize] == AllocMany(Start(minSize), minSize)
  {
    var changes := seq(minSize, _ => AllocLayer) + [FreeLayer(index)];
    states := FreedRun(minSize, index);
    states := Extend(minSize, changes, states, AllocLayer);
    states := Extend(minSize, changes + [AllocLayer], states, AllocLayer);
    assert changes + [AllocLayer] + [AllocLayer] == Witness(minSize, index);
  }

  /** The layer allocated after the free gets the index after the freed one, which is in
      use unless the last layer was freed; in that case it is the layer after it that
      repeats an index. So the bound on the first `minSize` allocations is sharp, and
      no index is safe to free. */
  lemma WitnessRepeats(minSize: nat, index: nat) returns (states: seq<Layers>)
    requires 1 <= index <= minSize
    ensures LayerRun(minSize, Witness(minSize, index), states)
    ensures NextIndex(states[minSize + 1]) == index + 1
    ensures Unique(states[minSize + 2]) <==> index == minSize
    ensures !Unique(states[minSize + 3])
  {
    states := WitnessRun(minSize, index);
    var changes := Witness(minSize, index);
    var freed, one := states[minSize + 1], states[minSize + 2];
    assert freed == Changed(states[minSize], changes[minSize]);
    assert one == Changed(freed, changes[minSize + 1]);
    assert states[minSize + 2 + 1] == Changed(one, changes[minSize + 2]);
    TwoMore(minSize, index);
  }

  lemma TwoMore(minSize: nat, index: nat)
    requires 1 <= index <= minSize
    ensures var freed := Released(AllocMany(Start(minSize), minSize), index);
      && NextIndex(freed) == index + 1
      && (Unique(Allocated(freed)) <==> index == minSize)
      && !Unique(Allocated(Allocated(freed)))
  {
    Filled(minSize, minSize);
    var freed := Released(AllocMany(Start(minSize), minSize), index);
    var one := Allocated(freed);
    assert freed.pool.free == [index];
    assert one.live[index + 1] == One(index < minSize) + 1;
    assert Allocated(one).live[index + 1] >= 2;
    assert index + 1 in Allocated(one).live;
    if index == minSize {
      forall i | i in one.live
        ensures one.live[i] == 1
      {
        assert AllocMany(Start(minSize), minSize).live[i] == One(1 <= i <= minSize);
      }
    } else {
      assert index + 1 in one.live;
    }
  }

  // ---------------------------------------------------------------------
  // The calls of the client
  // ---------------------------------------------------------------------

  class Client {
    const pool: Pool
    ghost var layers: Layers

    ghost predicate Valid()
      reads this, pool, pool.nodes
    {
      pool.Sound() && pool.state == layers.pool
    }

    constructor ()
      ensures Valid() && layers == Start(1024)
    {
      pool := new Pool(BUFFER_POOL_SIZE);
      layers := Start(BUFFER_POOL_SIZE);
    }

    /** guac_client_alloc_layer. */
    method AllocLayer() returns (index: nat)
      requires Valid()
      modifies this, pool
      ensures Valid() && layers == Allocated(old(layers)) && index == NextIndex(old(layers))
    {
      var value := pool.NextInt();
      index := value + 1;
      layers := Allocated(layers);
    }

    /** guac_client_free_layer. */
    method FreeLayer(index: nat)
      requires Valid() && index in layers.live
      modifies this, pool, pool.nodes
      ensures Valid() && layers == Released(old(layers), index)
    {
      pool.FreeInt(index);
      layers := Released(layers, index);
    }
  }
}

/**
 * The dining philosophers of hw08/dining2.c: the `State[]` table that Test,
 * PickUp and PutDown update while holding one mutex, with the per-philosopher
 * semaphores and the mutex as integer counters. The table steps are first
 * given as functions on the state sequence, whose safety is proved; the
 * class's methods perform them in place and are tied to those functions.
 */
module Dining {
  const NumMen := 5

  datatype Phase = Thinking | Eating | Hungry

  /** LEFT(i): the neighbour before i around the table. */
  function Left(i: int): (l: int)
    requires 0 <= i < NumMen
    ensures 0 <= l < NumMen && l != i
  {
    (i + NumMen - 1) % NumMen
  }

  /** RIGHT(i): the neighbour after i around the table. */
  function Right(i: int): (r: int)
    requires 0 <= i < NumMen
    ensures 0 <= r < NumMen && r != i
  {
    (i + 1) % NumMen
  }

  /** The two neighbour relations are inverse to each other, and the neighbours are distinct. */
  lemma NeighboursInverse(i: int)
    requires 0 <= i < NumMen
    ensures Right(Left(i)) == i && Left(Right(i)) == i
    ensures Left(i) != Right(i)
  {
  }

  /** No philosopher eats while the right-hand neighbour eats. */
  predicate Safe(s: seq<Phase>)
    requires |s| == NumMen
  {
    forall i :: 0 <= i < NumMen && s[i] == Eating ==> s[Right(i)] != Eating
  }

  /** Safe rules out two eating neighbours on either side. */
  lemma SafeBothSides(s: seq<Phase>, i: int)
    requires |s| == NumMen && Safe(s) && 0 <= i < NumMen && s[i] == Eating
    ensures s[Left(i)] != Eating && s[Right(i)] != Eating
  {
    NeighboursInverse(i);
  }

  /** The guard of Test: id is hungry and neither neighbour is eating. */
  predicate CanEat(s: seq<Phase>, id: int)
    requires |s| == NumMen && 0 <= id < NumMen
  {
    s[id] == Hungry && s[Left(id)] != Eating && s[Right(id)] != Eating
  }

  /** Test(id) on the state table. */
  function TestStep(s: seq<Phase>, id: int): seq<Phase>
    requires |s| == NumMen && 0 <= id < NumMen
  {
    if CanEat(s, id) then s[id := Eating] else s
  }

  /** PickUp(id) on the state table: hungry, then Test(id). */
  function PickUpStep(s: seq<Phase>, id: int): seq<Phase>
    requires |s| == NumMen && 0 <= id < NumMen
  {
    TestStep(s[id := Hungry], id)
  }

  /** PutDown(id) on the state table: thinking, then Test(LEFT(id)) and Test(RIGHT(id)). */
  function PutDownStep(s: seq<Phase>, id: int): seq<Phase>
    requires |s| == NumMen && 0 <= id < NumMen
  {
    var t := s[id := Thinking];
    TestStep(TestStep(t, Left(id)), Right(id))
  }

  /**
   * Test changes at most State[id], and only from HUNGRY to EATING when
   * neither neighbour eats; it keeps the table safe.
   */
  lemma TestStepEffect(s: seq<Phase>, id: int)
    requires |s| == NumMen && 0 <= id < NumMen
    ensures |TestStep(s, id)| == NumMen
    ensures forall j :: 0 <= j < NumMen && j != id ==> TestStep(s, id)[j] == s[j]
    ensures TestStep(s, id)[id] == Eating <==> s[id] == Eating || CanEat(s, id)
    ensures TestStep(s, id)[id] != s[id] ==> s[id] == Hungry
    ensures Safe(s) ==> Safe(TestStep(s, id))
  {
    if Safe(s) && CanEat(s, id) {
      var r := TestStep(s, id);
      forall i | 0 <= i < NumMen && r[i] == Eating
        ensures r[Right(i)] != Eating
      {
        NeighboursInverse(i);
        if i != id && Right(i) != id {
          assert s[i] == Eating;
        }
      }
    }
  }

  /**
   * PickUp leaves id eating exactly when neither neighbour eats, hungry
   * otherwise; nobody else changes and the table stays safe.
   */
  lemma PickUpStepEffect(s: seq<Phase>, id: int)
    requires |s| == NumMen && 0 <= id < NumMen
    ensures var r := PickUpStep(s, id);
      |r| == NumMen &&
      (forall j :: 0 <= j < NumMen && j != id ==> r[j] == s[j]) &&
      (r[id] == Eating <==> s[Left(id)] != Eating && s[Right(id)] != Eating) &&
      (r[id] != Eating ==> r[id] == Hungry) &&
      (Safe(s) ==> Safe(r))
  {
    var h := s[id := Hungry];
    if Safe(s) {
      forall i | 0 <= i < NumMen && h[i] == Eating
        ensures h[Right(i)] != Eating
      {
        assert s[i] == Eating;
      }
    }
    TestStepEffect(h, id);
  }

  /**
   * PutDown leaves id thinking; each neighbour that was hungry starts eating
   * when its other neighbour is not eating; nobody else changes; the table
   * stays safe.
   */
  lemma PutDownStepEffect(s: seq<Phase>, id: int)
    requires |s| == NumMen && 0 <= id < NumMen
    ensures var r := PutDownStep(s, id);
      |r| == NumMen && r[id] == Thinking &&
      (forall j :: 0 <= j < NumMen && j != id && j != Left(id) && j != Right(id) ==> r[j] == s[j]) &&
      (forall j :: 0 <= j < NumMen && j != id && r[j] != s[j] ==> s[j] == Hungry && r[j] == Eating) &&
      (s[Left(id)] == Hungry && s[Left(Left(id))] != Eating ==> r[Left(id)] == Eating) &&
      (s[Right(id)] == Hungry && s[Right(Right(id))] != Eating ==> r[Right(id)] == Eating) &&
      (Safe(s) ==> Safe(r))
  {
    NeighboursInverse(id);
    NeighboursInverse(Left(id));
    NeighboursInverse(Right(id));
    var t := s[id := Thinking];
    if Safe(s) {
      forall i | 0 <= i < NumMen && t[i] == Eating
        ensures t[Right(i)] != Eating
      {
        assert s[i] == Eating;
      }
    }
    TestStepEffect(t, Left(id));
    var u := TestStep(t, Left(id));
    TestStepEffect(u, Right(id));
  }

  /** The shared state of dining2.c: `State[]`, `Philosopher[]` and `Mutex`. */
  class Table {
    const state: array<Phase>
    const philosopher: array<int>
    var mutex: int

    predicate Valid()
      reads this, state, philosopher
    {
      state.Length == NumMen && philosopher.Length == NumMen &&
      Safe(state[..]) &&
      (forall i :: 0 <= i < NumMen ==> philosopher[i] >= 0) &&
      mutex >= 0
    }

    /** Everyone thinking, every philosopher semaphore 0, the mutex 1. */
    constructor ()
      ensures Valid() && fresh(state) && fresh(philosopher)
      ensures forall i :: 0 <= i < NumMen ==> state[i] == Thinking && philosopher[i] == 0
      ensures mutex == 1
    {
      state := new Phase[NumMen](_ => Thinking);
      philosopher := new int[NumMen](_ => 0);
      mutex := 1;
    }

    /** Test(id): let id eat if it can, and post its semaphore exactly then. */
    method Test(id: int)
      requires Valid() && 0 <= id < NumMen
      modifies state, philosopher
      ensures Valid() && mutex == old(mutex)
      ensures state[..] == TestStep(old(state[..]), id)
      ensures philosopher[..] ==
        if CanEat(old(state[..]), id) then old(philosopher[..])[id := old(philosopher[id]) + 1]
        else old(philosopher[..])
    {
      TestStepEffect(state[..], id);
      if state[id] == Hungry && state[Left(id)] != Eating && state[Right(id)] != Eating {
        state[id] := Eating;
        philosopher[id] := philosopher[id] + 1;
      }
    }

    /**
     * PickUp(id) up to its wait on `Philosopher[id]`: take the mutex (which
     * must be free), become hungry, Test, release the mutex. `granted` is
     * whether Test let id eat, so the wait that follows does not block.
     */
    method PickUp(id: int) returns (granted: bool)
      requires Valid() && 0 <= id < NumMen && mutex > 0
      modifies this, state, philosopher
      ensures Valid() && mutex == old(mutex)
      ensures state[..] == PickUpStep(old(state[..]), id)
      ensures granted <==> state[id] == Eating
      ensures philosopher[..] ==
        if granted then old(philosopher[..])[id := old(philosopher[id]) + 1] else old(philosopher[..])
    {
      PickUpStepEffect(state[..], id);
      mutex := mutex - 1;
      state[id] := Hungry;
      Test(id);
      mutex := mutex + 1;
      granted := state[id] == Eating;
    }

    /** The wait on `Philosopher[id]` that ends PickUp; it must not block. */
    method AwaitForks(id: int)
      requires Valid() && 0 <= id < NumMen && philosopher[id] > 0
      modifies philosopher
      ensures Valid()
      ensures philosopher[..] == old(philosopher[..])[id := old(philosopher[id]) - 1]
    {
      philosopher[id] := philosopher[id] - 1;
    }

    /**
     * PutDown(id): take the mutex, think, Test both neighbours, release the
     * mutex. Each neighbour that starts eating has its semaphore posted once,
     * which wakes it from its wait in PickUp; no other semaphore changes.
     */
    method PutDown(id: int)
      requires Valid() && 0 <= id < NumMen && mutex > 0
      modifies this, state, philosopher
      ensures Valid() && mutex == old(mutex)
      ensures state[..] == PutDownStep(old(state[..]), id)
      ensures state[id] == Thinking
      ensures forall j :: 0 <= j < NumMen ==>
        philosopher[j] == old(philosopher[j]) + (if state[j] == Eating && old(state[j]) != Eating then 1 else 0)
    {
      PutDownStepEffect(state[..], id);
      mutex := mutex - 1;
      ghost var s := state[..];
      state[id] := Thinking;
      assert state[..] == s[id := Thinking];
      Test(Left(id));
      Test(Right(id));
      mutex := mutex + 1;
    }
  }
}

/** A slot vector that grows on demand: which slots are occupied, in list order, and which are free. */
module Slots {
  import opened Wrappers

  /** The sequence without its element at place i. */
  function Cut<T>(s: seq<T>, i: nat): (r: seq<T>)
    requires i < |s|
    ensures |r| == |s| - 1
  {
    s[..i] + s[i + 1..]
  }

  ghost predicate NoDup(s: seq<nat>) {
    forall i, j :: 0 <= i < j < |s| ==> s[i] != s[j]
  }

  ghost predicate AllSome<T>(slots: seq<Option<T>>, occupied: seq<nat>) {
    forall i :: 0 <= i < |occupied| ==> occupied[i] < |slots| && slots[occupied[i]].Some?
  }

  /** Occupied and free slots partition the vector, without duplicates. */
  ghost predicate Partition<T>(slots: seq<Option<T>>, occupied: seq<nat>, free: seq<nat>) {
    && NoDup(occupied) && NoDup(free)
    && |occupied| + |free| == |slots|
    && AllSome(slots, occupied)
    && (forall i :: 0 <= i < |free| ==> free[i] < |slots| && slots[free[i]].None?)
    && (forall n :: 0 <= n < |slots| && slots[n].Some? ==> n in occupied)
    && (forall n :: 0 <= n < |slots| && slots[n].None? ==> n in free)
  }

  /** Filling the last free slot makes it the last occupied one. */
  lemma Occupy<T>(slots: seq<Option<T>>, occupied: seq<nat>, free: seq<nat>, slot: nat, after: seq<Option<T>>)
    requires Partition(slots, occupied, free + [slot])
    requires |after| == |slots|
    requires forall n :: 0 <= n < |slots| ==> (after[n].Some? <==> slots[n].Some? || n == slot)
    ensures Partition(after, occupied + [slot], free)
  {
    assert (free + [slot])[|free|] == slot;
    forall i | 0 <= i < |free| ensures free[i] < |slots| && slots[free[i]].None? && free[i] != slot {
      assert (free + [slot])[i] == free[i];
    }
    assert NoDup(free) by {
      forall i, j | 0 <= i < j < |free| ensures free[i] != free[j] {
        assert (free + [slot])[i] == free[i] && (free + [slot])[j] == free[j];
      }
    }
    forall n | 0 <= n < |after| && after[n].Some? ensures n in occupied + [slot] {
      if n == slot { assert (occupied + [slot])[|occupied|] == slot; }
    }
    forall n | 0 <= n < |after| && after[n].None? ensures n in free {
      assert n in free + [slot];
    }
  }

  /** Emptying the slot at place i of the list makes it the last free one. */
  lemma Vacate<T>(slots: seq<Option<T>>, occupied: seq<nat>, free: seq<nat>, i: nat, after: seq<Option<T>>)
    requires Partition(slots, occupied, free) && i < |occupied|
    requires |after| == |slots|
    requires forall n :: 0 <= n < |slots| ==> (after[n].Some? <==> slots[n].Some? && n != occupied[i])
    ensures Partition(after, Cut(occupied, i), free + [occupied[i]])
  {
  }

  lemma GrowPartition<T>(slots: seq<Option<T>>, occupied: seq<nat>)
    requires Partition(slots, occupied, [])
    ensures Partition(slots + [None], occupied, [|slots|])
  {
  }
}

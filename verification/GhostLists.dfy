/** The intrusive doubly linked lists B1 and B2 of evicted keys. */
module GhostLists {
  import opened Wrappers
  import opened Slots

  datatype GhostNode<K> = GhostNode(key: K, prev: Option<nat>, next: Option<nat>)

  type Entries<K> = seq<Option<GhostNode<K>>>

  function First(s: seq<nat>): Option<nat> {
    if s == [] then None else Some(s[0])
  }

  function Last(s: seq<nat>): Option<nat> {
    if s == [] then None else Some(s[|s| - 1])
  }

  // ---------- the representation, on values ----------

  /** The node at place i of the list carries that key and links to its neighbours. */
  ghost predicate NodeAt<K>(entries: Entries<K>, order: seq<nat>, keys: seq<K>, i: nat)
    requires AllSome(entries, order) && i < |order| == |keys|
  {
    entries[order[i]].value == GhostNode(
      keys[i],
      if i == 0 then None else Some(order[i - 1]),
      if i + 1 == |order| then None else Some(order[i + 1]))
  }

  /** The slots along `order` form a list that holds `keys`, from the LRU end to the MRU end. */
  ghost predicate Represents<K>(entries: Entries<K>, order: seq<nat>, keys: seq<K>, free: seq<nat>) {
    && Partition(entries, order, free)
    && |keys| == |order|
    && forall i :: 0 <= i < |order| ==> NodeAt(entries, order, keys, i)
  }

  function SetNext<K>(entries: Entries<K>, at: nat, next: Option<nat>): (r: Entries<K>)
    requires at < |entries|
    ensures |r| == |entries|
  {
    if entries[at].Some? then entries[at := Some(entries[at].value.(next := next))] else entries
  }

  function SetPrev<K>(entries: Entries<K>, at: nat, prev: Option<nat>): (r: Entries<K>)
    requires at < |entries|
    ensures |r| == |entries|
  {
    if entries[at].Some? then entries[at := Some(entries[at].value.(prev := prev))] else entries
  }

  /** Hangs a node behind the last one. */
  function Hung<K>(entries: Entries<K>, tail: Option<nat>, slot: nat, key: K): Entries<K>
    requires slot < |entries| && (tail.Some? ==> tail.value < |entries|)
  {
    var e := if tail.Some? then SetNext(entries, tail.value, Some(slot)) else entries;
    e[slot := Some(GhostNode(key, tail, None))]
  }

  /** Empties a slot of the list and joins its neighbours. */
  function Spliced<K>(entries: Entries<K>, slot: nat): Entries<K>
    requires slot < |entries| && entries[slot].Some?
    requires entries[slot].value.prev.Some? ==> entries[slot].value.prev.value < |entries|
    requires entries[slot].value.next.Some? ==> entries[slot].value.next.value < |entries|
  {
    var node := entries[slot].value;
    var e0 := entries[slot := None];
    var e1 := if node.prev.Some? then SetNext(e0, node.prev.value, node.next) else e0;
    if node.next.Some? then SetPrev(e1, node.next.value, node.prev) else e1
  }

  lemma HungNode<K>(entries: Entries<K>, order: seq<nat>, keys: seq<K>, slot: nat, key: K, i: nat)
    requires AllSome(entries, order) && NoDup(order) && |keys| == |order|
    requires slot < |entries| && entries[slot].None?
    requires i < |order| ==> NodeAt(entries, order, keys, i)
    requires i <= |order|
    ensures var after := Hung(entries, Last(order), slot, key);
            && AllSome(after, order + [slot])
            && NodeAt(after, order + [slot], keys + [key], i)
  {
  }

  /** Hanging a node behind the last one appends its key. */
  lemma HangLast<K>(entries: Entries<K>, order: seq<nat>, keys: seq<K>, free: seq<nat>, slot: nat, key: K)
    requires Represents(entries, order, keys, free + [slot])
    ensures slot < |entries| && (order != [] ==> Last(order).value < |entries|)
    ensures Represents(Hung(entries, Last(order), slot, key), order + [slot], keys + [key], free)
  {
    assert (free + [slot])[|free|] == slot;
    assert AllSome(entries, order) && NoDup(order) && entries[slot].None?;
    var after := Hung(entries, Last(order), slot, key);
    Occupy(entries, order, free, slot, after);
    hide Partition, NodeAt, NoDup;
    forall i | 0 <= i < |order + [slot]| ensures NodeAt(after, order + [slot], keys + [key], i) {
      HungNode(entries, order, keys, slot, key, i);
    }
  }

  lemma Neighbours<K>(entries: Entries<K>, order: seq<nat>, keys: seq<K>, free: seq<nat>, i: nat)
    requires Represents(entries, order, keys, free) && i < |order|
    ensures order[i] < |entries|
    ensures entries[order[i]] == Some(GhostNode(
      keys[i],
      if i == 0 then None else Some(order[i - 1]),
      if i + 1 == |order| then None else Some(order[i + 1])))
    ensures 0 < i ==> order[i - 1] < |entries|
    ensures i + 1 < |order| ==> order[i + 1] < |entries|
  {
    assert NodeAt(entries, order, keys, i);
  }

  lemma SplicedNode<K>(entries: Entries<K>, order: seq<nat>, keys: seq<K>, i: nat, j: nat)
    requires AllSome(entries, order) && NoDup(order) && |keys| == |order| && i < |order| && j < |order| - 1
    requires NodeAt(entries, order, keys, i) && NodeAt(entries, order, keys, if j < i then j else j + 1)
    requires Spliced.requires(entries, order[i]) && AllSome(Spliced(entries, order[i]), Cut(order, i))
    ensures NodeAt(Spliced(entries, order[i]), Cut(order, i), Cut(keys, i), j)
  {
  }

  /** Splicing a slot out takes its key out and keeps the order of the others. */
  lemma Splice<K>(entries: Entries<K>, order: seq<nat>, keys: seq<K>, free: seq<nat>, i: nat)
    requires Represents(entries, order, keys, free) && i < |order|
    ensures Spliced.requires(entries, order[i])
    ensures Represents(Spliced(entries, order[i]), Cut(order, i), Cut(keys, i), free + [order[i]])
  {
    assert AllSome(entries, order) && NoDup(order);
    assert forall j :: 0 <= j < |order| ==> NodeAt(entries, order, keys, j);
    Neighbours(entries, order, keys, free, i);
    var after := Spliced(entries, order[i]);
    Vacate(entries, order, free, i, after);
    hide Partition, NodeAt, NoDup;
    forall j | 0 <= j < |Cut(order, i)| ensures NodeAt(after, Cut(order, i), Cut(keys, i), j) {
      SplicedNode(entries, order, keys, i, j);
    }
  }

  /** All that taking out the node at place i needs. */
  lemma TakeOut<K>(entries: Entries<K>, order: seq<nat>, keys: seq<K>, free: seq<nat>, i: nat)
    requires Represents(entries, order, keys, free) && i < |order|
    ensures order[i] < |entries|
    ensures entries[order[i]] == Some(GhostNode(
      keys[i],
      if i == 0 then None else Some(order[i - 1]),
      if i + 1 == |order| then None else Some(order[i + 1])))
    ensures Spliced.requires(entries, order[i])
    ensures Represents(Spliced(entries, order[i]), Cut(order, i), Cut(keys, i), free + [order[i]])
    ensures First(Cut(order, i)) == if i > 0 then First(order) else if |order| > 1 then Some(order[1]) else None
    ensures Last(Cut(order, i)) ==
            if i + 1 < |order| then Last(order) else if i > 0 then Some(order[i - 1]) else None
  {
    hide Represents, Spliced, Cut, First, Last;
    Neighbours(entries, order, keys, free, i);
    Splice(entries, order, keys, free, i);
    CutEnds(order, i);
  }

  lemma CutEnds(order: seq<nat>, i: nat)
    requires i < |order|
    ensures First(Cut(order, i)) == if i > 0 then First(order) else if |order| > 1 then Some(order[1]) else None
    ensures Last(Cut(order, i)) ==
            if i + 1 < |order| then Last(order) else if i > 0 then Some(order[i - 1]) else None
  {
  }

  /** A slot holds a node just when it is on the list. */
  lemma Occupied<K>(entries: Entries<K>, order: seq<nat>, keys: seq<K>, free: seq<nat>, slot: nat)
    requires Represents(entries, order, keys, free) && slot < |entries|
    ensures entries[slot].Some? <==> slot in order
  {
  }

  lemma Grow<K>(entries: Entries<K>, order: seq<nat>, keys: seq<K>)
    requires Represents(entries, order, keys, [])
    ensures Represents(entries + [None], order, keys, [|entries|])
    ensures |order| == |entries|
  {
    var longer := entries + [None];
    GrowPartition(entries, order);
    forall i | 0 <= i < |order| ensures NodeAt(longer, order, keys, i) {
      assert NodeAt(entries, order, keys, i);
    }
  }

  // ---------- the list ----------

  class GhostList<K> {
    var entries: Entries<K>
    const capacity: nat
    var head: Option<nat>  // LRU end
    var tail: Option<nat>  // MRU end
    var freeSlots: seq<nat>
    var size: nat
    /** The occupied slots and their keys, from the LRU end to the MRU end. */
    ghost var order: seq<nat>
    ghost var keys: seq<K>

    ghost predicate Valid()
      reads this
    {
      && Represents(entries, order, keys, freeSlots)
      && |order| == |keys|
      && |entries| <= capacity
      && size == |order|
      && head == First(order)
      && tail == Last(order)
    }

    constructor (capacity: nat)
      ensures Valid() && order == [] && keys == [] && this.capacity == capacity
    {
      this.capacity := capacity;
      entries, freeSlots, size := [], [], 0;
      head, tail := None, None;
      order, keys := [], [];
    }

    /** No slot is on the list twice, and every slot on it exists. */
    lemma OrderIsDistinct()
      requires Valid()
      ensures NoDup(order)
      ensures forall i :: 0 <= i < |order| ==> order[i] < |entries|
    {
    }

    /** Takes a free slot, or a new one while there is capacity; fails just when the list is full. */
    method AcquireSlot() returns (slot: Option<nat>)
      requires Valid()
      modifies this`entries, this`freeSlots
      ensures slot.Some? <==> |order| < capacity
      ensures slot.None? ==> entries == old(entries) && freeSlots == old(freeSlots)
      ensures slot.Some? ==> Represents(entries, order, keys, freeSlots + [slot.value]) && |entries| <= capacity
    {
      if freeSlots != [] {
        var last := freeSlots[|freeSlots| - 1];
        freeSlots := freeSlots[..|freeSlots| - 1];
        assert old(freeSlots) == freeSlots + [last];
        return Some(last);
      }
      Grow(entries, order, keys);
      if |entries| < capacity {
        entries := entries + [None];
        assert freeSlots + [|entries| - 1] == [|entries| - 1];
        slot := Some(|entries| - 1);
      } else {
        slot := None;
      }
    }

    /** Insertion at the tail appends, and fails just when the list is full. */
    method InsertAtTail(key: K) returns (slot: Option<nat>)
      requires Valid()
      modifies this
      ensures Valid()
      ensures slot.Some? <==> |old(keys)| < capacity
      ensures slot.None? ==> order == old(order) && keys == old(keys)
      ensures slot.Some? ==> order == old(order) + [slot.value] && keys == old(keys) + [key]
    {
      hide Represents;
      slot := AcquireSlot();
      if slot.None? { return; }
      HangLast(entries, order, keys, freeSlots, slot.value, key);
      ghost var before := entries;
      var node := GhostNode(key, tail, None);
      if tail.Some? {
        entries := SetNext(entries, tail.value, slot);
      } else {
        head := slot;
      }
      tail := slot;
      entries := entries[slot.value := Some(node)];
      size := size + 1;
      assert entries == Hung(before, old(tail), slot.value, key);
      order, keys := order + [slot.value], keys + [key];
    }

    /** Removing the LRU entry pops the head. */
    method RemoveLru() returns (key: Option<K>)
      requires Valid()
      modifies this
      ensures Valid()
      ensures old(keys) == [] ==> key == None && keys == [] && order == []
      ensures old(keys) != [] ==>
                && key == Some(old(keys)[0])
                && order == Cut(old(order), 0) && keys == Cut(old(keys), 0)
    {
      hide Represents, Cut, Last;
      if head.None? { return None; }
      TakeOut(entries, order, keys, freeSlots, 0);
      var slot := head.value;
      var node := entries[slot].value;
      entries := entries[slot := None];
      freeSlots := freeSlots + [slot];
      size := size - 1;
      if size == 0 {
        head, tail := None, None;
      } else {
        head := node.next;
        if head.Some? {
          entries := SetPrev(entries, head.value, None);
        }
      }
      assert entries == Spliced(old(entries), slot);
      order, keys := Cut(order, 0), Cut(keys, 0);
      key := Some(node.key);
    }

    /** Removing a slot takes out the entry at its place and keeps the order of the others. */
    method Remove(slot: nat) returns (removed: bool, ghost at: nat)
      requires Valid() && slot < |entries|
      modifies this
      ensures Valid()
      ensures removed <==> slot in old(order)
      ensures !removed ==> order == old(order) && keys == old(keys)
      ensures removed ==>
                && at < |old(order)| && old(order)[at] == slot
                && order == Cut(old(order), at)
                && keys == Cut(old(keys), at)
    {
      hide Represents, Cut, First, Last;
      Occupied(entries, order, keys, freeSlots, slot);
      if entries[slot].None? { return false, 0; }
      at :| 0 <= at < |order| && order[at] == slot;
      TakeOut(entries, order, keys, freeSlots, at);
      var node := entries[slot].value;
      entries := entries[slot := None];
      freeSlots := freeSlots + [slot];
      size := size - 1;
      if size == 0 {
        head, tail := None, None;
      } else {
        if node.prev.Some? {
          entries := SetNext(entries, node.prev.value, node.next);
        } else {
          head := node.next;
        }
        if node.next.Some? {
          entries := SetPrev(entries, node.next.value, node.prev);
        } else {
          tail := node.prev;
        }
      }
      assert entries == Spliced(old(entries), slot);
      order, keys := Cut(order, at), Cut(keys, at);
      removed := true;
    }
  }
}

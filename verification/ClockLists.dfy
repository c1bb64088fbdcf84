/** The clock rings T1 and T2: occupied slots form a circular doubly linked list and the hand points
    at its head. */
module ClockLists {
  import opened Wrappers
  import opened Slots
  import opened CarSpec

  /** A ring node; its entry is the page the slot holds. */
  datatype ClockNode<K, V> = ClockNode(entry: Page<K, V>, prev: nat, next: nat)

  type Nodes<K, V> = seq<Option<ClockNode<K, V>>>

  // ---------- the representation, on values ----------

  function Head(ring: seq<nat>): Option<nat> {
    if ring == [] then None else Some(ring[0])
  }

  function Before(ring: seq<nat>, i: nat): nat
    requires i < |ring|
  {
    if i == 0 then ring[|ring| - 1] else ring[i - 1]
  }

  function After(ring: seq<nat>, i: nat): nat
    requires i < |ring|
  {
    if i + 1 == |ring| then ring[0] else ring[i + 1]
  }

  /** The node at place i from the hand carries that page and links to its ring neighbours. */
  ghost predicate NodeAt<K, V>(nodes: Nodes<K, V>, ring: seq<nat>, pages: seq<Page<K, V>>, i: nat)
    requires AllSome(nodes, ring) && i < |ring| == |pages|
  {
    nodes[ring[i]].value == ClockNode(pages[i], Before(ring, i), After(ring, i))
  }

  /** The slots along `ring` form a circle that holds `pages`, read from the hand. */
  ghost predicate Represents<K, V>(nodes: Nodes<K, V>, ring: seq<nat>, pages: seq<Page<K, V>>, free: seq<nat>) {
    && Partition(nodes, ring, free)
    && |pages| == |ring|
    && forall i :: 0 <= i < |ring| ==> NodeAt(nodes, ring, pages, i)
  }

  function SetNext<K, V>(nodes: Nodes<K, V>, at: nat, next: nat): (r: Nodes<K, V>)
    ensures |r| == |nodes|
  {
    if at < |nodes| && nodes[at].Some? then nodes[at := Some(nodes[at].value.(next := next))] else nodes
  }

  function SetPrev<K, V>(nodes: Nodes<K, V>, at: nat, prev: nat): (r: Nodes<K, V>)
    ensures |r| == |nodes|
  {
    if at < |nodes| && nodes[at].Some? then nodes[at := Some(nodes[at].value.(prev := prev))] else nodes
  }

  /** Links a new node in behind the hand. */
  function Inserted<K, V>(nodes: Nodes<K, V>, ring: seq<nat>, slot: nat, pg: Page<K, V>): Nodes<K, V>
    requires slot < |nodes|
  {
    if ring == [] then
      nodes[slot := Some(ClockNode(pg, slot, slot))]
    else
      var last := ring[|ring| - 1];
      SetPrev(SetNext(nodes[slot := Some(ClockNode(pg, last, ring[0]))], last, slot), ring[0], slot)
  }

  /** Unlinks the node at the hand. */
  function HeadRemoved<K, V>(nodes: Nodes<K, V>, slot: nat): Nodes<K, V>
    requires slot < |nodes| && nodes[slot].Some?
  {
    var node := nodes[slot].value;
    SetPrev(SetNext(nodes[slot := None], node.prev, node.next), node.next, node.prev)
  }

  lemma InsertedNode<K, V>(nodes: Nodes<K, V>, ring: seq<nat>, pages: seq<Page<K, V>>, slot: nat, pg: Page<K, V>, i: nat)
    requires AllSome(nodes, ring) && NoDup(ring) && |pages| == |ring|
    requires slot < |nodes| && nodes[slot].None?
    requires i < |ring| ==> NodeAt(nodes, ring, pages, i)
    requires i <= |ring|
    ensures AllSome(Inserted(nodes, ring, slot, pg), ring + [slot])
    ensures NodeAt(Inserted(nodes, ring, slot, pg), ring + [slot], pages + [pg], i)
  {
  }

  /** Insertion behind the hand appends. */
  lemma InsertLast<K, V>(nodes: Nodes<K, V>, ring: seq<nat>, pages: seq<Page<K, V>>, free: seq<nat>, slot: nat, pg: Page<K, V>)
    requires Represents(nodes, ring, pages, free + [slot])
    ensures slot < |nodes|
    ensures Represents(Inserted(nodes, ring, slot, pg), ring + [slot], pages + [pg], free)
  {
    assert (free + [slot])[|free|] == slot;
    assert AllSome(nodes, ring) && NoDup(ring) && nodes[slot].None?;
    var after := Inserted(nodes, ring, slot, pg);
    Occupy(nodes, ring, free, slot, after);
    hide Partition, NodeAt, NoDup;
    forall i | 0 <= i < |ring + [slot]| ensures NodeAt(after, ring + [slot], pages + [pg], i) {
      InsertedNode(nodes, ring, pages, slot, pg, i);
    }
  }

  /** What the links of one node say. */
  lemma Neighbours<K, V>(nodes: Nodes<K, V>, ring: seq<nat>, pages: seq<Page<K, V>>, free: seq<nat>, i: nat)
    requires Represents(nodes, ring, pages, free) && i < |ring|
    ensures ring[i] < |nodes| && nodes[ring[i]] == Some(ClockNode(pages[i], Before(ring, i), After(ring, i)))
    ensures Before(ring, i) < |nodes| && nodes[Before(ring, i)].Some?
  {
    assert NodeAt(nodes, ring, pages, i);
  }

  lemma HeadRemovedNode<K, V>(nodes: Nodes<K, V>, ring: seq<nat>, pages: seq<Page<K, V>>, j: nat)
    requires AllSome(nodes, ring) && NoDup(ring) && |pages| == |ring| && j + 1 < |ring|
    requires NodeAt(nodes, ring, pages, 0) && NodeAt(nodes, ring, pages, j + 1)
    ensures AllSome(HeadRemoved(nodes, ring[0]), Cut(ring, 0))
    ensures NodeAt(HeadRemoved(nodes, ring[0]), Cut(ring, 0), Cut(pages, 0), j)
  {
  }

  /** Removal at the hand pops the head, and the hand moves to the next page. */
  lemma RemoveFirst<K, V>(nodes: Nodes<K, V>, ring: seq<nat>, pages: seq<Page<K, V>>, free: seq<nat>)
    requires Represents(nodes, ring, pages, free) && ring != []
    ensures ring[0] < |nodes| && nodes[ring[0]] == Some(ClockNode(pages[0], Before(ring, 0), After(ring, 0)))
    ensures Represents(HeadRemoved(nodes, ring[0]), Cut(ring, 0), Cut(pages, 0), free + [ring[0]])
    ensures Head(Cut(ring, 0)) == if |ring| == 1 then None else Some(After(ring, 0))
    ensures |ring| == 1 ==> HeadRemoved(nodes, ring[0]) == nodes[ring[0] := None]
  {
    assert AllSome(nodes, ring) && NoDup(ring);
    assert forall j :: 0 <= j < |ring| ==> NodeAt(nodes, ring, pages, j);
    Neighbours(nodes, ring, pages, free, 0);
    var after := HeadRemoved(nodes, ring[0]);
    Vacate(nodes, ring, free, 0, after);
    hide Partition, NodeAt, NoDup;
    forall j | 0 <= j < |Cut(ring, 0)| ensures NodeAt(after, Cut(ring, 0), Cut(pages, 0), j) {
      HeadRemovedNode(nodes, ring, pages, j);
    }
  }

  function Rotate<T>(s: seq<T>): (r: seq<T>)
    requires s != []
    ensures |r| == |s|
  {
    s[1..] + [s[0]]
  }

  lemma RotatePartition<T>(slots: seq<Option<T>>, ring: seq<nat>, free: seq<nat>)
    requires Partition(slots, ring, free) && ring != []
    ensures Partition(slots, Rotate(ring), free)
  {
  }

  lemma RotatedNode<K, V>(nodes: Nodes<K, V>, ring: seq<nat>, pages: seq<Page<K, V>>, i: nat)
    requires AllSome(nodes, ring) && i < |ring| == |pages|
    requires NodeAt(nodes, ring, pages, if i + 1 == |ring| then 0 else i + 1)
    ensures AllSome(nodes, Rotate(ring)) && NodeAt(nodes, Rotate(ring), Rotate(pages), i)
  {
  }

  /** Moving the hand on by one leaves the ring as it is and makes the head the tail. */
  lemma AdvanceHand<K, V>(nodes: Nodes<K, V>, ring: seq<nat>, pages: seq<Page<K, V>>, free: seq<nat>)
    requires Represents(nodes, ring, pages, free) && ring != []
    ensures Represents(nodes, Rotate(ring), Rotate(pages), free)
    ensures Head(Rotate(ring)) == Some(After(ring, 0))
  {
    hide NodeAt, NoDup;
    RotatePartition(nodes, ring, free);
    forall i | 0 <= i < |Rotate(ring)| ensures NodeAt(nodes, Rotate(ring), Rotate(pages), i) {
      RotatedNode(nodes, ring, pages, i);
    }
  }

  /** Overwriting the page of one node changes that page alone. */
  lemma SetEntry<K, V>(nodes: Nodes<K, V>, ring: seq<nat>, pages: seq<Page<K, V>>, free: seq<nat>, i: nat, pg: Page<K, V>)
    requires Represents(nodes, ring, pages, free) && i < |ring|
    ensures ring[i] < |nodes| && nodes[ring[i]].Some? && nodes[ring[i]].value.entry == pages[i]
    ensures Represents(nodes[ring[i] := Some(nodes[ring[i]].value.(entry := pg))], ring, pages[i := pg], free)
  {
    assert NodeAt(nodes, ring, pages, i);
    var after := nodes[ring[i] := Some(nodes[ring[i]].value.(entry := pg))];
    assert Partition(after, ring, free);
    var written := pages[i := pg];
    forall j | 0 <= j < |ring| ensures NodeAt(after, ring, written, j) {
      assert NodeAt(nodes, ring, pages, j);
    }
  }

  /** A slot holds a node just when it is on the ring. */
  lemma Occupied<K, V>(nodes: Nodes<K, V>, ring: seq<nat>, pages: seq<Page<K, V>>, free: seq<nat>, slot: nat)
    requires Represents(nodes, ring, pages, free)
    ensures slot < |nodes| && nodes[slot].Some? <==> slot in ring
  {
  }

  lemma Grow<K, V>(nodes: Nodes<K, V>, ring: seq<nat>, pages: seq<Page<K, V>>)
    requires Represents(nodes, ring, pages, [])
    ensures Represents(nodes + [None], ring, pages, [|nodes|])
    ensures |ring| == |nodes|
  {
    GrowPartition(nodes, ring);
    var longer := nodes + [None];
    forall i | 0 <= i < |ring| ensures NodeAt(longer, ring, pages, i) {
      assert NodeAt(nodes, ring, pages, i);
    }
  }

  // ---------- the clock ----------

  class ClockList<K, V> {
    var nodes: Nodes<K, V>
    const capacity: nat
    var hand: Option<nat>
    var freeSlots: seq<nat>
    var size: nat
    /** The occupied slots and their pages, from the hand on. */
    ghost var ring: seq<nat>
    ghost var pages: seq<Page<K, V>>

    ghost predicate Valid()
      reads this
    {
      && Represents(nodes, ring, pages, freeSlots)
      && |ring| == |pages|
      && |nodes| <= capacity
      && size == |ring|
      && hand == Head(ring)
    }

    constructor (capacity: nat)
      ensures Valid() && ring == [] && pages == [] && this.capacity == capacity
    {
      this.capacity := capacity;
      nodes, freeSlots, size, hand := [], [], 0, None;
      ring, pages := [], [];
    }

    /** No slot is on the ring twice. */
    lemma RingIsDistinct()
      requires Valid()
      ensures NoDup(ring)
    {
    }

    /** Takes a free slot, or a new one while there is capacity; fails just when the ring is full. */
    method AcquireSlot() returns (slot: Option<nat>)
      requires Valid()
      modifies this`nodes, this`freeSlots
      ensures slot.Some? <==> |ring| < capacity
      ensures slot.None? ==> nodes == old(nodes) && freeSlots == old(freeSlots)
      ensures slot.Some? ==> Represents(nodes, ring, pages, freeSlots + [slot.value]) && |nodes| <= capacity
    {
      if freeSlots != [] {
        var last := freeSlots[|freeSlots| - 1];
        freeSlots := freeSlots[..|freeSlots| - 1];
        assert old(freeSlots) == freeSlots + [last];
        return Some(last);
      }
      Grow(nodes, ring, pages);
      if |nodes| < capacity {
        nodes := nodes + [None];
        assert freeSlots + [|nodes| - 1] == [|nodes| - 1];
        slot := Some(|nodes| - 1);
      } else {
        slot := None;
      }
    }

    /** Insertion behind the hand appends an unreferenced page, and fails just when the ring is full. */
    method InsertAtTail(key: K, value: V) returns (slot: Option<nat>)
      requires Valid()
      modifies this
      ensures Valid()
      ensures slot.Some? <==> |old(pages)| < capacity
      ensures slot.None? ==> ring == old(ring) && pages == old(pages)
      ensures slot.Some? ==> ring == old(ring) + [slot.value] && pages == old(pages) + [Page(key, value, false)]
    {
      hide Represents;
      var links: Option<(nat, nat)> := None;
      if hand.Some? {
        Neighbours(nodes, ring, pages, freeSlots, 0);
        links := Some((nodes[hand.value].value.prev, hand.value));
      }
      slot := AcquireSlot();
      if slot.None? { return; }
      InsertLast(nodes, ring, pages, freeSlots, slot.value, Page(key, value, false));
      ghost var before := nodes;
      var prev := if links.Some? then links.value.0 else slot.value;
      var next := if links.Some? then links.value.1 else slot.value;
      nodes := nodes[slot.value := Some(ClockNode(Page(key, value, false), prev, next))];
      if links.Some? {
        nodes := SetNext(nodes, prev, slot.value);
        nodes := SetPrev(nodes, next, slot.value);
      } else {
        hand := slot;
      }
      size := size + 1;
      assert nodes == Inserted(before, ring, slot.value, Page(key, value, false));
      ring, pages := ring + [slot.value], pages + [Page(key, value, false)];
    }

    /** The page at the hand. */
    method GetHeadPage() returns (pg: Option<Page<K, V>>)
      requires Valid()
      ensures pg == if pages == [] then None else Some(pages[0])
    {
      hide Represents;
      if hand.None? { return None; }
      Neighbours(nodes, ring, pages, freeSlots, 0);
      pg := Some(nodes[hand.value].value.entry);
    }

    /** Removal at the hand pops the head. */
    method RemoveHeadPage() returns (pg: Option<Page<K, V>>)
      requires Valid()
      modifies this
      ensures Valid()
      ensures old(pages) == [] ==> pg == None && ring == [] && pages == []
      ensures old(pages) != [] ==>
                && pg == Some(old(pages)[0])
                && ring == Cut(old(ring), 0) && pages == Cut(old(pages), 0)
    {
      hide Represents, Cut;
      if hand.None? { return None; }
      RemoveFirst(nodes, ring, pages, freeSlots);
      var slot := hand.value;
      var node := nodes[slot].value;
      nodes := nodes[slot := None];
      freeSlots := freeSlots + [slot];
      size := size - 1;
      if size == 0 {
        hand := None;
      } else {
        nodes := SetNext(nodes, node.prev, node.next);
        nodes := SetPrev(nodes, node.next, node.prev);
        hand := Some(node.next);
      }
      assert nodes == HeadRemoved(old(nodes), slot);
      ring, pages := Cut(ring, 0), Cut(pages, 0);
      pg := Some(node.entry);
    }

    /** Advancing the hand makes the head the tail. */
    method Advance()
      requires Valid()
      modifies this
      ensures Valid()
      ensures old(pages) == [] ==> ring == [] && pages == []
      ensures old(pages) != [] ==> ring == Rotate(old(ring)) && pages == Rotate(old(pages))
    {
      hide Represents;
      if hand.Some? {
        Neighbours(nodes, ring, pages, freeSlots, 0);
        AdvanceHand(nodes, ring, pages, freeSlots);
        hand := Some(nodes[hand.value].value.next);
        ring, pages := Rotate(ring), Rotate(pages);
      }
    }

    /** The entry at a slot, if the slot is on the ring. */
    method EntryAt(slot: nat) returns (pg: Option<Page<K, V>>, ghost at: nat)
      requires Valid()
      ensures pg.Some? <==> slot in ring
      ensures pg.Some? ==> at < |ring| && ring[at] == slot && pg == Some(pages[at])
    {
      hide Represents;
      Occupied(nodes, ring, pages, freeSlots, slot);
      if slot >= |nodes| || nodes[slot].None? { return None, 0; }
      at :| 0 <= at < |ring| && ring[at] == slot;
      Neighbours(nodes, ring, pages, freeSlots, at);
      pg := Some(nodes[slot].value.entry);
    }

    /** Writes through the mutable reference to the entry at a slot of the ring. */
    method SetEntryAt(slot: nat, pg: Page<K, V>, ghost at: nat)
      requires Valid() && at < |ring| && ring[at] == slot
      modifies this
      ensures Valid()
      ensures ring == old(ring) && pages == old(pages)[at := pg]
    {
      hide Represents;
      SetEntry(nodes, ring, pages, freeSlots, at, pg);
      nodes := nodes[slot := Some(nodes[slot].value.(entry := pg))];
      pages := pages[at := pg];
    }
  }
}

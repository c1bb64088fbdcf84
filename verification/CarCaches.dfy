/** The cache itself: two clock rings, two ghost lists and an index, updated in place. Every operation
    is proved equal to the corresponding step on four sequences. */
module CarCaches {
  import opened Wrappers
  import opened Slots
  import opened CarSpec
  import opened ClockLists
  import opened GhostLists
  import opened CarIndex
  import opened CarProperties

  datatype Evicted<K, V> = Evicted(key: K, value: V)

  /** `replace` may run, and every insertion it makes has room. */
  ghost predicate Room<K, V>(s: Car<K, V>) {
    CanReplace(s) && |s.t1| + |s.b1| <= s.c && |s.b2| <= s.c
  }

  /** While the cache is not full there are no ghosts, so a new key goes to T1. */
  lemma AdmitUnknown<K, V>(s: Car<K, V>, k: K, v: V)
    requires Bounds(s) && !Full(s)
    ensures Admit(s, k, v) == s.(t1 := s.t1 + [Page(k, v, false)])
  {
  }

  lemma PassKeepsRoom<K, V>(s: Car<K, V>)
    requires Room(s)
    ensures FromT1(s) || s.t2 != []
    ensures Pass(s).victim.None? ==> Room(Pass(s).state)
  {
  }

  /** Clearing the bit at the hand and advancing it makes the head of T2 its tail. */
  lemma Spared<K, V>(s: Car<K, V>)
    requires !FromT1(s) && s.t2 != [] && s.t2[0].referenced
    ensures var cleared := s.t2[0 := s.t2[0].(referenced := false)];
            && Pass(s).victim.None? && Pass(s).state == s.(t2 := Rotate(cleared))
            && Keys(Rotate(cleared)) == Rotate(Keys(cleared))
  {
  }

  lemma NothingKnown<K, V>(c: nat)
    ensures Inv(Empty<K, V>(c))
    ensures Exact(map[], Lists(Empty<K, V>(c)), [[], [], [], []])
  {
  }

  class CarCache<K(==), V> {
    const c: nat
    var p: nat
    const t1: ClockList<K, V>
    const t2: ClockList<K, V>
    const b1: GhostList<K>
    const b2: GhostList<K>
    var index: map<K, Location>

    /** The four sequences and the target that the slots stand for. */
    ghost function Abs(): Car<K, V>
      reads this, t1, t2, b1, b2
    {
      Car(c, p, t1.pages, t2.pages, b1.keys, b2.keys)
    }

    ghost function SlotLists(): (ss: seq<seq<nat>>)
      reads t1, t2, b1, b2
      ensures |ss| == 4
    {
      [t1.ring, t2.ring, b1.order, b2.order]
    }

    /** The four lists are well formed and have the capacities the cache gave them. */
    ghost predicate Built()
      reads this, t1, t2, b1, b2
    {
      && t1 != t2 && b1 != b2
      && t1.Valid() && t2.Valid() && b1.Valid() && b2.Valid()
      && t1.capacity == c && t2.capacity == c && b1.capacity == c + 1 && b2.capacity == c + 1
    }

    /** Built, and the index exact: what holds also in the middle of a `put`. */
    ghost predicate Sound()
      reads this, t1, t2, b1, b2
    {
      Built() && Exact(index, Lists(Abs()), SlotLists())
    }

    /** What holds between operations. */
    ghost predicate Valid()
      reads this, t1, t2, b1, b2
    {
      Sound() && Inv(Abs())
    }

    /** The index names the known keys and no others, each with the one slot that holds it; occupied
        and free slots partition each slot vector. */
    lemma IndexIsExact(k: K)
      requires Valid()
      ensures k in index <==> k in Directory(Abs())
      ensures k in index ==>
                match index[k]
                case T1(slot) => slot in t1.ring && t1.nodes[slot].value.entry.key == k
                case T2(slot) => slot in t2.ring && t2.nodes[slot].value.entry.key == k
                case B1(slot) => slot in b1.order && b1.entries[slot].value.key == k
                case B2(slot) => slot in b2.order && b2.entries[slot].value.key == k
      ensures Partition(t1.nodes, t1.ring, t1.freeSlots) && Partition(t2.nodes, t2.ring, t2.freeSlots)
      ensures Partition(b1.entries, b1.order, b1.freeSlots) && Partition(b2.entries, b2.order, b2.freeSlots)
    {
      hide Exact, Located, Inv;
      Where(index, Lists(Abs()), SlotLists(), k);
      if k in index {
        var at := IndexOf(Lists(Abs())[ListOf(index[k])], k);
        match index[k]
        case T1(_) => ClockLists.Neighbours(t1.nodes, t1.ring, t1.pages, t1.freeSlots, at);
        case T2(_) => ClockLists.Neighbours(t2.nodes, t2.ring, t2.pages, t2.freeSlots, at);
        case B1(_) => GhostLists.Neighbours(b1.entries, b1.order, b1.keys, b1.freeSlots, at);
        case B2(_) => GhostLists.Neighbours(b2.entries, b2.order, b2.keys, b2.freeSlots, at);
      }
    }

    constructor (capacity: nat)
      ensures Valid() && Abs() == Empty(capacity)
      ensures fresh(t1) && fresh(t2) && fresh(b1) && fresh(b2)
    {
      c, p := capacity, 0;
      t1 := new ClockList<K, V>(capacity);
      t2 := new ClockList<K, V>(capacity);
      b1 := new GhostList<K>(capacity + 1);
      b2 := new GhostList<K>(capacity + 1);
      index := map[];
      new;
      NothingKnown<K, V>(capacity);
    }

    /** A key whose old list has already let go of it goes to the tail of T2, and its index entry is
        repointed. */
    method MoveToT2(key: K, value: V)
      requires Built() && key in index && Exact(index - {key}, Lists(Abs()), SlotLists())
      requires |t2.pages| < c
      modifies this`index, t2
      ensures Sound()
      ensures Abs() == old(Abs()).(t2 := old(t2.pages) + [Page(key, value, false)])
    {
      hide ClockLists.Represents, GhostLists.Represents, Exact, Directory, Located, Keys;
      var slot := t2.InsertAtTail(key, value);
      var updated := index;
      if slot.Some? {
        if key in index {
          Attach(index - {key}, old(Lists(Abs())), old(SlotLists()), 1, key, slot.value);
          assert (index - {key})[key := T2(slot.value)] == index[key := T2(slot.value)];
          updated := index[key := T2(slot.value)];
        }
      } else {
        updated := index - {key};
      }
      index := updated;
      KeysAppend(old(t2.pages), Page(key, value, false));
      assert Lists(Abs()) == old(Lists(Abs()))[1 := old(Lists(Abs()))[1] + [key]];
      assert SlotLists() == old(SlotLists())[1 := old(SlotLists())[1] + [slot.value]];
    }

    /** Lines 25 to 29. */
    method TryReplaceFromT1() returns (victim: Option<Page<K, V>>)
      requires Sound() && Room(Abs()) && FromT1(Abs())
      modifies this`index, t1, t2, b1
      ensures Sound()
      ensures Step(Abs(), victim) == Pass(old(Abs()))
    {
      hide ClockLists.Represents, GhostLists.Represents, Exact, Directory, Located, Keys;
      ghost var s, lists, slots := Abs(), Lists(Abs()), SlotLists();
      Where(index, lists, slots, lists[0][0]);
      Detach(index, lists, slots, 0, 0);
      var head := t1.GetHeadPage();
      if head.Some? {
        if !head.value.referenced {
          var entry := t1.RemoveHeadPage();
          KeysOfCut(s.t1, 0);
          if entry.Some? {
            var key := entry.value.key;
            var slot := b1.InsertAtTail(key);
            var updated := index;
            if slot.Some? {
              Attach(index - {key}, lists[0 := Cut(lists[0], 0)], slots[0 := Cut(slots[0], 0)], 2, key, slot.value);
              assert (index - {key})[key := B1(slot.value)] == index[key := B1(slot.value)];
              if key in index {
                updated := index[key := B1(slot.value)];
              }
            } else {
              updated := index - {key};
            }
            index := updated;
            assert Lists(Abs()) == lists[0 := Cut(lists[0], 0)][2 := lists[2] + [key]];
            assert SlotLists() == slots[0 := Cut(slots[0], 0)][2 := slots[2] + [slot.value]];
            return entry;
          }
        } else {
          t1.SetEntryAt(t1.hand.value, head.value.(referenced := false), 0);
          var entry := t1.RemoveHeadPage();
          assert t1.pages == Cut(s.t1, 0);
          KeysOfCut(s.t1, 0);
          if entry.Some? {
            assert Lists(Abs()) == lists[0 := Cut(lists[0], 0)];
            assert SlotLists() == slots[0 := Cut(slots[0], 0)];
            MoveToT2(entry.value.key, entry.value.value);
          }
        }
      }
      victim := None;
    }

    /** Lines 32 to 36, but for the hand: a page spared only loses its reference bit. */
    method TryReplaceFromT2() returns (victim: Option<Page<K, V>>)
      requires Sound() && Room(Abs()) && !FromT1(Abs())
      modifies this`index, t2, b2
      ensures Sound() && old(t2.pages) != []
      ensures victim.Some? <==> !old(t2.pages)[0].referenced
      ensures victim.Some? ==> Step(Abs(), victim) == Pass(old(Abs()))
      ensures victim.None? ==>
                Abs() == old(Abs()).(t2 := old(t2.pages)[0 := old(t2.pages)[0].(referenced := false)])
    {
      hide ClockLists.Represents, GhostLists.Represents, Exact, Directory, Located, Keys;
      ghost var s, lists, slots := Abs(), Lists(Abs()), SlotLists();
      Where(index, lists, slots, lists[1][0]);
      Detach(index, lists, slots, 1, 0);
      var head := t2.GetHeadPage();
      if head.Some? {
        if !head.value.referenced {
          var entry := t2.RemoveHeadPage();
          KeysOfCut(s.t2, 0);
          if entry.Some? {
            var key := entry.value.key;
            var slot := b2.InsertAtTail(key);
            var updated := index;
            if slot.Some? {
              Attach(index - {key}, lists[1 := Cut(lists[1], 0)], slots[1 := Cut(slots[1], 0)], 3, key, slot.value);
              assert (index - {key})[key := B2(slot.value)] == index[key := B2(slot.value)];
              if key in index {
                updated := index[key := B2(slot.value)];
              }
            } else {
              updated := index - {key};
            }
            index := updated;
            assert Lists(Abs()) == lists[1 := Cut(lists[1], 0)][3 := lists[3] + [key]];
            assert SlotLists() == slots[1 := Cut(slots[1], 0)][3 := slots[3] + [slot.value]];
            return entry;
          }
        } else {
          t2.SetEntryAt(t2.hand.value, head.value.(referenced := false), 0);
          assert Keys(t2.pages) == Keys(s.t2);
          assert Lists(Abs()) == lists && SlotLists() == slots;
        }
      }
      victim := None;
    }

    /** Lines 23 to 39: the loop ends, with the victim and the state of the paper's algorithm. */
    method Replace() returns (victim: Option<Page<K, V>>)
      requires Sound() && Room(Abs())
      modifies this`index, t1, t2, b1, b2
      ensures Sound()
      ensures Step(Abs(), victim) == CarSpec.Replace(old(Abs()))
    {
      hide ClockLists.Represents, GhostLists.Represents, Exact, Pass, Rotate, Located, Keys, Bits;
      while true
        invariant Sound() && Room(Abs())
        invariant CarSpec.Replace(Abs()) == CarSpec.Replace(old(Abs()))
        decreases Bits(t1.pages) + Bits(t2.pages)
      {
        ghost var s := Abs();
        PassClearsOneBit(s);
        PassKeepsRoom(s);
        if t1.size >= Max(1, p) {
          victim := TryReplaceFromT1();
          if victim.Some? { return; }
        } else {
          victim := TryReplaceFromT2();
          if victim.Some? { return; }
          Turn(index, Lists(Abs()), SlotLists(), 1);
          ghost var lists, slots := Lists(Abs()), SlotLists();
          t2.Advance();
          Spared(s);
          assert Lists(Abs()) == lists[1 := Rotate(lists[1])];
          assert SlotLists() == slots[1 := Rotate(slots[1])];
        }
      }
    }

    /** Lines 6 to 9. */
    method DiscardGhost(key: K, inGhosts: bool)
      requires Sound() && inGhosts == InGhosts(Abs(), key)
      modifies this`index, b1, b2
      ensures Sound() && Abs() == Trim(old(Abs()), key)
      ensures index.Keys <= old(index.Keys) && (inGhosts ==> index == old(index))
    {
      hide ClockLists.Represents, GhostLists.Represents, Exact, Directory, Located, Keys;
      ghost var lists, slots := Lists(Abs()), SlotLists();
      if !inGhosts && t1.size + b1.size == c {
        if b1.keys != [] { Detach(index, lists, slots, 2, 0); }
        var discarded := b1.RemoveLru();
        if discarded.Some? {
          index := index - {discarded.value};
          assert Lists(Abs()) == lists[2 := Cut(lists[2], 0)];
          assert SlotLists() == slots[2 := Cut(slots[2], 0)];
        }
      } else if !inGhosts && t1.size + t2.size + b1.size + b2.size == 2 * c {
        if b2.keys != [] { Detach(index, lists, slots, 3, 0); }
        var discarded := b2.RemoveLru();
        if discarded.Some? {
          index := index - {discarded.value};
          assert Lists(Abs()) == lists[3 := Cut(lists[3], 0)];
          assert SlotLists() == slots[3 := Cut(slots[3], 0)];
        }
      }
    }

    /** Lines 14 to 16: a hit in B1 raises the target of T1. */
    method PromoteFromB1(key: K, value: V, slot: nat)
      requires Sound() && key in index && index[key] == B1(slot)
      requires |t2.pages| < c
      modifies this, t2, b1
      ensures Sound() && Abs() == Admit(old(Abs()), key, value)
    {
      hide ClockLists.Represents, GhostLists.Represents, Exact, Delta, Located, Keys, Directory, IndexOf;
      ghost var lists, slots := Lists(Abs()), SlotLists();
      Where(index, lists, slots, key);
      b1.OrderIsDistinct();
      var delta := Delta(b2.size, b1.size);
      p := Min(p + delta, c);
      Detach(index, lists, slots, 2, IndexOf(lists[2], key));
      var _, at := b1.Remove(slot);
      assert at == IndexOf(lists[2], key);
      assert Lists(Abs()) == lists[2 := Cut(lists[2], at)];
      assert SlotLists() == slots[2 := Cut(slots[2], at)];
      MoveToT2(key, value);
    }

    /** Lines 17 to 19: a hit in B2 lowers it. */
    method PromoteFromB2(key: K, value: V, slot: nat)
      requires Sound() && key in index && index[key] == B2(slot)
      requires |t2.pages| < c
      modifies this, t2, b2
      ensures Sound() && Abs() == Admit(old(Abs()), key, value)
    {
      hide ClockLists.Represents, GhostLists.Represents, Exact, Delta, Located, Keys, Directory, IndexOf;
      ghost var lists, slots := Lists(Abs()), SlotLists();
      Where(index, lists, slots, key);
      b2.OrderIsDistinct();
      var delta := Delta(b1.size, b2.size);
      p := Max(p - delta, 0);
      Detach(index, lists, slots, 3, IndexOf(lists[3], key));
      var _, at := b2.Remove(slot);
      assert at == IndexOf(lists[3], key);
      assert Lists(Abs()) == lists[3 := Cut(lists[3], at)];
      assert SlotLists() == slots[3 := Cut(slots[3], at)];
      MoveToT2(key, value);
    }

    /** Lines 12 to 19, for the location the key had after `replace`. */
    method Place(key: K, value: V, location: Option<Location>)
      requires Sound() && key !in Keys(t1.pages) && key !in Keys(t2.pages)
      requires location == if key in index then Some(index[key]) else None
      requires |t1.pages| < c && |t2.pages| < c
      modifies this, t1, t2, b1, b2
      ensures Sound() && Abs() == Admit(old(Abs()), key, value)
    {
      hide ClockLists.Represents, GhostLists.Represents, Exact, Delta, Located;
      ghost var lists, slots := Lists(Abs()), SlotLists();
      Where(index, lists, slots, key);
      if location.Some? && location.value.B1? {
        PromoteFromB1(key, value, location.value.slot);
      } else if location.Some? && location.value.B2? {
        PromoteFromB2(key, value, location.value.slot);
      } else {
        var slot := t1.InsertAtTail(key, value);
        if slot.Some? {
          Attach(index, lists, slots, 0, key, slot.value);
          index := index[key := T1(slot.value)];
        }
        KeysAppend(old(t1.pages), Page(key, value, false));
        assert Lists(Abs()) == lists[0 := lists[0] + [key]];
        assert SlotLists() == slots[0 := slots[0] + [slot.value]];
      }
    }

    /** Sets the reference bit of a resident key, and its value too when one is given; says whether the
        key was resident and which value it had. */
    method Hit(key: K, value: Option<V>) returns (found: Option<V>)
      requires Sound()
      modifies t1, t2
      ensures Sound()
      ensures found == CarSpec.Get(old(Abs()), key).1
      ensures var s := old(Abs());
              Abs() ==
              if key in Keys(s.t1) then
                s.(t1 := if value.None? then Touch(s.t1, key) else Refresh(s.t1, key, value.value))
              else if key in Keys(s.t2) then
                s.(t2 := if value.None? then Touch(s.t2, key) else Refresh(s.t2, key, value.value))
              else s
    {
      hide ClockLists.Represents, GhostLists.Represents, Exact, Directory, Located, Keys;
      ghost var s, lists, slots := Abs(), Lists(Abs()), SlotLists();
      Where(index, lists, slots, key);
      t1.RingIsDistinct();
      t2.RingIsDistinct();
      found := None;
      if key in index && index[key].T1? {
        var entry, at := t1.EntryAt(index[key].slot);
        if entry.Some? {
          var v := if value.None? then entry.value.value else value.value;
          t1.SetEntryAt(index[key].slot, entry.value.(referenced := true, value := v), at);
          found := Some(entry.value.value);
          assert Keys(t1.pages) == Keys(s.t1);
        }
      } else if key in index && index[key].T2? {
        var entry, at := t2.EntryAt(index[key].slot);
        if entry.Some? {
          var v := if value.None? then entry.value.value else value.value;
          t2.SetEntryAt(index[key].slot, entry.value.(referenced := true, value := v), at);
          found := Some(entry.value.value);
          assert Keys(t2.pages) == Keys(s.t2);
        }
      }
      assert Lists(Abs()) == lists && SlotLists() == slots;
    }

    /** A read is one `Get` of the algorithm. */
    method Get(key: K) returns (found: Option<V>)
      requires Valid()
      modifies t1, t2
      ensures Valid()
      ensures (Abs(), found) == CarSpec.Get(old(Abs()), key)
    {
      hide Exact, ClockLists.Represents, GhostLists.Represents;
      GetKeepsInv(Abs(), key);
      found := Hit(key, None);
    }

    /** A write is one `Put` of the algorithm, the change to p and the evicted entry included. */
    method Put(key: K, value: V) returns (evicted: Option<Evicted<K, V>>)
      requires Valid()
      modifies this, t1, t2, b1, b2
      ensures Valid()
      ensures Abs() == CarSpec.Put(old(Abs()), key, value).state
      ensures var victim := CarSpec.Put(old(Abs()), key, value).victim;
              && (evicted.Some? <==> victim.Some?)
              && (evicted.Some? ==> evicted.value.key == victim.value.key && evicted.value.value == victim.value.value)
    {
      hide Exact, ClockLists.Represents, GhostLists.Represents, Directory, Admit, Trim, CarSpec.Replace;
      PutKeepsInv(Abs(), key, value);
      if c == 0 { return None; }
      ghost var s := Abs();
      Where(index, Lists(s), SlotLists(), key);
      var hit := Hit(key, Some(value));
      if hit.Some? { return None; }
      var victim: Option<Page<K, V>>, location := None, None;
      if t1.size + t2.size == c {
        MidPut(s, key);
        ReplaceKeepsOut(s, key);
        victim := Replace();
        location := if key in index then Some(index[key]) else None;
        Where(index, Lists(Abs()), SlotLists(), key);
        var inGhosts := location.Some? && (location.value.B1? || location.value.B2?);
        DiscardGhost(key, inGhosts);
      } else {
        AdmitUnknown(s, key, value);
      }
      Place(key, value, location);
      evicted := if victim.Some? then Some(Evicted(victim.value.key, victim.value.value)) else None;
    }
  }
}

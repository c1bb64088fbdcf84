/** The index of the cache: for every known key, the list it is on and the slot that holds it. */
module CarIndex {
  import opened Wrappers
  import opened Slots
  import opened CarSpec
  import opened ClockLists

  /** Where a key is. */
  datatype Location = T1(slot: nat) | T2(slot: nat) | B1(slot: nat) | B2(slot: nat)

  /** The place of a list among the four. */
  function ListOf(loc: Location): (l: nat)
    ensures l < 4
  {
    match loc
    case T1(_) => 0
    case T2(_) => 1
    case B1(_) => 2
    case B2(_) => 3
  }

  /** A slot of the list at that place. */
  function On(l: nat, slot: nat): Location {
    if l == 0 then T1(slot) else if l == 1 then T2(slot) else if l == 2 then B1(slot) else B2(slot)
  }

  ghost function Lists<K, V>(s: Car<K, V>): (ls: seq<seq<K>>)
    ensures |ls| == 4
  {
    [Keys(s.t1), Keys(s.t2), s.b1, s.b2]
  }

  /** The index names exactly the keys on the lists, each at the slot that holds it, and no list
      holds a key twice. */
  ghost predicate Exact<K>(index: map<K, Location>, lists: seq<seq<K>>, slots: seq<seq<nat>>) {
    && |lists| == 4 == |slots|
    && (forall l :: 0 <= l < 4 ==> Located(index, l, lists[l], slots[l]))
    && (forall k :: k in index ==> k in lists[ListOf(index[k])])
  }

  ghost predicate Located<K>(index: map<K, Location>, l: nat, keys: seq<K>, slots: seq<nat>) {
    && |keys| == |slots|
    && (forall i :: 0 <= i < |keys| ==> keys[i] in index && index[keys[i]] == On(l, slots[i]))
    && (forall i, j :: 0 <= i < j < |keys| ==> keys[i] != keys[j])
  }

  /** A key is on the list its index entry names and on no other; a key without one is on none. */
  lemma Where<K>(index: map<K, Location>, lists: seq<seq<K>>, slots: seq<seq<nat>>, k: K)
    requires Exact(index, lists, slots)
    ensures k in index ==>
              var l := ListOf(index[k]);
              && k in lists[l]
              && IndexOf(lists[l], k) < |slots[l]| && slots[l][IndexOf(lists[l], k)] == index[k].slot
    ensures k in lists[0] <==> k in index && index[k].T1?
    ensures k in lists[1] <==> k in index && index[k].T2?
    ensures k in lists[2] <==> k in index && index[k].B1?
    ensures k in lists[3] <==> k in index && index[k].B2?
  {
    if k in index {
      assert Located(index, ListOf(index[k]), lists[ListOf(index[k])], slots[ListOf(index[k])]);
    }
    forall l | 0 <= l < 4 && k in lists[l] ensures k in index && ListOf(index[k]) == l {
      assert Located(index, l, lists[l], slots[l]);
    }
  }

  /** Taking a key off its list and out of the index. */
  lemma Detach<K>(index: map<K, Location>, lists: seq<seq<K>>, slots: seq<seq<nat>>, l: nat, i: nat)
    requires Exact(index, lists, slots) && l < 4 && i < |lists[l]| && |slots[l]| == |lists[l]|
    ensures Exact(index - {lists[l][i]}, lists[l := Cut(lists[l], i)], slots[l := Cut(slots[l], i)])
  {
    hide On, ListOf;
    var k := lists[l][i];
    var (lists', slots') := (lists[l := Cut(lists[l], i)], slots[l := Cut(slots[l], i)]);
    var index' := index - {k};
    assert Located(index, l, lists[l], slots[l]);
    forall m | 0 <= m < 4 ensures Located(index', m, lists'[m], slots'[m]) {
      assert Located(index, m, lists[m], slots[m]);
      if m == l {
        DetachHere(index, l, lists[l], slots[l], i);
      } else {
        OtherLists(index, l, m, lists[l], slots[l], lists[m], slots[m], i);
      }
    }
    forall q | q in index' ensures q in lists'[ListOf(index'[q])] {
      if ListOf(index[q]) == l {
        var j := IndexOf(lists[l], q);
        assert Cut(lists[l], i)[if j < i then j else j - 1] == q;
      }
    }
  }

  lemma DetachHere<K>(index: map<K, Location>, l: nat, keys: seq<K>, slots: seq<nat>, i: nat)
    requires Located(index, l, keys, slots) && i < |keys|
    ensures Located(index - {keys[i]}, l, Cut(keys, i), Cut(slots, i))
  {
  }

  /** A key on one list is on no other. */
  lemma OtherLists<K>(index: map<K, Location>, l: nat, m: nat, keys: seq<K>, slots: seq<nat>, others: seq<K>, at: seq<nat>, i: nat)
    requires Located(index, l, keys, slots) && Located(index, m, others, at) && l < 4 && m < 4 && l != m && i < |keys|
    ensures Located(index - {keys[i]}, m, others, at)
  {
  }

  /** Putting a key that is not indexed at the end of a list, and into the index. */
  lemma Attach<K>(index: map<K, Location>, lists: seq<seq<K>>, slots: seq<seq<nat>>, l: nat, k: K, slot: nat)
    requires Exact(index, lists, slots) && l < 4 && k !in index
    ensures Exact(index[k := On(l, slot)], lists[l := lists[l] + [k]], slots[l := slots[l] + [slot]])
  {
    var (lists', slots') := (lists[l := lists[l] + [k]], slots[l := slots[l] + [slot]]);
    var index' := index[k := On(l, slot)];
    Where(index, lists, slots, k);
    forall m | 0 <= m < 4 ensures Located(index', m, lists'[m], slots'[m]) {
      assert Located(index, m, lists[m], slots[m]);
      assert k !in lists[m];
    }
    assert lists'[l][|lists[l]|] == k;
  }

  /** Turning a list does not move its keys to other slots. */
  lemma Turn<K>(index: map<K, Location>, lists: seq<seq<K>>, slots: seq<seq<nat>>, l: nat)
    requires Exact(index, lists, slots) && l < 4 && lists[l] != [] && slots[l] != []
    ensures Exact(index, lists[l := Rotate(lists[l])], slots[l := Rotate(slots[l])])
  {
    var (lists', slots') := (lists[l := Rotate(lists[l])], slots[l := Rotate(slots[l])]);
    forall m | 0 <= m < 4 ensures Located(index, m, lists'[m], slots'[m]) {
      assert Located(index, m, lists[m], slots[m]);
    }
    forall q | q in index ensures q in lists'[ListOf(index[q])] {
      if ListOf(index[q]) == l {
        var j := IndexOf(lists[l], q);
        assert Rotate(lists[l])[if j == 0 then |lists[l]| - 1 else j - 1] == q;
      }
    }
  }

  lemma KeysAppend<K, V>(ps: seq<Page<K, V>>, pg: Page<K, V>)
    ensures Keys(ps + [pg]) == Keys(ps) + [pg.key]
  {
  }

  /** Cutting a page cuts its key. */
  lemma KeysOfCut<K, V>(ps: seq<Page<K, V>>, i: nat)
    requires i < |ps|
    ensures Keys(Cut(ps, i)) == Cut(Keys(ps), i)
  {
  }
}

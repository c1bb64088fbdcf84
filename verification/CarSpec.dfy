/** Clock with Adaptive Replacement, as the paper states it: four sequences and a target size.
    Every sequence is read from its head (the hand of a clock, the LRU end of a ghost list). */
module CarSpec {
  import opened Wrappers

  datatype Page<K, V> = Page(key: K, value: V, referenced: bool)

  datatype Car<K, V> = Car(
    c: nat,                   // capacity
    p: nat,                   // target size of t1
    t1: seq<Page<K, V>>,
    t2: seq<Page<K, V>>,
    b1: seq<K>,
    b2: seq<K>)

  /** A new state, and the page that left the cache on the way there. */
  datatype Step<K, V> = Step(state: Car<K, V>, victim: Option<Page<K, V>>)

  function Empty<K, V>(c: nat): Car<K, V> {
    Car(c, 0, [], [], [], [])
  }

  function Keys<K, V>(ps: seq<Page<K, V>>): (ks: seq<K>)
    ensures |ks| == |ps|
    ensures forall i :: 0 <= i < |ps| ==> ks[i] == ps[i].key
  {
    seq(|ps|, i requires 0 <= i < |ps| => ps[i].key)
  }

  function IndexOf<K(==)>(ks: seq<K>, k: K): (i: nat)
    requires k in ks
    ensures i < |ks| && ks[i] == k
    ensures k !in ks[..i]
  {
    if ks[0] == k then 0 else 1 + IndexOf(ks[1..], k)
  }

  function Without<K(==)>(ks: seq<K>, k: K): (rest: seq<K>)
    requires k in ks
    ensures |rest| == |ks| - 1
  {
    var i := IndexOf(ks, k);
    ks[..i] + ks[i + 1..]
  }

  /** Number of set reference bits. */
  function Bits<K, V>(ps: seq<Page<K, V>>): nat {
    if ps == [] then 0 else (if ps[0].referenced then 1 else 0) + Bits(ps[1..])
  }

  // ---------- replace() ----------

  /** Line 24: the next pass examines T1. */
  predicate FromT1<K, V>(s: Car<K, V>) {
    |s.t1| >= Max(1, s.p)
  }

  predicate Full<K, V>(s: Car<K, V>) {
    |s.t1| + |s.t2| == s.c
  }

  predicate CanReplace<K, V>(s: Car<K, V>) {
    0 < s.c && s.p <= s.c && Full(s)
  }

  /** Lines 24 to 38: one pass of the repeat loop. */
  function Pass<K, V>(s: Car<K, V>): Step<K, V>
    requires FromT1(s) || s.t2 != []
  {
    if FromT1(s) then
      var h := s.t1[0];
      if h.referenced then
        Step(s.(t1 := s.t1[1..], t2 := s.t2 + [h.(referenced := false)]), None)
      else
        Step(s.(t1 := s.t1[1..], b1 := s.b1 + [h.key]), Some(h))
    else
      var h := s.t2[0];
      if h.referenced then
        Step(s.(t2 := s.t2[1..] + [h.(referenced := false)]), None)
      else
        Step(s.(t2 := s.t2[1..], b2 := s.b2 + [h.key]), Some(h))
  }

  lemma {:induction false} BitsAppend<K, V>(ps: seq<Page<K, V>>, h: Page<K, V>)
    ensures Bits(ps + [h]) == Bits(ps) + (if h.referenced then 1 else 0)
  {
    if ps == [] {
      assert ps + [h] == [h];
    } else {
      assert (ps + [h])[1..] == ps[1..] + [h];
      BitsAppend(ps[1..], h);
    }
  }

  /** A pass that finds no victim clears exactly one reference bit and leaves the cache full. */
  lemma PassClearsOneBit<K, V>(s: Car<K, V>)
    requires CanReplace(s)
    ensures FromT1(s) || s.t2 != []
    ensures Pass(s).victim.None? ==>
              var t := Pass(s).state;
              CanReplace(t) && Bits(t.t1) + Bits(t.t2) == Bits(s.t1) + Bits(s.t2) - 1
  {
    if FromT1(s) {
      BitsAppend(s.t2, s.t1[0].(referenced := false));
    } else {
      BitsAppend(s.t2[1..], s.t2[0].(referenced := false));
    }
  }

  /** Lines 23 to 39. */
  function Replace<K, V>(s: Car<K, V>): Step<K, V>
    requires CanReplace(s)
    decreases Bits(s.t1) + Bits(s.t2)
  {
    PassClearsOneBit(s);
    var r := Pass(s);
    if r.victim.Some? then r else Replace(r.state)
  }

  /** How many passes `Replace` makes. */
  function Passes<K, V>(s: Car<K, V>): nat
    requires CanReplace(s)
    decreases Bits(s.t1) + Bits(s.t2)
  {
    PassClearsOneBit(s);
    var r := Pass(s);
    if r.victim.Some? then 1 else 1 + Passes(r.state)
  }

  // ---------- get and put ----------

  /** Lines 1 and 2 for a read: the page found, with its bit set. */
  function Touch<K(==), V>(ps: seq<Page<K, V>>, k: K): seq<Page<K, V>>
    requires k in Keys(ps)
  {
    var i := IndexOf(Keys(ps), k);
    ps[i := ps[i].(referenced := true)]
  }

  /** Lines 1 and 2 for a refresh: the page found, with its bit set and a new value. */
  function Refresh<K(==), V>(ps: seq<Page<K, V>>, k: K, v: V): seq<Page<K, V>>
    requires k in Keys(ps)
  {
    ps[IndexOf(Keys(ps), k) := Page(k, v, true)]
  }

  function Get<K(==), V>(s: Car<K, V>, k: K): (Car<K, V>, Option<V>) {
    if k in Keys(s.t1) then
      (s.(t1 := Touch(s.t1, k)), Some(s.t1[IndexOf(Keys(s.t1), k)].value))
    else if k in Keys(s.t2) then
      (s.(t2 := Touch(s.t2, k)), Some(s.t2[IndexOf(Keys(s.t2), k)].value))
    else
      (s, None)
  }

  predicate InGhosts<K(==), V>(s: Car<K, V>, k: K) {
    k in s.b1 || k in s.b2
  }

  /** Lines 6 to 9: discard a ghost for a key the directory does not know. */
  function Trim<K(==), V>(s: Car<K, V>, k: K): Car<K, V> {
    if !InGhosts(s, k) && |s.t1| + |s.b1| == s.c then
      if s.b1 == [] then s else s.(b1 := s.b1[1..])
    else if !InGhosts(s, k) && |s.t1| + |s.t2| + |s.b1| + |s.b2| == 2 * s.c then
      if s.b2 == [] then s else s.(b2 := s.b2[1..])
    else s
  }

  /** The adaptation step of lines 15 and 18. */
  function Delta(num: nat, den: nat): nat {
    if den > 0 then Max(1, num / den) else 1
  }

  /** Lines 12 to 19: place the requested page. */
  function Admit<K(==), V>(s: Car<K, V>, k: K, v: V): Car<K, V> {
    if k in s.b1 then
      s.(p := Min(s.p + Delta(|s.b2|, |s.b1|), s.c), b1 := Without(s.b1, k), t2 := s.t2 + [Page(k, v, false)])
    else if k in s.b2 then
      s.(p := Max(s.p - Delta(|s.b1|, |s.b2|), 0), b2 := Without(s.b2, k), t2 := s.t2 + [Page(k, v, false)])
    else
      s.(t1 := s.t1 + [Page(k, v, false)])
  }

  function Put<K(==), V>(s: Car<K, V>, k: K, v: V): Step<K, V>
    requires s.p <= s.c
  {
    if s.c == 0 then Step(s, None)
    else if k in Keys(s.t1) then Step(s.(t1 := Refresh(s.t1, k, v)), None)
    else if k in Keys(s.t2) then Step(s.(t2 := Refresh(s.t2, k, v)), None)
    else if Full(s) then
      var r := Replace(s);
      Step(Admit(Trim(r.state, k), k, v), r.victim)
    else
      Step(s.(t1 := s.t1 + [Page(k, v, false)]), None)
  }

  // ---------- the directory and the invariants ----------

  /** Every key with a page in the cache, with multiplicity. */
  ghost function Residents<K, V>(s: Car<K, V>): multiset<K> {
    multiset(Keys(s.t1)) + multiset(Keys(s.t2))
  }

  /** Every key the cache knows, with multiplicity. */
  ghost function Directory<K, V>(s: Car<K, V>): multiset<K> {
    Residents(s) + multiset(s.b1) + multiset(s.b2)
  }

  ghost predicate Distinct<K, V>(s: Car<K, V>) {
    forall k :: k in Directory(s) ==> Directory(s)[k] == 1
  }

  /** I1 to I6 of the paper, and the bound on the target size. */
  ghost predicate Bounds<K, V>(s: Car<K, V>) {
    && |s.t1| + |s.t2| <= s.c
    && |s.t1| + |s.b1| <= s.c
    && |s.t2| + |s.b2| <= 2 * s.c
    && |s.t1| + |s.t2| + |s.b1| + |s.b2| <= 2 * s.c
    && (|s.t1| + |s.t2| < s.c ==> s.b1 == [] && s.b2 == [])
    && (|s.t1| + |s.t2| + |s.b1| + |s.b2| >= s.c ==> Full(s))
    && s.p <= s.c
  }

  ghost predicate Inv<K, V>(s: Car<K, V>) {
    Bounds(s) && Distinct(s)
  }
}

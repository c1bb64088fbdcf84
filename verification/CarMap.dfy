/** The cache seen from outside: a partial map that loses only the bindings it hands back. */
module CarMap {
  import opened Wrappers
  import opened CarSpec
  import opened CarProperties

  /** The bindings a `get` would answer. */
  ghost function Contents<K, V>(s: Car<K, V>): map<K, V> {
    Bindings(s.t1 + s.t2)
  }

  ghost function Bindings<K, V>(ps: seq<Page<K, V>>): map<K, V> {
    map k | k in Keys(ps) :: Lookup(ps, k)
  }

  ghost function Lookup<K, V>(ps: seq<Page<K, V>>, k: K): V
    requires k in Keys(ps)
  {
    ps[IndexOf(Keys(ps), k)].value
  }

  /** No key has two pages. */
  ghost predicate OnePageEach<K, V>(ps: seq<Page<K, V>>) {
    forall i, j :: 0 <= i < |ps| && 0 <= j < |ps| && ps[i].key == ps[j].key ==> i == j
  }

  ghost predicate Binds<K, V>(ps: seq<Page<K, V>>, k: K, v: V) {
    exists pg :: pg in ps && pg.key == k && pg.value == v
  }

  lemma DistinctPages<K, V>(s: Car<K, V>)
    requires Distinct(s)
    ensures OnePageEach(s.t1 + s.t2)
  {
    var ps := s.t1 + s.t2;
    KeysConcat(s.t1, s.t2);
    forall i, j | 0 <= i < |ps| && 0 <= j < |ps| && ps[i].key == ps[j].key ensures i == j {
      assert Keys(ps)[i] == Keys(ps)[j];
      assert multiset(Keys(ps)) == Residents(s);
      assert Keys(ps)[i] in multiset(Keys(ps));
      assert ps[i].key in Directory(s);
      UniqueIndex(Keys(ps), i, j);
    }
  }

  lemma LookupIsPage<K, V>(ps: seq<Page<K, V>>, pg: Page<K, V>)
    requires OnePageEach(ps) && pg in ps
    ensures pg.key in Keys(ps) && Lookup(ps, pg.key) == pg.value
  {
  }

  /** `Contents` is exactly the relation between keys and values that the pages hold. */
  lemma ContentsAreBindings<K, V>(s: Car<K, V>, k: K, v: V)
    requires Distinct(s)
    ensures k in Contents(s) && Contents(s)[k] == v <==> Binds(s.t1 + s.t2, k, v)
  {
    DistinctPages(s);
    var ps := s.t1 + s.t2;
    if k in Contents(s) && Contents(s)[k] == v {
      assert ps[IndexOf(Keys(ps), k)] in ps;
    }
    if Binds(ps, k, v) {
      var pg :| pg in ps && pg.key == k && pg.value == v;
      LookupIsPage(ps, pg);
    }
  }

  /** A `get` answers from the map and does not change it. */
  lemma GetReadsMap<K, V>(s: Car<K, V>, k: K)
    requires Inv(s)
    ensures var (t, r) := Get(s, k);
            && Contents(t) == Contents(s)
            && r == (if k in Contents(s) then Some(Contents(s)[k]) else None)
  {
    hide Directory, Contents;
    var (t, r) := Get(s, k);
    SamePages(s, t);
    HitIsBinding(s, k);
  }

  lemma HitIsBinding<K, V>(s: Car<K, V>, k: K)
    requires Distinct(s)
    ensures Get(s, k).1 == if k in Contents(s) then Some(Contents(s)[k]) else None
  {
    hide Directory, Touch;
    KeysConcat(s.t1, s.t2);
    var r := Get(s, k).1;
    if r.Some? {
      ContentsAreBindings(s, k, r.value);
      var pg := if k in Keys(s.t1) then s.t1[IndexOf(Keys(s.t1), k)] else s.t2[IndexOf(Keys(s.t2), k)];
      assert pg in s.t1 + s.t2;
    }
  }

  /** States whose pages agree up to reference bits hold the same map. */
  lemma SamePages<K, V>(s: Car<K, V>, t: Car<K, V>)
    requires |t.t1| == |s.t1| && |t.t2| == |s.t2|
    requires forall i :: 0 <= i < |s.t1| ==> t.t1[i].key == s.t1[i].key && t.t1[i].value == s.t1[i].value
    requires forall i :: 0 <= i < |s.t2| ==> t.t2[i].key == s.t2[i].key && t.t2[i].value == s.t2[i].value
    ensures Contents(s) == Contents(t)
  {
    SameBindings(s.t1 + s.t2, t.t1 + t.t2);
  }

  lemma SameBindings<K, V>(ps: seq<Page<K, V>>, qs: seq<Page<K, V>>)
    requires |ps| == |qs| && forall i :: 0 <= i < |ps| ==> qs[i].key == ps[i].key && qs[i].value == ps[i].value
    ensures Keys(ps) == Keys(qs) && forall k :: k in Keys(ps) ==> Lookup(qs, k) == Lookup(ps, k)
  {
  }

  /** One pass of `replace` keeps every binding but its victim's. */
  lemma PassBindings<K, V>(s: Car<K, V>, k: K, v: V)
    requires FromT1(s) || s.t2 != []
    ensures var r := Pass(s);
            Binds(s.t1 + s.t2, k, v) <==>
            || Binds(r.state.t1 + r.state.t2, k, v)
            || (r.victim.Some? && r.victim.value.key == k && r.victim.value.value == v)
  {
  }

  lemma {:induction false} ReplaceBindings<K, V>(s: Car<K, V>, k: K, v: V)
    requires CanReplace(s)
    ensures var r := Replace(s);
            && r.victim.Some?
            && (Binds(s.t1 + s.t2, k, v) <==>
                || Binds(r.state.t1 + r.state.t2, k, v)
                || (r.victim.value.key == k && r.victim.value.value == v))
    decreases Bits(s.t1) + Bits(s.t2)
  {
    PassClearsOneBit(s);
    PassBindings(s, k, v);
    if Pass(s).victim.None? {
      ReplaceBindings(Pass(s).state, k, v);
    }
  }

  ghost predicate EvictedFrom<K, V>(victim: Option<Page<K, V>>, m: map<K, V>) {
    victim.Some? ==> victim.value.key in m && m[victim.value.key] == victim.value.value
  }

  ghost function Minus<K, V>(m: map<K, V>, victim: Option<Page<K, V>>): map<K, V> {
    if victim.Some? then m - {victim.value.key} else m
  }

  /** `put` binds k to v, removes exactly the binding it returns and leaves every other one alone.
      It returns one just when k was not resident and the cache was full, and never k's own. */
  lemma PutUpdatesMap<K, V>(s: Car<K, V>, k: K, v: V)
    requires Inv(s) && 0 < s.c
    ensures var r := Put(s, k, v);
            && Contents(r.state) == Minus(Contents(s), r.victim)[k := v]
            && EvictedFrom(r.victim, Contents(s))
            && (r.victim.Some? <==> k !in Contents(s) && Full(s))
            && (r.victim.Some? ==> r.victim.value.key != k)
  {
    var r := Put(s, k, v);
    PutKeepsInv(s, k, v);
    KeysConcat(s.t1, s.t2);
    if k in Keys(s.t1) || k in Keys(s.t2) {
      if k in Keys(s.t1) { HitInT1(s, k, v); } else { HitInT2(s, k, v); }
    } else if Full(s) {
      MissUpdatesMap(s, k, v);
    } else {
      AddedPage(s, r.state, k, v);
    }
  }

  lemma UpdatedPage<K, V>(ps: seq<Page<K, V>>, i: nat, n: Page<K, V>, q: K)
    requires OnePageEach(ps) && i < |ps| && ps[i].key == n.key
    requires q in Keys(ps)
    ensures Keys(ps[i := n]) == Keys(ps)
    ensures Lookup(ps[i := n], q) == if q == n.key then n.value else Lookup(ps, q)
  {
  }

  /** Rewriting the page of a key rebinds that key alone. */
  lemma UpdatedBindings<K, V>(ps: seq<Page<K, V>>, i: nat, n: Page<K, V>)
    requires OnePageEach(ps) && i < |ps| && ps[i].key == n.key
    ensures Bindings(ps[i := n]) == Bindings(ps)[n.key := n.value]
  {
    hide Lookup, OnePageEach;
    assert Keys(ps[i := n]) == Keys(ps);
    assert Keys(ps)[i] == n.key;
    forall q | q in Keys(ps) ensures Lookup(ps[i := n], q) == if q == n.key then n.value else Lookup(ps, q) {
      UpdatedPage(ps, i, n, q);
    }
  }

  lemma HitInT1<K, V>(s: Car<K, V>, k: K, v: V)
    requires Inv(s) && 0 < s.c && k in Keys(s.t1)
    ensures Contents(Put(s, k, v).state) == Contents(s)[k := v]
  {
    hide Replace, Trim, Admit, Directory, Bindings, OnePageEach;
    var i := IndexOf(Keys(s.t1), k);
    DistinctPages(s);
    UpdatedBindings(s.t1 + s.t2, i, Page(k, v, true));
    assert Refresh(s.t1, k, v) + s.t2 == (s.t1 + s.t2)[i := Page(k, v, true)];
  }

  lemma HitInT2<K, V>(s: Car<K, V>, k: K, v: V)
    requires Inv(s) && 0 < s.c && k !in Keys(s.t1) && k in Keys(s.t2)
    ensures Contents(Put(s, k, v).state) == Contents(s)[k := v]
  {
    hide Replace, Trim, Admit, Directory, Bindings, OnePageEach;
    var i := IndexOf(Keys(s.t2), k);
    DistinctPages(s);
    UpdatedBindings(s.t1 + s.t2, |s.t1| + i, Page(k, v, true));
    assert s.t1 + Refresh(s.t2, k, v) == (s.t1 + s.t2)[|s.t1| + i := Page(k, v, true)];
  }

  lemma KeyHasPage<K, V>(ps: seq<Page<K, V>>, k: K)
    ensures k in Keys(ps) <==> exists pg :: pg in ps && pg.key == k
  {
  }

  lemma AddedBinding<K, V>(a: seq<Page<K, V>>, b: seq<Page<K, V>>, n: Page<K, V>, q: K)
    requires OnePageEach(a) && OnePageEach(b) && n.key !in Keys(a)
    requires forall pg :: pg in b <==> pg in a || pg == n
    ensures q in Keys(b) <==> q in Keys(a) || q == n.key
    ensures q in Keys(b) ==> Lookup(b, q) == if q == n.key then n.value else Lookup(a, q)
  {
    hide Keys, Lookup;
    KeyHasPage(a, q);
    KeyHasPage(b, q);
    LookupIsPage(b, n);
    if q in Keys(a) {
      var pg :| pg in a && pg.key == q;
      LookupIsPage(a, pg);
      LookupIsPage(b, pg);
    }
  }

  /** Adding one page for a fresh key adds one binding, whatever list it joins. */
  lemma AddedPage<K, V>(s: Car<K, V>, t: Car<K, V>, k: K, v: V)
    requires Distinct(s) && Distinct(t)
    requires k !in Keys(s.t1) && k !in Keys(s.t2)
    requires (t.t1 == s.t1 + [Page(k, v, false)] && t.t2 == s.t2)
             || (t.t2 == s.t2 + [Page(k, v, false)] && t.t1 == s.t1)
    ensures Contents(t) == Contents(s)[k := v]
  {
    hide Directory, Lookup, Keys;
    var (a, b, n) := (s.t1 + s.t2, t.t1 + t.t2, Page(k, v, false));
    DistinctPages(s);
    DistinctPages(t);
    KeysConcat(s.t1, s.t2);
    assert forall pg :: pg in b <==> pg in a || pg == n;
    forall q
      ensures q in Keys(b) <==> q in Keys(a) || q == k
      ensures q in Keys(b) ==> Lookup(b, q) == if q == k then v else Lookup(a, q)
    {
      AddedBinding(a, b, n, q);
    }
  }

  lemma MissUpdatesMap<K, V>(s: Car<K, V>, k: K, v: V)
    requires Inv(s) && CanReplace(s)
    requires k !in Keys(s.t1) && k !in Keys(s.t2)
    ensures var r := Put(s, k, v);
            && r.victim.Some?
            && Contents(r.state) == Minus(Contents(s), r.victim)[k := v]
            && EvictedFrom(r.victim, Contents(s))
            && r.victim.value.key != k
  {
    hide Replace, Trim, Lookup, Keys;
    var r := Replace(s);
    var u := Trim(r.state, k);
    ReplaceLosesVictim(s);
    TrimKeepsDirectory(r.state, k);
    KeysConcat(s.t1, s.t2);
    KeysConcat(u.t1, u.t2);
    assert k !in Contents(s);
    assert k !in Contents(u);
    PutKeepsInv(s, k, v);
    assert Distinct(u);
    AddedPage(u, Admit(u, k, v), k, v);
  }

  lemma VictimIsGone<K, V>(s: Car<K, V>)
    requires Distinct(s) && CanReplace(s)
    ensures Replace(s).victim.Some? && Replace(s).victim.value.key !in Contents(Replace(s).state)
  {
    hide Replace;
    ReplaceShape(s);
    var r := Replace(s);
    assert r.victim.value.key in Directory(s);
    KeysConcat(r.state.t1, r.state.t2);
  }

  /** `replace` removes its victim's binding and no other. */
  lemma ReplaceLosesVictim<K, V>(s: Car<K, V>)
    requires Distinct(s) && CanReplace(s)
    ensures var r := Replace(s);
            && Distinct(r.state)
            && r.victim.Some? && EvictedFrom(r.victim, Contents(s))
            && Contents(r.state) == Minus(Contents(s), r.victim)
  {
    hide Replace, Contents, Binds, Keys;
    var r := Replace(s);
    ReplaceShape(s);
    ReplaceKeepsDirectory(s);
    var h := r.victim.value;
    ReplaceBindings(s, h.key, h.value);
    ContentsAreBindings(s, h.key, h.value);
    var m := Minus(Contents(s), r.victim);
    VictimIsGone(s);
    forall k | k in Contents(r.state) ensures k in m && m[k] == Contents(r.state)[k] {
      var v := Contents(r.state)[k];
      ContentsAreBindings(r.state, k, v);
      ReplaceBindings(s, k, v);
      ContentsAreBindings(s, k, v);
    }
    forall k | k in m ensures k in Contents(r.state) {
      ContentsAreBindings(s, k, m[k]);
      ReplaceBindings(s, k, m[k]);
      ContentsAreBindings(r.state, k, m[k]);
    }
  }

  // ---------- whole runs ----------

  /** The value of the last `put` of k in a run, if any. */
  ghost function LatestPut<K, V>(ops: seq<Op<K, V>>, k: K): Option<V> {
    if ops == [] then None
    else
      var op := ops[|ops| - 1];
      if op.PutOp? && op.key == k then Some(op.value) else LatestPut(ops[..|ops| - 1], k)
  }

  /** Every answered `get`, after any run of `get`s and `put`s, gives the latest `put`. */
  lemma {:induction false} AnswersAreLatest<K, V>(c: nat, ops: seq<Op<K, V>>, k: K)
    ensures Get(Run(c, ops), k).1.Some? ==> Get(Run(c, ops), k).1 == LatestPut(ops, k)
  {
    var s := Run(c, ops);
    GetReadsMap(s, k);
    if ops != [] {
      var before := Run(c, ops[..|ops| - 1]);
      var op := ops[|ops| - 1];
      AnswersAreLatest(c, ops[..|ops| - 1], k);
      GetReadsMap(before, k);
      match op
      case GetOp(q) => GetReadsMap(before, q);
      case PutOp(q, v) =>
        if 0 < c { PutUpdatesMap(before, q, v); }
    }
  }

  /** Until the cache has filled up, nothing is forgotten: a `get` of any key put so far is answered. */
  lemma {:induction false} NothingForgottenBeforeFull<K, V>(c: nat, ops: seq<Op<K, V>>, k: K)
    requires |Run(c, ops).t1| + |Run(c, ops).t2| < c
    ensures Get(Run(c, ops), k).1 == LatestPut(ops, k)
  {
    var s := Run(c, ops);
    GetReadsMap(s, k);
    if ops != [] {
      var before := Run(c, ops[..|ops| - 1]);
      var op := ops[|ops| - 1];
      ApplyKeepsInv(before, op);
      assert !Full(before);
      NothingForgottenBeforeFull(c, ops[..|ops| - 1], k);
      GetReadsMap(before, k);
      match op
      case GetOp(q) => GetReadsMap(before, q);
      case PutOp(q, v) => PutUpdatesMap(before, q, v);
    }
  }

  /** A cache of capacity 0 is disabled: whatever was put, no `get` is answered and nothing is evicted. */
  lemma DisabledCache<K, V>(ops: seq<Op<K, V>>, k: K, v: V)
    ensures Get(Run(0, ops), k) == (Run(0, ops), None)
    ensures Put(Run(0, ops), k, v) == Step(Run(0, ops), None)
  {
    hide Run;
    var s := Run(0, ops);
    assert s.t1 == [] && s.t2 == [];
  }
}

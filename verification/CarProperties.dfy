/** What every run of the CAR algorithm keeps, and what one operation does to the cached map. */
module CarProperties {
  import opened Wrappers
  import opened CarSpec

  // ---------- directories ----------

  lemma KeysConcat<K, V>(a: seq<Page<K, V>>, b: seq<Page<K, V>>)
    ensures Keys(a + b) == Keys(a) + Keys(b)
  {
  }

  /** Taking the head off a list of pages takes one key off its multiset. */
  lemma KeysHead<K, V>(ps: seq<Page<K, V>>)
    requires ps != []
    ensures multiset(Keys(ps)) == multiset{ps[0].key} + multiset(Keys(ps[1..]))
  {
    assert Keys(ps) == [ps[0].key] + Keys(ps[1..]);
  }

  lemma SeqHead<K>(ks: seq<K>)
    requires ks != []
    ensures multiset(ks) == multiset{ks[0]} + multiset(ks[1..])
  {
    assert ks == [ks[0]] + ks[1..];
  }

  lemma WithoutRemovesOne<K>(ks: seq<K>, k: K)
    requires k in ks
    ensures multiset(Without(ks, k)) == multiset(ks) - multiset{k}
  {
    var i := IndexOf(ks, k);
    assert ks == ks[..i] + ([k] + ks[i + 1..]);
    DropMiddle(multiset(ks[..i]), multiset(ks[i + 1..]), k);
  }

  lemma DropMiddle<K>(a: multiset<K>, b: multiset<K>, k: K)
    ensures a + b == (a + (multiset{k} + b)) - multiset{k}
  {
  }

  lemma TwiceCounted<K>(ks: seq<K>, i: nat, j: nat)
    requires i < j < |ks| && ks[i] == ks[j]
    ensures multiset(ks)[ks[i]] >= 2
  {
    assert ks == ks[..j] + ks[j..];
    assert ks[..j][i] in ks[..j] && ks[j..][0] in ks[j..];
  }

  /** A key counted once stands at one place only. */
  lemma UniqueIndex<K>(ks: seq<K>, i: nat, j: nat)
    requires i < |ks| && j < |ks| && ks[i] == ks[j]
    requires multiset(ks)[ks[i]] == 1
    ensures i == j
  {
    if i < j { TwiceCounted(ks, i, j); } else if j < i { TwiceCounted(ks, j, i); }
  }

  lemma KeysTail<K, V>(ps: seq<Page<K, V>>, pg: Page<K, V>)
    ensures multiset(Keys(ps + [pg])) == multiset(Keys(ps)) + multiset{pg.key}
  {
    KeysConcat(ps, [pg]);
    assert Keys([pg]) == [pg.key];
  }

  /** One pass keeps the resident keys, up to its victim. */
  lemma PassKeepsResidents<K, V>(s: Car<K, V>)
    requires FromT1(s) || s.t2 != []
    ensures var r := Pass(s);
            Residents(s) == Residents(r.state) + (if r.victim.Some? then multiset{r.victim.value.key} else multiset{})
  {
    if FromT1(s) {
      KeysHead(s.t1);
      KeysTail(s.t2, s.t1[0].(referenced := false));
    } else {
      KeysHead(s.t2);
      KeysTail(s.t2[1..], s.t2[0].(referenced := false));
    }
  }

  /** What `Replace` does to the lists: the cache gives up exactly the victim, whose key becomes
      the newest ghost of one list; no ghost is lost, |T1| + |B1| does not grow, p and c stay. */
  lemma {:induction false} ReplaceShape<K, V>(s: Car<K, V>)
    requires CanReplace(s)
    ensures var r := Replace(s); var t := r.state;
            && r.victim.Some?
            && t.c == s.c && t.p == s.p
            && |t.t1| + |t.t2| == s.c - 1
            && |t.t1| + |t.b1| <= |s.t1| + |s.b1|
            && ((t.b1 == s.b1 + [r.victim.value.key] && t.b2 == s.b2)
                || (t.b2 == s.b2 + [r.victim.value.key] && t.b1 == s.b1))
            && Residents(s) == Residents(t) + multiset{r.victim.value.key}
    decreases Bits(s.t1) + Bits(s.t2)
  {
    PassClearsOneBit(s);
    PassKeepsResidents(s);
    if Pass(s).victim.None? {
      ReplaceShape(Pass(s).state);
    }
  }

  /** `replace` moves keys between lists; it neither forgets nor duplicates one. */
  lemma ReplaceKeepsDirectory<K, V>(s: Car<K, V>)
    requires CanReplace(s)
    ensures Directory(Replace(s).state) == Directory(s)
  {
    ReplaceShape(s);
  }

  /** `replace` leaves a key that is not resident where it is. */
  lemma ReplaceKeepsOut<K, V>(s: Car<K, V>, k: K)
    requires CanReplace(s) && k !in Keys(s.t1) && k !in Keys(s.t2)
    ensures var t := Replace(s).state;
            && k !in Keys(t.t1) && k !in Keys(t.t2)
            && (k in t.b1 <==> k in s.b1) && (k in t.b2 <==> k in s.b2)
  {
    ReplaceShape(s);
    var r := Replace(s);
    assert k !in Residents(s);
    assert r.victim.value.key in Residents(s);
    assert k !in Residents(r.state);
  }

  /** `replace` looks at at most one page more than there are set reference bits, so at most c + 1. */
  lemma {:induction false} ReplaceIsBounded<K, V>(s: Car<K, V>)
    requires CanReplace(s)
    ensures 1 <= Passes(s) <= Bits(s.t1) + Bits(s.t2) + 1 <= s.c + 1
    decreases Bits(s.t1) + Bits(s.t2)
  {
    PassClearsOneBit(s);
    BitsBound(s.t1);
    BitsBound(s.t2);
    if Pass(s).victim.None? {
      ReplaceIsBounded(Pass(s).state);
    }
  }

  lemma BitsBound<K, V>(ps: seq<Page<K, V>>)
    ensures Bits(ps) <= |ps|
  {
  }

  // ---------- the invariants ----------

  /** In the middle of a `put`, right after `replace`: the one slack slot of each ghost list is
      enough, there is room for the requested page, and the requested key's ghost is still there. */
  lemma MidPut<K, V>(s: Car<K, V>, k: K)
    requires Inv(s) && CanReplace(s)
    ensures var t := Replace(s).state;
            && |t.b1| <= s.c && |t.b2| <= s.c + 1
            && |t.t1| < s.c && |t.t2| < s.c
            && (k in s.b1 ==> k in t.b1) && (k in s.b2 ==> k in t.b2)
            && (k !in Directory(s) ==> !InGhosts(t, k))
            && Distinct(t)
  {
    ReplaceShape(s);
    ReplaceKeepsDirectory(s);
  }

  lemma Fewer<K>(r: multiset<K>, a: multiset<K>, b: multiset<K>, c: multiset<K>, d: multiset<K>)
    requires a <= b && c <= d
    ensures r + a + c <= r + b + d
  {
  }

  lemma TrimKeepsDirectory<K, V>(s: Car<K, V>, k: K)
    ensures var t := Trim(s, k);
            && t.c == s.c && t.p == s.p && t.t1 == s.t1 && t.t2 == s.t2
            && Directory(t) <= Directory(s)
            && (InGhosts(s, k) ==> t == s)
  {
    var (t, r) := (Trim(s, k), Residents(s));
    assert Residents(t) == r;
    if s.b1 != [] { SeqHead(s.b1); }
    if s.b2 != [] { SeqHead(s.b2); }
    Fewer(r, multiset(t.b1), multiset(s.b1), multiset(t.b2), multiset(s.b2));
  }

  lemma MoveOne<K>(a: multiset<K>, b: multiset<K>, k: K)
    requires k in b
    ensures (a + multiset{k}) + (b - multiset{k}) == a + b
  {
  }

  lemma AdmitDirectory<K, V>(s: Car<K, V>, k: K, v: V)
    ensures Directory(Admit(s, k, v)) == if InGhosts(s, k) then Directory(s) else Directory(s) + multiset{k}
  {
    var t := Admit(s, k, v);
    if k in s.b1 {
      KeysTail(s.t2, Page(k, v, false));
      WithoutRemovesOne(s.b1, k);
      assert Residents(t) == Residents(s) + multiset{k};
      MoveOne(Residents(s), multiset(s.b1), k);
    } else if k in s.b2 {
      KeysTail(s.t2, Page(k, v, false));
      WithoutRemovesOne(s.b2, k);
      assert Residents(t) == Residents(s) + multiset{k};
      MoveOne(Residents(s) + multiset(s.b1), multiset(s.b2), k);
      assert Residents(s) + multiset{k} + multiset(s.b1) == Residents(s) + multiset(s.b1) + multiset{k};
    } else {
      KeysTail(s.t1, Page(k, v, false));
      assert Residents(t) == Residents(s) + multiset{k};
    }
  }

  /** Replacing the page of a key in place leaves the keys alone. */
  lemma RefreshKeys<K, V>(ps: seq<Page<K, V>>, k: K, v: V)
    requires k in Keys(ps)
    ensures Keys(Refresh(ps, k, v)) == Keys(ps)
    ensures Keys(Touch(ps, k)) == Keys(ps)
  {
  }

  lemma GetKeepsInv<K, V>(s: Car<K, V>, k: K)
    requires Inv(s)
    ensures Inv(Get(s, k).0)
    ensures Full(s) ==> Full(Get(s, k).0)
  {
    var t := Get(s, k).0;
    if k in Keys(s.t1) {
      RefreshKeys(s.t1, k, s.t1[IndexOf(Keys(s.t1), k)].value);
    } else if k in Keys(s.t2) {
      RefreshKeys(s.t2, k, s.t2[IndexOf(Keys(s.t2), k)].value);
    }
    assert Directory(t) == Directory(s);
  }

  /** Lines 4 to 19 on a full cache: the sizes. */
  lemma MissKeepsBounds<K, V>(s: Car<K, V>, k: K, v: V)
    requires Bounds(s) && CanReplace(s)
    ensures var t := Admit(Trim(Replace(s).state, k), k, v);
            Bounds(t) && Full(t)
  {
    hide Replace, Delta, Keys, Residents, Trim, Admit;
    ReplaceShape(s);
    var r := Replace(s).state;
    TrimSizes(r, k);
    AdmitSizes(Trim(r, k), k, v);
  }

  /** Right after `replace` there is one page less; a new key finds a ghost discarded where it must be. */
  lemma TrimSizes<K, V>(s: Car<K, V>, k: K)
    requires |s.t1| + |s.t2| == s.c - 1 && |s.t1| + |s.b1| <= s.c && |s.b1| + |s.b2| <= s.c + 1
    ensures var t := Trim(s, k);
            && t.c == s.c && t.p == s.p && t.t1 == s.t1 && t.t2 == s.t2
            && |t.t1| + |t.b1| <= s.c && |t.b1| + |t.b2| <= s.c + 1
            && (!InGhosts(t, k) ==> |t.t1| + |t.b1| < s.c && |t.b1| + |t.b2| <= s.c)
  {
  }

  lemma AdmitSizes<K, V>(s: Car<K, V>, k: K, v: V)
    requires |s.t1| + |s.t2| == s.c - 1 && |s.t1| + |s.b1| <= s.c && |s.b1| + |s.b2| <= s.c + 1 && s.p <= s.c
    requires !InGhosts(s, k) ==> |s.t1| + |s.b1| < s.c && |s.b1| + |s.b2| <= s.c
    ensures Bounds(Admit(s, k, v)) && Full(Admit(s, k, v))
  {
    hide Delta;
  }

  /** Lines 4 to 19 on a full cache: no key is known twice. */
  lemma MissKeepsDistinct<K, V>(s: Car<K, V>, k: K, v: V)
    requires Distinct(s) && CanReplace(s)
    requires k !in Keys(s.t1) && k !in Keys(s.t2)
    ensures Distinct(Admit(Trim(Replace(s).state, k), k, v))
  {
    hide Replace, Trim, Admit, Directory, Residents, Keys;
    var r := Replace(s).state;
    var u := Trim(r, k);
    ReplaceKeepsOut(s, k);
    ReplaceKeepsDirectory(s);
    TrimKeepsDirectory(r, k);
    AdmitDirectory(u, k, v);
    Unknown(u, k);
    OneMore(Directory(s), Directory(u), k);
  }

  lemma Unknown<K, V>(s: Car<K, V>, k: K)
    ensures k in Directory(s) <==> k in Keys(s.t1) || k in Keys(s.t2) || InGhosts(s, k)
  {
  }

  /** A directory without repetitions keeps having none when it shrinks and then gains a new key. */
  lemma OneMore<K>(d: multiset<K>, e: multiset<K>, k: K)
    requires (forall q :: q in d ==> d[q] == 1) && e <= d
    ensures forall q :: q in e ==> e[q] == 1
    ensures k !in e ==> forall q :: q in e + multiset{k} ==> (e + multiset{k})[q] == 1
  {
    forall q | q in e ensures e[q] == 1 { assert e[q] <= d[q]; }
  }

  /** I1 to I6, p <= c and the exactness of the directory survive every `put`, and a full cache
      stays full (I7). */
  lemma PutKeepsInv<K, V>(s: Car<K, V>, k: K, v: V)
    requires Inv(s)
    ensures Inv(Put(s, k, v).state)
    ensures Full(s) ==> Full(Put(s, k, v).state)
  {
    hide Replace, Trim, Admit, Directory;
    if s.c == 0 {
    } else if k in Keys(s.t1) || k in Keys(s.t2) {
      HitKeepsInv(s, k, v);
    } else if Full(s) {
      MissKeepsBounds(s, k, v);
      MissKeepsDistinct(s, k, v);
    } else {
      FillKeepsInv(s, k, v);
    }
  }

  /** A refresh leaves the directory alone. */
  lemma HitKeepsInv<K, V>(s: Car<K, V>, k: K, v: V)
    requires Inv(s) && 0 < s.c && (k in Keys(s.t1) || k in Keys(s.t2))
    ensures Inv(Put(s, k, v).state) && (Full(s) ==> Full(Put(s, k, v).state))
  {
    hide Replace, Trim, Admit;
    var t := Put(s, k, v).state;
    if k in Keys(s.t1) { RefreshKeys(s.t1, k, v); } else { RefreshKeys(s.t2, k, v); }
    assert Directory(t) == Directory(s);
  }

  /** A new page in a cache that is not full. */
  lemma FillKeepsInv<K, V>(s: Car<K, V>, k: K, v: V)
    requires Inv(s) && !Full(s) && k !in Keys(s.t1) && k !in Keys(s.t2)
    ensures Inv(s.(t1 := s.t1 + [Page(k, v, false)]))
  {
    AdmitDirectory(s, k, v);
    assert k !in Directory(s);
  }

  // ---------- adaptation ----------

  /** The target moves only on a ghost hit: up, if it can, on a hit in B1, down, if it can, on a hit in
      B2. The hit is counted with the victim's ghost already in its list. */
  lemma TargetMoves<K, V>(s: Car<K, V>, k: K, v: V)
    requires Inv(s)
    ensures var t := Put(s, k, v).state;
            && (k !in s.b1 && k !in s.b2 ==> t.p == s.p)
            && (k in s.b1 ==> s.p <= t.p && (s.p < s.c ==> s.p < t.p))
            && (k in s.b2 ==> t.p <= s.p && (0 < s.p ==> t.p < s.p))
  {
    hide Replace;
    if InGhosts(s, k) { GhostIsNotResident(s, k); }
    if CanReplace(s) && k !in Keys(s.t1) && k !in Keys(s.t2) {
      ReplaceShape(s);
      ReplaceKeepsOut(s, k);
    }
  }

  /** A known key is on one list only, and ghosts exist only in a full cache. */
  lemma GhostIsNotResident<K, V>(s: Car<K, V>, k: K)
    requires Inv(s) && InGhosts(s, k)
    ensures k !in Keys(s.t1) && k !in Keys(s.t2) && Full(s) && !(k in s.b1 && k in s.b2)
  {
    assert k in Directory(s);
  }

  /** Ghost lists stay in order: on a miss in a full cache one of them gains the victim's key at its
      new end. A requested ghost leaves; for an unknown key the oldest ghost of B1 leaves if T1 and B1
      have come to c keys, else that of B2 if the directory holds 2c, else none. */
  lemma GhostsStayInOrder<K, V>(s: Car<K, V>, k: K, v: V) returns (b1: seq<K>, b2: seq<K>)
    requires Inv(s) && CanReplace(s) && k !in Keys(s.t1) && k !in Keys(s.t2)
    ensures var r := Put(s, k, v);
            && r.victim.Some?
            && var key := r.victim.value.key;
            && ((b1 == s.b1 + [key] && b2 == s.b2) || (b1 == s.b1 && b2 == s.b2 + [key]))
            && (if k in s.b1 then r.state.b1 == Without(b1, k) && r.state.b2 == b2
                else if k in s.b2 then r.state.b1 == b1 && r.state.b2 == Without(b2, k)
                else if |r.state.t1| - 1 + |b1| == s.c then b1 != [] && r.state.b1 == b1[1..] && r.state.b2 == b2
                else if |s.t1| + |s.t2| + |s.b1| + |s.b2| == 2 * s.c then
                  b2 != [] && r.state.b1 == b1 && r.state.b2 == b2[1..]
                else r.state.b1 == b1 && r.state.b2 == b2)
  {
    hide Replace, Delta, Without;
    ReplaceShape(s);
    ReplaceKeepsOut(s, k);
    b1, b2 := Replace(s).state.b1, Replace(s).state.b2;
  }

  // ---------- runs ----------

  datatype Op<K, V> = GetOp(key: K) | PutOp(key: K, value: V)

  function Apply<K(==), V>(s: Car<K, V>, op: Op<K, V>): Car<K, V>
    requires s.p <= s.c
  {
    match op
    case GetOp(k) => Get(s, k).0
    case PutOp(k, v) => Put(s, k, v).state
  }

  ghost function Run<K, V>(c: nat, ops: seq<Op<K, V>>): (s: Car<K, V>)
    ensures Inv(s) && s.c == c
  {
    if ops == [] then
      var e: Car<K, V> := Empty(c);
      assert Directory(e) == multiset{};
      e
    else
      var s := Run(c, ops[..|ops| - 1]);
      var op := ops[|ops| - 1];
      ApplyKeepsInv(s, op);
      Apply(s, op)
  }

  lemma ApplyKeepsInv<K, V>(s: Car<K, V>, op: Op<K, V>)
    requires Inv(s)
    ensures Inv(Apply(s, op)) && Apply(s, op).c == s.c
    ensures Full(s) ==> Full(Apply(s, op))
  {
    match op
    case GetOp(k) => GetKeepsInv(s, k);
    case PutOp(k, v) =>
      PutKeepsInv(s, k, v);
      if CanReplace(s) { ReplaceShape(s); }
  }

  /** A cache that has filled up is full for the rest of the run. */
  lemma {:induction false} FullForever<K, V>(c: nat, ops: seq<Op<K, V>>, n: nat)
    requires n <= |ops| && Full(Run(c, ops[..n]))
    ensures Full(Run(c, ops))
    decreases |ops|
  {
    if n == |ops| {
      assert ops[..n] == ops;
    } else {
      var before := ops[..|ops| - 1];
      assert before[..n] == ops[..n];
      FullForever(c, before, n);
      ApplyKeepsInv(Run(c, before), ops[|ops| - 1]);
    }
  }
}

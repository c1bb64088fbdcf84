/** Which page `replace` chooses, without the loop: the sweep of the two hands in closed form. */
module CarSweep {
  import opened Wrappers
  import opened CarSpec
  import opened CarMap
  import opened CarProperties

  function Cleared<K, V>(ps: seq<Page<K, V>>): (r: seq<Page<K, V>>)
    ensures |r| == |ps|
    ensures forall i :: 0 <= i < |ps| ==> r[i] == ps[i].(referenced := false)
  {
    seq(|ps|, i requires 0 <= i < |ps| => ps[i].(referenced := false))
  }

  /** How many pages from the hand on have their bit set, up to the first that does not. */
  function Leading<K, V>(ps: seq<Page<K, V>>): (n: nat)
    ensures n <= |ps|
    ensures forall i :: 0 <= i < n ==> ps[i].referenced
    ensures n < |ps| ==> !ps[n].referenced
  {
    if ps == [] || !ps[0].referenced then 0 else 1 + Leading(ps[1..])
  }

  /** How many pages T1 may lose before `replace` turns to T2. */
  function Quota<K, V>(s: Car<K, V>): (q: nat)
    ensures q <= |s.t1|
  {
    Max(0, |s.t1| - Max(1, s.p) + 1)
  }

  /** The result of `replace`: T1 gives up its first unreferenced page if the hand meets one within
      the quota; otherwise the quota moves to T2, whose hand then stops at its first unreferenced
      page, or, when there is none, at the page it started from. */
  function Sweep<K, V>(s: Car<K, V>): Step<K, V>
    requires CanReplace(s)
  {
    var (q, m) := (Quota(s), Leading(s.t1));
    if m < q then
      Step(s.(t1 := s.t1[m + 1..], t2 := s.t2 + Cleared(s.t1[..m]), b1 := s.b1 + [s.t1[m].key]), Some(s.t1[m]))
    else
      var u := s.t2 + Cleared(s.t1[..q]);
      var j := Leading(u);
      if j < |u| then
        Step(s.(t1 := s.t1[q..], t2 := u[j + 1..] + Cleared(u[..j]), b2 := s.b2 + [u[j].key]), Some(u[j]))
      else
        Step(s.(t1 := s.t1[q..], t2 := Cleared(u[1..]), b2 := s.b2 + [u[0].key]), Some(u[0].(referenced := false)))
  }

  /** After n fruitless passes over T1. */
  function Promoted<K, V>(s: Car<K, V>, n: nat): Car<K, V>
    requires n <= |s.t1|
  {
    s.(t1 := s.t1[n..], t2 := s.t2 + Cleared(s.t1[..n]))
  }

  /** After n fruitless passes over T2. */
  function Rotated<K, V>(s: Car<K, V>, n: nat): Car<K, V>
    requires n <= |s.t2|
  {
    s.(t2 := s.t2[n..] + Cleared(s.t2[..n]))
  }

  lemma PromoteStep<K, V>(s: Car<K, V>, n: nat)
    requires n < |s.t1| && s.t1[n].referenced && FromT1(Promoted(s, n))
    ensures Pass(Promoted(s, n)) == Step(Promoted(s, n + 1), None)
  {
  }

  lemma RotateStep<K, V>(s: Car<K, V>, n: nat)
    requires n < |s.t2| && s.t2[n].referenced && !FromT1(Rotated(s, n))
    ensures Rotated(s, n).t2 != []
    ensures Pass(Rotated(s, n)) == Step(Rotated(s, n + 1), None)
  {
  }

  lemma {:induction false} T1Passes<K, V>(s: Car<K, V>, n: nat)
    requires CanReplace(s) && n <= Quota(s) && n <= Leading(s.t1)
    ensures CanReplace(Promoted(s, n))
    ensures Replace(s) == Replace(Promoted(s, n))
    ensures Passes(s) == n + Passes(Promoted(s, n))
  {
    hide Pass, Leading, Bits;
    if n == 0 {
      assert Promoted(s, 0) == s;
    } else {
      T1Passes(s, n - 1);
      PassClearsOneBit(Promoted(s, n - 1));
      PromoteStep(s, n - 1);
    }
  }

  lemma {:induction false} T2Passes<K, V>(s: Car<K, V>, n: nat)
    requires CanReplace(s) && !FromT1(s) && n <= Leading(s.t2)
    ensures CanReplace(Rotated(s, n)) && !FromT1(Rotated(s, n))
    ensures Replace(s) == Replace(Rotated(s, n))
    ensures Passes(s) == n + Passes(Rotated(s, n))
  {
    hide Pass, Leading, Bits;
    if n == 0 {
      assert Rotated(s, 0) == s;
    } else {
      T2Passes(s, n - 1);
      PassClearsOneBit(Rotated(s, n - 1));
      RotateStep(s, n - 1);
    }
  }

  /** A pass that finds its victim is the last one. */
  lemma LastPass<K, V>(s: Car<K, V>)
    requires CanReplace(s)
    ensures FromT1(s) || s.t2 != []
    ensures Pass(s).victim.Some? ==> Replace(s) == Pass(s) && Passes(s) == 1
  {
    PassClearsOneBit(s);
  }

  /** The pass in which the T2 hand stops. */
  lemma T2Stop<K, V>(s: Car<K, V>)
    requires CanReplace(s) && !FromT1(s)
    ensures var t := Rotated(s, Leading(s.t2));
            !FromT1(t) && t.t2 != [] && Pass(t) == Sweep(s) && Pass(t).victim.Some?
  {
    var j := Leading(s.t2);
    var t := Rotated(s, j);
    assert s.t2 + Cleared(s.t1[..0]) == s.t2;
    assert s.t1[0..] == s.t1;
    if j < |s.t2| {
      assert t.t2[0] == s.t2[j];
      assert t.t2[1..] == s.t2[j + 1..] + Cleared(s.t2[..j]);
    } else {
      assert t.t2 == Cleared(s.t2);
      assert Cleared(s.t2)[1..] == Cleared(s.t2[1..]);
    }
  }

  /** The T2 part of a sweep. */
  lemma T2Sweep<K, V>(s: Car<K, V>)
    requires CanReplace(s) && !FromT1(s)
    ensures Replace(s) == Sweep(s)
    ensures Passes(s) == Leading(s.t2) + 1
  {
    hide Pass, Replace, Passes, Sweep, Rotated, Leading;
    T2Passes(s, Leading(s.t2));
    T2Stop(s);
    LastPass(Rotated(s, Leading(s.t2)));
  }

  /** The loop of `replace` computes the sweep; all its T1 passes come before all its T2 passes. */
  lemma ReplaceIsSweep<K, V>(s: Car<K, V>)
    requires CanReplace(s)
    ensures Replace(s) == Sweep(s)
  {
    var (q, m) := (Quota(s), Leading(s.t1));
    if m < q {
      T1Passes(s, m);
      var t := Promoted(s, m);
      PassClearsOneBit(t);
      assert t.t1[0] == s.t1[m] && t.t1[1..] == s.t1[m + 1..];
    } else {
      T1Passes(s, q);
      var t := Promoted(s, q);
      assert !FromT1(t);
      T2Sweep(t);
      assert t.t2 + Cleared(t.t1[..0]) == t.t2;
      assert t.t1[0..] == t.t1;
    }
  }

  /** Every page the hands examine before giving up the first time has its bit set. */
  ghost predicate AllReferenced<K, V>(s: Car<K, V>) {
    && (forall i :: 0 <= i < |s.t2| ==> s.t2[i].referenced)
    && (forall i :: 0 <= i < Quota(s) ==> s.t1[i].referenced)
  }

  /** The victim as it stood on entry. */
  lemma VictimOnEntry<K, V>(s: Car<K, V>) returns (h: Page<K, V>)
    requires CanReplace(s)
    ensures h in s.t1 + s.t2
    ensures Sweep(s).victim.Some? && h.key == Sweep(s).victim.value.key
    ensures h.referenced <==> AllReferenced(s)
  {
    var (q, m) := (Quota(s), Leading(s.t1));
    if m < q {
      h := s.t1[m];
    } else {
      var u := s.t2 + Cleared(s.t1[..q]);
      var j := Leading(u);
      assert forall i :: 0 <= i < |s.t2| ==> u[i] == s.t2[i];
      assert forall i :: |s.t2| <= i < |u| ==> u[i] == s.t1[i - |s.t2|].(referenced := false);
      if j < |s.t2| {
        h := s.t2[j];
      } else if q > 0 {
        assert u[|s.t2|] == s.t1[0].(referenced := false);
        h := s.t1[0];
      } else {
        h := s.t2[0];
      }
    }
  }

  /** Second chance, exactly: the page that leaves had its bit set on entry just when every page of
      T2 did and so did every page of T1 within the quota. */
  lemma SecondChance<K, V>(s: Car<K, V>, pg: Page<K, V>)
    requires CanReplace(s) && Distinct(s)
    requires pg in s.t1 + s.t2 && Replace(s).victim.Some? && pg.key == Replace(s).victim.value.key
    ensures pg.referenced <==> AllReferenced(s)
  {
    ReplaceIsSweep(s);
    var h := VictimOnEntry(s);
    SamePage(s, pg, h);
  }

  lemma SamePage<K, V>(s: Car<K, V>, a: Page<K, V>, b: Page<K, V>)
    requires Distinct(s) && a in s.t1 + s.t2 && b in s.t1 + s.t2 && a.key == b.key
    ensures a == b
  {
    DistinctPages(s);
  }

  /** A hit marks its page and no other. */
  lemma GetMarks<K, V>(s: Car<K, V>, k: K) returns (pg: Page<K, V>)
    requires Get(s, k).1.Some?
    ensures var t := Get(s, k).0;
            && pg in t.t1 + t.t2 && pg.key == k && pg.referenced && Some(pg.value) == Get(s, k).1
            && t.b1 == s.b1 && t.b2 == s.b2 && t.p == s.p && t.c == s.c
            && |t.t1| == |s.t1| && |t.t2| == |s.t2|
            && (forall i :: 0 <= i < |s.t1| && s.t1[i].key != k ==> t.t1[i] == s.t1[i])
            && (forall i :: 0 <= i < |s.t2| && s.t2[i].key != k ==> t.t2[i] == s.t2[i])
  {
    var t := Get(s, k).0;
    if k in Keys(s.t1) {
      pg := t.t1[IndexOf(Keys(s.t1), k)];
    } else {
      pg := t.t2[IndexOf(Keys(s.t2), k)];
    }
  }

  /** A page read since the last replacement is evicted by the next one only if every page the hands
      examine has its bit set. */
  lemma ReadPageIsSpared<K, V>(s: Car<K, V>, k: K)
    requires Inv(s) && Get(s, k).1.Some?
    requires CanReplace(Get(s, k).0) && Replace(Get(s, k).0).victim.Some?
    requires Replace(Get(s, k).0).victim.value.key == k
    ensures AllReferenced(Get(s, k).0)
  {
    hide Replace;
    GetKeepsInv(s, k);
    var pg := GetMarks(s, k);
    SecondChance(Get(s, k).0, pg);
  }

  // ---------- scans ----------

  /** The directory state from which a scan of new keys cannot hurt T2. */
  ghost predicate ScanProof<K, V>(s: Car<K, V>) {
    Inv(s) && CanReplace(s) && s.p <= 1 && exists pg :: pg in s.t1 && !pg.referenced
  }

  ghost predicate Fresh<K, V>(s: Car<K, V>, puts: seq<(K, V)>) {
    && (forall i :: 0 <= i < |puts| ==> puts[i].0 !in Directory(s))
    && (forall i, j :: 0 <= i < j < |puts| ==> puts[i].0 != puts[j].0)
  }

  ghost function Scan<K, V>(s: Car<K, V>, puts: seq<(K, V)>): Car<K, V>
    requires Inv(s)
    decreases |puts|
  {
    if puts == [] then s
    else
      PutKeepsInv(s, puts[0].0, puts[0].1);
      Scan(Put(s, puts[0].0, puts[0].1).state, puts[1..])
  }

  lemma UnknownKey<K, V>(s: Car<K, V>, k: K)
    requires k !in Directory(s)
    ensures k !in Keys(s.t1) && k !in Keys(s.t2) && !InGhosts(s, k)
  {
  }

  lemma ScanDirectory<K, V>(s: Car<K, V>, k: K, v: V)
    requires CanReplace(s) && k !in Directory(s)
    ensures var u := Trim(Replace(s).state, k);
            && Put(s, k, v) == Step(u.(t1 := u.t1 + [Page(k, v, false)]), Replace(s).victim)
            && Directory(Put(s, k, v).state) <= Directory(s) + multiset{k}
  {
    var u := Trim(Replace(s).state, k);
    UnknownKey(s, k);
    ReplaceKeepsDirectory(s);
    TrimKeepsDirectory(Replace(s).state, k);
    assert k !in Directory(u);
    UnknownKey(u, k);
    AdmitDirectory(u, k, v);
  }

  lemma ScanStep<K, V>(s: Car<K, V>, k: K, v: V)
    requires ScanProof(s) && k !in Directory(s)
    ensures var r := Put(s, k, v);
            && ScanProof(r.state)
            && s.t2 <= r.state.t2
            && r.state.p == s.p
            && r.victim.Some? && r.victim.value in s.t1 && !r.victim.value.referenced
            && Directory(r.state) <= Directory(s) + multiset{k}
  {
    var pg :| pg in s.t1 && !pg.referenced;
    ReplaceIsSweep(s);
    assert Leading(s.t1) < |s.t1| == Quota(s);
    ScanDirectory(s, k, v);
    PutKeepsInv(s, k, v);
    var t := Put(s, k, v).state;
    assert t.t1[|t.t1| - 1] == Page(k, v, false);
  }

  /** Scan resistance over any length: new keys only ever push out unreferenced pages of T1, so T2
      keeps every page it had, in order and in front, and the target does not move. */
  lemma {:induction false} ScanResistance<K, V>(s: Car<K, V>, puts: seq<(K, V)>)
    requires ScanProof(s) && Fresh(s, puts)
    ensures var t := Scan(s, puts);
            ScanProof(t) && s.t2 <= t.t2 && t.p == s.p
    decreases |puts|
  {
    if puts != [] {
      var (k, v) := puts[0];
      ScanStep(s, k, v);
      var t := Put(s, k, v).state;
      forall i | 0 <= i < |puts[1..]| ensures puts[1..][i].0 !in Directory(t) {
        assert puts[1..][i] == puts[i + 1];
        assert puts[0].0 != puts[i + 1].0;
      }
      ScanResistance(t, puts[1..]);
    }
  }
}

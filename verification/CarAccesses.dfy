/** What one access does to the cache, page by page: which bit it sets, where a new page goes and how far
    the target moves. */
module CarAccesses {
  import opened Wrappers
  import opened CarSpec
  import opened CarProperties
  import opened CarMap
  import opened CarSweep

  ghost predicate Resident<K, V>(s: Car<K, V>, k: K) {
    k in Keys(s.t1) || k in Keys(s.t2)
  }

  /** Page for page the same, but for the page of k, which is now n. */
  ghost predicate Rewritten<K, V>(before: seq<Page<K, V>>, after: seq<Page<K, V>>, k: K, n: Page<K, V>) {
    && |after| == |before|
    && forall i :: 0 <= i < |before| ==> after[i] == if before[i].key == k then n else before[i]
  }

  ghost predicate Accessed<K, V>(s: Car<K, V>, t: Car<K, V>, k: K, n: Page<K, V>) {
    && Rewritten(s.t1, t.t1, k, n) && Rewritten(s.t2, t.t2, k, n)
    && t.b1 == s.b1 && t.b2 == s.b2 && t.p == s.p && t.c == s.c
  }

  /** A key's page is found at its first place, which is its only one. */
  lemma OnlyPlace<K, V>(ps: seq<Page<K, V>>, k: K, n: Page<K, V>)
    requires OnePageEach(ps) && k in Keys(ps)
    ensures Rewritten(ps, ps[IndexOf(Keys(ps), k) := n], k, n)
  {
  }

  lemma NowhereElse<K, V>(s: Car<K, V>, k: K)
    requires Distinct(s)
    ensures OnePageEach(s.t1) && OnePageEach(s.t2)
    ensures !(k in Keys(s.t1) && k in Keys(s.t2))
  {
    hide OnePageEach;
    DistinctPages(s);
    Apart(s.t1, s.t2, k);
  }

  lemma Apart<K, V>(a: seq<Page<K, V>>, b: seq<Page<K, V>>, k: K)
    requires OnePageEach(a + b)
    ensures OnePageEach(a) && OnePageEach(b)
    ensures !(k in Keys(a) && k in Keys(b))
  {
    assert forall i :: 0 <= i < |a| ==> (a + b)[i] == a[i];
    forall i, j | 0 <= i < |b| && 0 <= j < |b| && b[i].key == b[j].key ensures i == j {
      assert (a + b)[|a| + i] == b[i] && (a + b)[|a| + j] == b[j];
    }
    forall i, j | 0 <= i < |a| && 0 <= j < |b| ensures a[i].key != b[j].key {
      assert (a + b)[i] == a[i] && (a + b)[|a| + j] == b[j];
    }
    if k in Keys(a) {
      assert a[IndexOf(Keys(a), k)].key == k;
    }
  }

  lemma Untouched<K, V>(ps: seq<Page<K, V>>, k: K, n: Page<K, V>)
    requires k !in Keys(ps)
    ensures Rewritten(ps, ps, k, n)
  {
    assert forall i :: 0 <= i < |ps| ==> Keys(ps)[i] == ps[i].key;
  }

  /** Writing a resident key gives its page, where it stands, the value and a set reference bit; every
      other page, the ghosts and the target stay, and nothing is evicted. */
  lemma WriteMarks<K, V>(s: Car<K, V>, k: K, v: V)
    requires Inv(s) && Resident(s, k)
    ensures Put(s, k, v).victim.None?
    ensures Accessed(s, Put(s, k, v).state, k, Page(k, v, true))
  {
    hide Directory, OnePageEach, Rewritten;
    NowhereElse(s, k);
    var n := Page(k, v, true);
    if k in Keys(s.t1) {
      OnlyPlace(s.t1, k, n);
      Untouched(s.t2, k, n);
    } else {
      OnlyPlace(s.t2, k, n);
      Untouched(s.t1, k, n);
    }
  }

  /** Reading a resident key sets the reference bit of its page and changes nothing else. */
  lemma ReadMarks<K, V>(s: Car<K, V>, k: K)
    requires Inv(s) && Resident(s, k)
    ensures Get(s, k).1.Some? && Accessed(s, Get(s, k).0, k, Page(k, Get(s, k).1.value, true))
  {
    hide Directory, OnePageEach, Rewritten;
    NowhereElse(s, k);
    var n := Page(k, Get(s, k).1.value, true);
    if k in Keys(s.t1) {
      OnlyPlace(s.t1, k, n);
      Untouched(s.t2, k, n);
    } else {
      OnlyPlace(s.t2, k, n);
      Untouched(s.t1, k, n);
    }
  }

  // ---------- second chance for every use ----------

  /** The key's page has its reference bit set. */
  ghost predicate Marked<K, V>(s: Car<K, V>, k: K) {
    exists pg :: pg in s.t1 + s.t2 && pg.key == k && pg.referenced
  }

  /** An access that finds the key. */
  ghost predicate Uses<K, V>(s: Car<K, V>, op: Op<K, V>, k: K) {
    op.key == k && Resident(s, k)
  }

  /** No operation of the run evicts. */
  ghost predicate EvictsNothing<K, V>(s: Car<K, V>, ops: seq<Op<K, V>>)
    requires Inv(s)
    decreases |ops|
  {
    ops == [] ||
    (ApplyKeepsInv(s, ops[0]);
     && (ops[0].PutOp? ==> Put(s, ops[0].key, ops[0].value).victim.None?)
     && EvictsNothing(Apply(s, ops[0]), ops[1..]))
  }

  ghost function ApplyAll<K, V>(s: Car<K, V>, ops: seq<Op<K, V>>): (t: Car<K, V>)
    requires Inv(s)
    ensures Inv(t)
    decreases |ops|
  {
    if ops == [] then s else ApplyKeepsInv(s, ops[0]); ApplyAll(Apply(s, ops[0]), ops[1..])
  }

  lemma RewrittenMarks<K, V>(before: seq<Page<K, V>>, after: seq<Page<K, V>>, k: K, n: Page<K, V>, i: nat)
    requires Rewritten(before, after, k, n) && n.key == k && n.referenced && i < |before|
    requires before[i].key == k || before[i].referenced
    ensures after[i] in after && after[i].key == before[i].key && after[i].referenced
  {
  }

  lemma AccessedMarks<K, V>(s: Car<K, V>, t: Car<K, V>, k: K, n: Page<K, V>, q: K)
    requires Accessed(s, t, k, n) && n.key == k && n.referenced
    requires Marked(s, q) || (q == k && Resident(s, k))
    ensures Marked(t, q)
  {
    hide Rewritten;
    if exists i :: 0 <= i < |s.t1| && s.t1[i].key == q && (q == k || s.t1[i].referenced) {
      var i :| 0 <= i < |s.t1| && s.t1[i].key == q && (q == k || s.t1[i].referenced);
      RewrittenMarks(s.t1, t.t1, k, n, i);
    } else {
      SomePlace(s, k, q);
      var i :| 0 <= i < |s.t2| && s.t2[i].key == q && (q == k || s.t2[i].referenced);
      RewrittenMarks(s.t2, t.t2, k, n, i);
    }
  }

  lemma SomePlace<K, V>(s: Car<K, V>, k: K, q: K)
    requires Marked(s, q) || (q == k && Resident(s, k))
    ensures || (exists i :: 0 <= i < |s.t1| && s.t1[i].key == q && (q == k || s.t1[i].referenced))
            || (exists i :: 0 <= i < |s.t2| && s.t2[i].key == q && (q == k || s.t2[i].referenced))
  {
    if Marked(s, q) {
      var pg :| pg in s.t1 + s.t2 && pg.key == q && pg.referenced;
    } else if k in Keys(s.t1) {
      assert s.t1[IndexOf(Keys(s.t1), k)].key == q;
    } else {
      assert s.t2[IndexOf(Keys(s.t2), k)].key == q;
    }
  }

  /** Every use of a page marks it, and a mark lasts while nothing is evicted. */
  lemma MarkLasts<K, V>(s: Car<K, V>, op: Op<K, V>, k: K)
    requires Inv(s) && (op.PutOp? ==> Put(s, op.key, op.value).victim.None?)
    requires Marked(s, k) || Uses(s, op, k)
    ensures Marked(Apply(s, op), k)
  {
    hide Inv, Accessed;
    InvParts(s);
    var q := op.key;
    if Resident(s, q) {
      match op
      case GetOp(_) =>
        ReadMarks(s, q);
        AccessedMarks(s, Apply(s, op), q, Page(q, Get(s, q).1.value, true), k);
      case PutOp(_, v) =>
        WriteMarks(s, q, v);
        AccessedMarks(s, Apply(s, op), q, Page(q, v, true), k);
    } else if op.PutOp? {
      NoVictim(s, q, op.value);
      var pg :| pg in s.t1 + s.t2 && pg.key == k && pg.referenced;
      assert pg in Apply(s, op).t1 + Apply(s, op).t2;
    }
  }

  lemma NoVictim<K, V>(s: Car<K, V>, k: K, v: V)
    requires Inv(s) && !Resident(s, k) && Put(s, k, v).victim.None?
    ensures Put(s, k, v).state.t2 == s.t2
    ensures Put(s, k, v).state.t1 == if s.c == 0 then s.t1 else s.t1 + [Page(k, v, false)]
  {
    hide Replace;
    if CanReplace(s) { ReplaceShape(s); }
  }

  lemma {:induction false} MarkLastsLong<K, V>(s: Car<K, V>, ops: seq<Op<K, V>>, k: K)
    requires Inv(s) && EvictsNothing(s, ops) && Marked(s, k)
    ensures Marked(ApplyAll(s, ops), k)
    decreases |ops|
  {
    if ops != [] {
      ApplyKeepsInv(s, ops[0]);
      MarkLasts(s, ops[0], k);
      MarkLastsLong(Apply(s, ops[0]), ops[1..], k);
    }
  }

  /** A page read or written since the last replacement is evicted by the next one only if every page the
      hands examine has its bit set. */
  lemma UsedPageIsSpared<K, V>(s: Car<K, V>, op: Op<K, V>, rest: seq<Op<K, V>>, k: K)
    requires Inv(s) && Uses(s, op, k) && EvictsNothing(s, [op] + rest)
    requires CanReplace(ApplyAll(s, [op] + rest)) && Replace(ApplyAll(s, [op] + rest)).victim.Some?
    requires Replace(ApplyAll(s, [op] + rest)).victim.value.key == k
    ensures AllReferenced(ApplyAll(s, [op] + rest))
  {
    hide Replace, Inv;
    var u := ApplyAll(s, [op] + rest);
    assert ([op] + rest)[1..] == rest;
    InvParts(s);
    ApplyKeepsInv(s, op);
    MarkLasts(s, op, k);
    MarkLastsLong(Apply(s, op), rest, k);
    var pg :| pg in u.t1 + u.t2 && pg.key == k && pg.referenced;
    InvParts(u);
    SecondChance(u, pg);
  }

  lemma InvParts<K, V>(s: Car<K, V>)
    requires Inv(s)
    ensures Distinct(s) && s.p <= s.c
  {
  }

  // ---------- a new page ----------

  /** A page that comes in starts unreferenced, at the tail of T2 if its ghost was known and of T1
      otherwise; the other pages are those the sweep leaves, or all of them in a cache not yet full. */
  lemma NewPagePlace<K, V>(s: Car<K, V>, k: K, v: V)
    requires Inv(s) && 0 < s.c && !Resident(s, k)
    ensures var (t, page) := (Put(s, k, v).state, Page(k, v, false));
            var (t1, t2) := if Full(s) then (Sweep(s).state.t1, Sweep(s).state.t2) else (s.t1, s.t2);
            && Put(s, k, v).victim == (if Full(s) then Sweep(s).victim else None)
            && t.t1 == (if InGhosts(s, k) then t1 else t1 + [page])
            && t.t2 == (if InGhosts(s, k) then t2 + [page] else t2)
            && (!Full(s) ==> !InGhosts(s, k) && t.b1 == [] && t.b2 == [] && t.p == s.p)
  {
    hide Replace, Sweep, Delta;
    if Full(s) {
      ReplaceIsSweep(s);
      ReplaceKeepsOut(s, k);
      TrimKeepsPages(Replace(s).state, k);
    }
  }

  lemma TrimKeepsPages<K, V>(s: Car<K, V>, k: K)
    ensures var t := Trim(s, k);
            && t.t1 == s.t1 && t.t2 == s.t2 && t.c == s.c && t.p == s.p
            && (k in t.b1 ==> k in s.b1) && (k in t.b2 ==> k in s.b2) && (InGhosts(s, k) ==> t == s)
  {
  }

  /** The whole number of times that den goes into num, but at least once. */
  ghost predicate IsStep(d: nat, num: nat, den: nat) {
    d >= 1 && num < (d + 1) * den && (d > 1 ==> d * den <= num)
  }

  lemma DeltaIsStep(num: nat, den: nat)
    requires den > 0
    ensures IsStep(Delta(num, den), num, den)
  {
  }

  /** How far the target moves on a ghost hit: up by |B2| / |B1| or down by |B1| / |B2|, as the lists
      stand with the victim's ghost in, by at least one and within 0 and c. */
  lemma TargetStep<K, V>(s: Car<K, V>, k: K, v: V) returns (d: nat)
    requires Inv(s) && CanReplace(s) && InGhosts(s, k)
    ensures var (t, b1, b2) := (Put(s, k, v).state, |Sweep(s).state.b1|, |Sweep(s).state.b2|);
            if k in s.b1 then IsStep(d, b2, b1) && t.p == (if s.p + d <= s.c then s.p + d else s.c)
            else IsStep(d, b1, b2) && t.p == (if d <= s.p then s.p - d else 0)
  {
    hide Replace, Sweep, Delta, IsStep;
    GhostIsNotResident(s, k);
    ReplaceIsSweep(s);
    ReplaceShape(s);
    ReplaceKeepsOut(s, k);
    var r := Replace(s).state;
    if k in s.b1 {
      d := Delta(|r.b2|, |r.b1|);
      DeltaIsStep(|r.b2|, |r.b1|);
    } else {
      d := Delta(|r.b1|, |r.b2|);
      DeltaIsStep(|r.b1|, |r.b2|);
    }
  }

  lemma {:induction false} IndexIs<K>(older: seq<K>, k: K, newer: seq<K>)
    requires k !in older
    ensures IndexOf(older + ([k] + newer), k) == |older|
    decreases |older|
  {
    var ks := older + ([k] + newer);
    if older != [] {
      assert ks[0] == older[0] && ks[1..] == older[1..] + ([k] + newer);
      IndexIs(older[1..], k, newer);
    }
  }

  /** A ghost that leaves its list leaves the others in their order. */
  lemma WithoutKeepsOrder<K>(older: seq<K>, k: K, newer: seq<K>)
    requires k !in older
    ensures Without(older + ([k] + newer), k) == older + newer
  {
    IndexIs(older, k, newer);
  }

  /** Until the cache has filled up there are no ghosts and the target is where it started, at 0. */
  lemma {:induction false} NoAdaptationBeforeFull<K, V>(c: nat, ops: seq<Op<K, V>>)
    requires !Full(Run(c, ops))
    ensures Run(c, ops).p == 0 && Run(c, ops).b1 == [] && Run(c, ops).b2 == []
  {
    if ops != [] {
      var before := ops[..|ops| - 1];
      ApplyKeepsInv(Run(c, before), ops[|ops| - 1]);
      NoAdaptationBeforeFull(c, before);
    }
  }
}

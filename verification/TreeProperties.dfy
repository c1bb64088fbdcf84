/** Routing and fairness in a tree of any depth. */
module TreeProperties {
  import opened Wrappers
  import opened Arithmetic
  import opened SchedulerTrees

  /** The node a path leads to: the last index is the root's. */
  ghost function At(t: Node, path: seq<nat>): Option<Node>
    decreases |path|
  {
    if path == [] then Some(t)
    else
      var idx := path[|path| - 1];
      if t.Branch? && idx < |t.children| then At(t.children[idx], path[..|path| - 1]) else None
  }

  /** No branch has more children than an index can tell apart. */
  ghost predicate Narrow(t: Node) {
    t.Branch? ==> |t.children| <= U32 && forall i :: 0 <= i < |t.children| ==> Narrow(t.children[i])
  }

  /** u is t later: the same leaves at the same places, perhaps more children at the ends. */
  ghost predicate Extends(t: Node, u: Node) {
    match t
    case Leaf(name, supply, _, _) => u.Leaf? && u.name == name && u.supply == supply
    case Branch(children, _) =>
      && u.Branch? && |children| <= |u.children|
      && forall i :: 0 <= i < |children| ==> Extends(children[i], u.children[i])
  }

  lemma {:induction false} ExtendsSelf(t: Node)
    ensures Extends(t, t)
  {
    if t.Branch? {
      forall i | 0 <= i < |t.children| ensures Extends(t.children[i], t.children[i]) { ExtendsSelf(t.children[i]); }
    }
  }

  lemma {:induction false} ExtendsTrans(t: Node, u: Node, v: Node)
    requires Extends(t, u) && Extends(u, v)
    ensures Extends(t, v)
    decreases t
  {
    if t.Branch? {
      forall i | 0 <= i < |t.children| ensures Extends(t.children[i], v.children[i]) {
        ExtendsTrans(t.children[i], u.children[i], v.children[i]);
      }
    }
  }

  // ---------- what one take does ----------

  /** Every child is left alone or asked once; work comes from a child that had it, and the cursor
      moves behind that child. */
  ghost predicate Taken(children: seq<Node>, after: Node, ticket: Option<Ticket>, idx: nat)
    requires forall i :: 0 <= i < |children| ==> WellFormed(children[i])
  {
    && after.Branch? && |after.children| == |children|
    && (forall i :: 0 <= i < |children| ==> after.children[i] == children[i] || after.children[i] == TakeNext(children[i]).0)
    && (ticket.Some? ==>
          && idx < |children|
          && after.children[idx] == TakeNext(children[idx]).0
          && TakeNext(children[idx]).1.Some?
          && var inner := TakeNext(children[idx]).1.value;
          && ticket.value == Ticket(inner.work, inner.path + [Stamp(idx)])
          && after.cursor == Advance(idx, |children|))
  }

  lemma {:induction false} ScanTakes(children: seq<Node>, now: seq<Node>, cursor: nat, k: nat) returns (idx: nat)
    requires |now| == |children| && cursor < |children| && k <= |children|
    requires forall i :: 0 <= i < |children| ==> WellFormed(children[i])
    requires forall i :: 0 <= i < |children| ==> now[i] == children[i] || now[i] == TakeNext(children[i]).0
    ensures Taken(children, Scan(children, now, cursor, k).0, Scan(children, now, cursor, k).1, idx)
    ensures Scan(children, now, cursor, k).0.cursor < |children|
    decreases |children| - k
  {
    if k == |children| {
      idx := 0;
    } else {
      idx := Slot(cursor, k, |children|);
      var (child, ticket) := TakeNext(children[idx]);
      if ticket.None? {
        idx := ScanTakes(children, now[idx := child], cursor, k + 1);
      }
    }
  }

  /** The first m children from the cursor on were asked and had no work; the next one, if there is one,
      gave its ticket; the rest were not asked. */
  ghost predicate Asked(children: seq<Node>, cursor: nat, after: Node, ticket: Option<Ticket>, m: nat)
    requires cursor < |children| && forall i :: 0 <= i < |children| ==> WellFormed(children[i])
  {
    var n := |children|;
    && m <= n && after.Branch? && |after.children| == n
    && (forall j :: 0 <= j < m ==>
          var child := children[Slot(cursor, j, n)];
          TakeNext(child).1.None? && after.children[Slot(cursor, j, n)] == TakeNext(child).0)
    && (forall j :: m < j < n ==> after.children[Slot(cursor, j, n)] == children[Slot(cursor, j, n)])
    && if m == n then ticket.None? && after.cursor == cursor
       else
         var idx := Slot(cursor, m, n);
         var (child, inner) := TakeNext(children[idx]);
         && inner.Some? && ticket == Some(Ticket(inner.value.work, inner.value.path + [Stamp(idx)]))
         && after.children[idx] == child && after.cursor == Advance(idx, n)
  }

  lemma {:induction false} ScanAsks(children: seq<Node>, now: seq<Node>, cursor: nat, k: nat) returns (m: nat)
    requires |now| == |children| && cursor < |children| && k <= |children|
    requires forall i :: 0 <= i < |children| ==> WellFormed(children[i])
    requires forall j :: 0 <= j < k ==>
               var child := children[Slot(cursor, j, |children|)];
               TakeNext(child).1.None? && now[Slot(cursor, j, |children|)] == TakeNext(child).0
    requires forall j :: k <= j < |children| ==> now[Slot(cursor, j, |children|)] == children[Slot(cursor, j, |children|)]
    ensures Asked(children, cursor, Scan(children, now, cursor, k).0, Scan(children, now, cursor, k).1, m)
    decreases |children| - k
  {
    hide Advance, Stamp;
    m := k;
    if k < |children| {
      var idx := Slot(cursor, k, |children|);
      var (child, ticket) := TakeNext(children[idx]);
      if ticket.None? { m := ScanAsks(children, now[idx := child], cursor, k + 1); }
    }
  }

  /** A take asks the children in order from the cursor on until one has work, and no other; none has
      when there is no ticket. */
  lemma TakeAsks(t: Node) returns (m: nat)
    requires WellFormed(t) && t.Branch? && t.children != []
    ensures Asked(t.children, t.cursor, TakeNext(t).0, TakeNext(t).1, m)
  {
    m := ScanAsks(t.children, t.children, t.cursor, 0);
  }

  lemma {:induction false} TakeExtends(t: Node)
    requires WellFormed(t)
    ensures Extends(t, TakeNext(t).0) && WellFormed(TakeNext(t).0)
    decreases t
  {
    if t.Branch? && t.children != [] {
      var u := TakeNext(t).0;
      var _ := ScanTakes(t.children, t.children, t.cursor, 0);
      forall i | 0 <= i < |t.children| ensures Extends(t.children[i], u.children[i]) && WellFormed(u.children[i]) {
        ExtendsSelf(t.children[i]);
        TakeExtends(t.children[i]);
      }
    }
  }

  /** The indices fit in 32 bits, so that stamping them loses nothing. */
  ghost predicate Fit(place: seq<nat>) {
    forall i :: 0 <= i < |place| ==> place[i] < U32
  }

  /** Where the work of a take came from: a leaf that has just made it, at the place whose indices the
      path carries, each cut to 32 bits. */
  lemma {:induction false} Producer(t: Node) returns (place: seq<nat>)
    requires WellFormed(t) && TakeNext(t).1.Some?
    ensures var (u, ticket) := (TakeNext(t).0, TakeNext(t).1.value);
            && |place| == |ticket.path| && (forall i :: 0 <= i < |place| ==> ticket.path[i] == Stamp(place[i]))
            && At(u, place).Some? && At(u, place).value.Leaf?
            && var leaf := At(u, place).value;
            && leaf.name == ticket.work.leaf && leaf.supply(ticket.work.serial) && leaf.calls == ticket.work.serial + 1
    ensures Narrow(t) ==> Fit(place)
    decreases t
  {
    hide Stamp, Advance, Scan;
    place := [];
    if t.Branch? && t.children != [] {
      var idx := ScanTakes(t.children, t.children, t.cursor, 0);
      var inner := Producer(t.children[idx]);
      place := inner + [idx];
      assert place[..|place| - 1] == inner;
    }
  }

  // ---------- what happens before the completion ----------

  datatype TreeOp = TakeOp | CompleteOp(ticket: Ticket) | AttachOp(path: seq<nat>, child: Node)

  ghost predicate Legal(ops: seq<TreeOp>) {
    forall i :: 0 <= i < |ops| && ops[i].AttachOp? ==> WellFormed(ops[i].child)
  }

  ghost function Evolve(t: Node, ops: seq<TreeOp>): (u: Node)
    requires WellFormed(t) && Legal(ops)
    ensures WellFormed(u) && Extends(t, u)
  {
    if ops == [] then ExtendsSelf(t); t
    else
      var rest := ops[..|ops| - 1];
      var v := Evolve(t, rest);
      var u :=
        match ops[|ops| - 1]
        case TakeOp => TakeNext(v).0
        case CompleteOp(ticket) => OnComplete(v, ticket)
        case AttachOp(path, child) => Attach(v, path, child);
      EvolveOne(v, ops[|ops| - 1]);
      ExtendsTrans(t, v, u);
      u
  }

  lemma EvolveOne(v: Node, op: TreeOp)
    requires WellFormed(v) && (op.AttachOp? ==> WellFormed(op.child))
    ensures op.TakeOp? ==> Extends(v, TakeNext(v).0) && WellFormed(TakeNext(v).0)
    ensures op.CompleteOp? ==> Extends(v, OnComplete(v, op.ticket)) && WellFormed(OnComplete(v, op.ticket))
    ensures op.AttachOp? ==> Extends(v, Attach(v, op.path, op.child)) && WellFormed(Attach(v, op.path, op.child))
  {
    match op
    case TakeOp => TakeExtends(v);
    case CompleteOp(ticket) => CompleteExtends(v, ticket);
    case AttachOp(path, child) => AttachExtends(v, path, child);
  }

  lemma {:induction false} CompleteExtends(t: Node, ticket: Ticket)
    requires WellFormed(t)
    ensures Extends(t, OnComplete(t, ticket)) && WellFormed(OnComplete(t, ticket))
    decreases t
  {
    ExtendsSelf(t);
    if t.Branch? && ticket.path != [] && ticket.path[|ticket.path| - 1] < |t.children| {
      CompleteExtends(t.children[ticket.path[|ticket.path| - 1]], ticket.(path := ticket.path[..|ticket.path| - 1]));
    }
  }

  lemma {:induction false} AttachExtends(t: Node, path: seq<nat>, child: Node)
    requires WellFormed(t) && WellFormed(child)
    ensures Extends(t, Attach(t, path, child)) && WellFormed(Attach(t, path, child))
    decreases t
  {
    ExtendsSelf(t);
    if t.Branch? && path != [] && path[|path| - 1] < |t.children| {
      AttachExtends(t.children[path[|path| - 1]], path[..|path| - 1], child);
    }
  }

  /** A path to a leaf leads to the same leaf later. */
  lemma {:induction false} AtExtends(t: Node, u: Node, path: seq<nat>)
    requires Extends(t, u) && At(t, path).Some? && At(t, path).value.Leaf?
    ensures At(u, path).Some? && At(u, path).value.Leaf? && At(u, path).value.name == At(t, path).value.name
    decreases |path|
  {
    if path != [] {
      AtExtends(t.children[path[|path| - 1]], u.children[path[|path| - 1]], path[..|path| - 1]);
    }
  }

  /** The path leads to that place or below it. */
  ghost predicate Under(path: seq<nat>, place: seq<nat>) {
    |place| <= |path| && path[|path| - |place|..] == place
  }

  /** A completion reaches the leaf its path leads to, with what is left of the path, and changes no
      other leaf. */
  lemma {:induction false} Delivers(t: Node, ticket: Ticket, q: seq<nat>)
    requires At(t, q).Some? && At(t, q).value.Leaf?
    ensures var (leaf, p) := (At(t, q).value, ticket.path);
            At(OnComplete(t, ticket), q) ==
            Some(if Under(p, q) then leaf.(received := leaf.received + [ticket.(path := p[..|p| - |q|])]) else leaf)
    decreases |q|
  {
    hide Under;
    var p := ticket.path;
    if q == [] {
      UnderAll(p);
    } else if p == [] || p[|p| - 1] != q[|q| - 1] {
      NotUnder(p, q);
    } else {
      var (idx, p', q') := (p[|p| - 1], p[..|p| - 1], q[..|q| - 1]);
      Delivers(t.children[idx], ticket.(path := p'), q');
      UnderLast(p, q);
    }
  }

  lemma UnderAll(p: seq<nat>)
    ensures Under(p, []) && p[..|p|] == p
  {
  }

  lemma UnderLast(p: seq<nat>, q: seq<nat>)
    requires p != [] && q != [] && p[|p| - 1] == q[|q| - 1]
    ensures var (p', q') := (p[..|p| - 1], q[..|q| - 1]);
            && (Under(p, q) <==> Under(p', q'))
            && (Under(p, q) ==> p[..|p| - |q|] == p'[..|p'| - |q'|])
  {
    hide Under;
    var (idx, p', q') := (p[|p| - 1], p[..|p| - 1], q[..|q| - 1]);
    assert q == q' + [idx] && p == p' + [idx];
    UnderStep(p', q', idx);
    UnderLength(p, q);
  }

  lemma UnderLength(p: seq<nat>, q: seq<nat>)
    ensures Under(p, q) ==> |q| <= |p|
  {
  }

  lemma NotUnder(p: seq<nat>, q: seq<nat>)
    requires q != [] && (p == [] || p[|p| - 1] != q[|q| - 1])
    ensures !Under(p, q)
  {
  }

  lemma UnderStep(p: seq<nat>, q: seq<nat>, idx: nat)
    ensures Under(p + [idx], q + [idx]) <==> Under(p, q)
    ensures Under(p, q) ==> (p + [idx])[..|p| - |q|] == p[..|p| - |q|]
  {
    if |q| <= |p| {
      assert (p + [idx])[|p| - |q|..] == p[|p| - |q|..] + [idx];
      assert p[|p| - |q|..] == (p[|p| - |q|..] + [idx])[..|q|];
      assert q == (q + [idx])[..|q|];
    }
  }

  /** No place lies below a leaf. */
  lemma {:induction false} LeavesAreEnds(t: Node, p: seq<nat>, q: seq<nat>)
    requires At(t, p).Some? && At(t, q).Some? && At(t, q).value.Leaf? && Under(p, q)
    ensures p == q
    decreases |q|
  {
    if q != [] {
      assert p[|p| - 1] == q[|q| - 1];
      UnderLast(p, q);
      LeavesAreEnds(t.children[q[|q| - 1]], p[..|p| - 1], q[..|q| - 1]);
      assert p == p[..|p| - 1] + [q[|q| - 1]];
    }
  }

  /** A stamped path is the place itself just when every index fits. */
  lemma Unstamped(place: seq<nat>, path: seq<nat>)
    requires |place| == |path| && forall i :: 0 <= i < |place| ==> path[i] == Stamp(place[i])
    ensures place == path <==> Fit(place)
    ensures Fit(place) ==> Under(path, place) && path[..|path| - |place|] == []
    ensures !Fit(place) ==> !Under(path, place)
  {
  }

  /** The path stamped on work by a tree of any depth leads its completion back to the leaf that made
      it, arriving empty, whatever was taken, completed or attached meanwhile, if and only if every
      child index on the way fits in 32 bits; no other leaf hears of it then, and otherwise that leaf
      hears nothing. */
  lemma RoutesBack(t: Node, ops: seq<TreeOp>) returns (place: seq<nat>)
    requires WellFormed(t) && TakeNext(t).1.Some? && Legal(ops)
    ensures WellFormed(TakeNext(t).0)
    ensures var (taken, ticket) := (TakeNext(t).0, TakeNext(t).1.value);
            var u := Evolve(taken, ops);
            var (before, after) := (At(u, place), At(OnComplete(u, ticket), place));
            && before.Some? && before.value.Leaf? && before.value.name == ticket.work.leaf
            && after == Some(if Fit(place)
                             then before.value.(received := before.value.received + [Ticket(ticket.work, [])])
                             else before.value)
            && forall q :: Fit(place) && q != place && At(u, q).Some? && At(u, q).value.Leaf? ==>
                 At(OnComplete(u, ticket), q) == At(u, q)
    ensures Narrow(t) ==> Fit(place)
  {
    hide OnComplete, TakeNext, Extends, Under, Stamp, Fit;
    TakeExtends(t);
    place := Producer(t);
    var (taken, ticket) := (TakeNext(t).0, TakeNext(t).1.value);
    var u := Evolve(taken, ops);
    AtExtends(taken, u, place);
    Delivers(u, ticket, place);
    Unstamped(place, ticket.path);
    forall q | Fit(place) && q != place && At(u, q).Some? && At(u, q).value.Leaf?
      ensures At(OnComplete(u, ticket), q) == At(u, q)
    {
      Delivers(u, ticket, q);
      if Under(place, q) { LeavesAreEnds(u, place, q); }
    }
  }

  /** A branch with one child more than an index can tell apart, all of them always ready, about to ask
      the last one. */
  ghost function TooWide(): Node {
    Branch(seq(U32 + 1, i requires 0 <= i => Leaf(i, _ => true, 0, [])), U32)
  }

  lemma LastChildServed(t: Node)
    requires WellFormed(t) && t.Branch? && t.cursor == U32 && |t.children| == U32 + 1
    requires t.children[U32].Leaf? && t.children[U32].supply(t.children[U32].calls)
    ensures var leaf := t.children[U32];
            TakeNext(t) == (Branch(t.children[U32 := leaf.(calls := leaf.calls + 1)], 0),
                            Some(Ticket(Work(leaf.name, leaf.calls), [0])))
  {
    var leaf := t.children[U32];
    var inner := Ticket(Work(leaf.name, leaf.calls), []);
    assert TakeNext(leaf) == (leaf.(calls := leaf.calls + 1), Some(inner));
    assert Slot(U32, 0, U32 + 1) == U32 && inner.path + [Stamp(U32)] == [0];
  }

  lemma FirstChildHears(t: Node, work: Work)
    requires t.Branch? && t.children != [] && t.children[0].Leaf?
    ensures var u := OnComplete(t, Ticket(work, [0]));
            u == t.(children := t.children[0 := t.children[0].(received := t.children[0].received + [Ticket(work, [])])])
  {
    assert [0][..0] == [];
  }

  lemma AtChild(t: Node, idx: nat)
    requires t.Branch? && idx < |t.children|
    ensures At(t, [idx]) == Some(t.children[idx])
  {
    assert [idx][..0] == [];
  }

  /** The completion of the last child's work goes to the first child. */
  lemma TooWideMisroutes()
    ensures WellFormed(TooWide())
    ensures var (taken, ticket) := TakeNext(TooWide());
            && ticket == Some(Ticket(Work(U32, 0), [0]))
            && var t := OnComplete(taken, ticket.value);
            && At(t, [U32]).Some? && At(t, [U32]).value.Leaf? && At(t, [U32]).value.received == []
            && At(t, [0]).Some? && At(t, [0]).value.Leaf? && At(t, [0]).value.received == [Ticket(Work(U32, 0), [])]
  {
    hide TakeNext, OnComplete, At;
    LastChildServed(TooWide());
    var taken := TakeNext(TooWide()).0;
    FirstChildHears(taken, Work(U32, 0));
    var t := OnComplete(taken, Ticket(Work(U32, 0), [0]));
    AtChild(t, 0);
    AtChild(t, U32);
  }

  // ---------- serving a child ----------

  /** The ticket that child idx of t would give now, stamped by t. */
  ghost function Stamped(t: Node, idx: nat): Option<Ticket>
    requires WellFormed(t) && t.Branch? && idx < |t.children|
  {
    var inner := TakeNext(t.children[idx]).1;
    if inner.None? then None else Some(Ticket(inner.value.work, inner.value.path + [Stamp(idx)]))
  }

  /** The take served child idx, and left the cursor behind it. */
  ghost predicate Served(t: Node, idx: nat)
    requires WellFormed(t) && t.Branch?
  {
    && idx < |t.children|
    && TakeNext(t).1.Some? && TakeNext(t).1 == Stamped(t, idx)
    && TakeNext(t).0.Branch? && |TakeNext(t).0.children| == |t.children|
    && TakeNext(t).0.cursor == Advance(idx, |t.children|)
    && TakeNext(t).0.children[idx] == TakeNext(t.children[idx]).0
  }

  /** The bound on the width is needed: a branch recognises its own stamp just when the child's index
      fits in 32 bits. */
  lemma StampIsExact(t: Node, idx: nat)
    requires WellFormed(t) && t.Branch? && Served(t, idx)
    ensures var path := TakeNext(t).1.value.path;
            path != [] && (path[|path| - 1] == idx <==> idx < 4_294_967_296)
  {
  }

  lemma {:induction false} ScanServes(children: seq<Node>, now: seq<Node>, cursor: nat, k: nat, d: nat) returns (m: nat)
    requires |now| == |children| && cursor < |children| && k <= d < |children|
    requires forall i :: 0 <= i < |children| ==> WellFormed(children[i])
    requires TakeNext(children[Slot(cursor, d, |children|)]).1.Some?
    requires forall j :: k <= j < |children| ==> now[Slot(cursor, j, |children|)] == children[Slot(cursor, j, |children|)]
    ensures k <= m <= d
    ensures var (u, ticket) := Scan(children, now, cursor, k);
            var (idx, n) := (Slot(cursor, m, |children|), |children|);
            && u.Branch? && |u.children| == n && u.cursor == Advance(idx, n)
            && TakeNext(children[idx]).1.Some?
            && ticket == Some(Ticket(TakeNext(children[idx]).1.value.work, TakeNext(children[idx]).1.value.path + [Stamp(idx)]))
            && u.children[idx] == TakeNext(children[idx]).0
            && forall j :: m < j < n ==> u.children[Slot(cursor, j, n)] == children[Slot(cursor, j, n)]
    decreases |children| - k
  {
    hide Advance, Stamp;
    var idx := Slot(cursor, k, |children|);
    var (child, ticket) := TakeNext(children[idx]);
    if ticket.Some? {
      m := k;
    } else {
      m := ScanServes(children, now[idx := child], cursor, k + 1, d);
    }
  }

  /** How many children the cursor asks before child i. */
  ghost function Distance(t: Node, i: nat): (d: nat)
    requires WellFormed(t) && t.Branch? && i < |t.children|
    ensures d < |t.children| && Slot(t.cursor, d, |t.children|) == i
  {
    if t.cursor <= i then i - t.cursor else i + |t.children| - t.cursor
  }

  /** One take either serves child i, which has work, or comes strictly closer to it without touching it. */
  lemma ServedOrCloser(t: Node, i: nat)
    requires WellFormed(t) && t.Branch? && i < |t.children| && TakeNext(t.children[i]).1.Some?
    ensures var u := TakeNext(t).0;
            && WellFormed(u) && u.Branch? && |u.children| == |t.children|
            && (Served(t, i) || (Distance(u, i) < Distance(t, i) && u.children[i] == t.children[i]))
  {
    TakeExtends(t);
    var m := ScanServes(t.children, t.children, t.cursor, 0, Distance(t, i));
    hide Stamp;
  }

  /** The state after k takes. */
  ghost function TakeMany(t: Node, k: nat): (u: Node)
    requires WellFormed(t)
    ensures WellFormed(u)
    decreases k
  {
    if k == 0 then t else TakeExtends(t); TakeMany(TakeNext(t).0, k - 1)
  }

  lemma {:induction false} TakeManyAdds(t: Node, j: nat, k: nat)
    requires WellFormed(t)
    ensures TakeMany(TakeMany(t, j), k) == TakeMany(t, j + k)
    decreases j
  {
    if j > 0 {
      TakeExtends(t);
      TakeManyAdds(TakeNext(t).0, j - 1, k);
    }
  }

  /** A child that has work is served within n takes of its branch. */
  lemma {:induction false} ServedWithinOneRound(t: Node, i: nat) returns (k: nat)
    requires WellFormed(t) && t.Branch? && i < |t.children| && TakeNext(t.children[i]).1.Some?
    ensures k <= Distance(t, i) < |t.children|
    ensures var u := TakeMany(t, k);
            u.Branch? && |u.children| == |t.children| && u.children[i] == t.children[i] && Served(u, i)
    decreases Distance(t, i)
  {
    ServedOrCloser(t, i);
    if Served(t, i) {
      k := 0;
    } else {
      k := ServedWithinOneRound(TakeNext(t).0, i);
      k := k + 1;
    }
  }

  // ---------- attaching ----------

  /** Below a place. */
  lemma {:induction false} AtBelow(t: Node, path: seq<nat>, idx: nat)
    requires At(t, path).Some?
    ensures At(t, [idx] + path) == At(At(t, path).value, [idx])
    decreases |path|
  {
    if path == [] {
      assert [idx] + path == [idx];
    } else {
      var (last, rest) := (path[|path| - 1], path[..|path| - 1]);
      assert ([idx] + path)[..|path|] == [idx] + rest && ([idx] + path)[|path|] == last;
      AtBelow(t.children[last], rest, idx);
    }
  }

  /** The branch a path leads to gets the child behind those it has, and keeps its cursor. */
  lemma {:induction false} AttachAt(t: Node, path: seq<nat>, child: Node)
    requires At(t, path).Some? && At(t, path).value.Branch?
    ensures var branch := At(t, path).value;
            At(Attach(t, path, child), path) == Some(Branch(branch.children + [child], branch.cursor))
    decreases |path|
  {
    if path != [] {
      AttachAt(t.children[path[|path| - 1]], path[..|path| - 1], child);
    }
  }

  /** No place that the path does not lead to or through changes; a branch it leads through keeps its
      cursor and its number of children. */
  lemma {:induction false} AttachElsewhere(t: Node, path: seq<nat>, child: Node, q: seq<nat>)
    requires At(t, q).Some? && q != path
    ensures At(Attach(t, path, child), q).Some?
    ensures var (before, after) := (At(t, q).value, At(Attach(t, path, child), q).value);
            if Under(path, q) && before.Branch? then
              after.Branch? && |after.children| == |before.children| && after.cursor == before.cursor
            else after == before
    decreases |q|
  {
    hide Under;
    if q == [] {
      UnderAll(path);
    } else if path == [] || path[|path| - 1] != q[|q| - 1] {
      NotUnder(path, q);
    } else {
      var (idx, p', q') := (path[|path| - 1], path[..|path| - 1], q[..|q| - 1]);
      assert path == p' + [idx] && q == q' + [idx];
      AttachElsewhere(t.children[idx], p', child, q');
      UnderLast(path, q);
    }
  }

  /** Attaching puts the child at a new place of the branch the path leads to, behind the children there,
      and changes nothing anywhere else. */
  lemma AttachArrives(t: Node, path: seq<nat>, child: Node)
    requires At(t, path).Some? && At(t, path).value.Branch?
    ensures var (branch, u) := (At(t, path).value, Attach(t, path, child));
            && At(u, path) == Some(Branch(branch.children + [child], branch.cursor))
            && At(u, [|branch.children|] + path) == Some(child)
            && forall q :: At(t, q).Some? && !Under(path, q) ==> At(u, q) == At(t, q)
  {
    var (branch, u) := (At(t, path).value, Attach(t, path, child));
    AttachAt(t, path, child);
    AtBelow(u, path, |branch.children|);
    AtChild(At(u, path).value, |branch.children|);
    forall q | At(t, q).Some? && !Under(path, q) ensures At(u, q) == At(t, q) {
      AttachElsewhere(t, path, child, q);
    }
  }

  /** A path that leads to no branch attaches nothing. */
  lemma {:induction false} AttachNowhere(t: Node, path: seq<nat>, child: Node)
    requires At(t, path).Some? ==> At(t, path).value.Leaf?
    ensures Attach(t, path, child) == t
    decreases |path|
  {
    if path != [] && t.Branch? && path[|path| - 1] < |t.children| {
      AttachNowhere(t.children[path[|path| - 1]], path[..|path| - 1], child);
    }
  }

  /** An attached child that has work is served within as many takes as its branch now has children. */
  lemma AttachedIsServed(t: Node, path: seq<nat>, child: Node) returns (k: nat)
    requires At(t, path).Some? && At(t, path).value.Branch?
    requires WellFormed(t) && WellFormed(child) && TakeNext(child).1.Some?
    ensures var n := |At(t, path).value.children|;
            var after := At(Attach(t, path, child), path);
            && after.Some? && WellFormed(after.value) && k < n + 1
            && var u := TakeMany(after.value, k);
               u.Branch? && |u.children| == n + 1 && u.children[n] == child && Served(u, n)
  {
    hide TakeNext;
    AttachAt(t, path, child);
    var branch := At(t, path).value;
    AtWellFormed(t, path);
    var after := Branch(branch.children + [child], branch.cursor);
    assert forall i :: 0 <= i < |after.children| ==> WellFormed(after.children[i]);
    k := ServedWithinOneRound(after, |branch.children|);
  }

  lemma {:induction false} AtWellFormed(t: Node, path: seq<nat>)
    requires WellFormed(t) && At(t, path).Some?
    ensures WellFormed(At(t, path).value)
    decreases |path|
  {
    if path != [] { AtWellFormed(t.children[path[|path| - 1]], path[..|path| - 1]); }
  }

  // ---------- fairness at any depth ----------

  /** The address leads, from the root down, to a leaf that always has work. */
  ghost predicate AlwaysReady(t: Node, address: seq<nat>)
    decreases |address|
  {
    if address == [] then t.Leaf? && forall n :: t.supply(n)
    else t.Branch? && address[0] < |t.children| && AlwaysReady(t.children[address[0]], address[1..])
  }

  /** The product of the widths of the branches along an address. */
  ghost function Widths(t: Node, address: seq<nat>): nat
    requires AlwaysReady(t, address)
    decreases |address|
  {
    if address == [] then 1 else |t.children| * Widths(t.children[address[0]], address[1..])
  }

  /** The path a ticket from that leaf carries. */
  ghost function PathOf(address: seq<nat>): seq<nat> {
    if address == [] then [] else PathOf(address[1..]) + [Stamp(address[0])]
  }

  /** A tree with such a leaf always has work, and asking it changes neither that nor the widths. */
  lemma {:induction false} ReadyStays(t: Node, address: seq<nat>)
    requires WellFormed(t) && AlwaysReady(t, address)
    ensures TakeNext(t).1.Some?
    ensures WellFormed(TakeNext(t).0) && AlwaysReady(TakeNext(t).0, address)
    ensures Widths(TakeNext(t).0, address) == Widths(t, address)
    decreases |address|
  {
    TakeExtends(t);
    if address != [] {
      var i := address[0];
      ReadyStays(t.children[i], address[1..]);
      var m := ScanServes(t.children, t.children, t.cursor, 0, Distance(t, i));
      var _ := ScanTakes(t.children, t.children, t.cursor, 0);
    }
  }

  lemma {:induction false} ReadyStaysMany(t: Node, address: seq<nat>, k: nat)
    requires WellFormed(t) && AlwaysReady(t, address)
    ensures AlwaysReady(TakeMany(t, k), address) && Widths(TakeMany(t, k), address) == Widths(t, address)
    decreases k
  {
    if k > 0 {
      ReadyStays(t, address);
      ReadyStaysMany(TakeNext(t).0, address, k - 1);
    }
  }

  /** The j-th serving of child i comes within n times j + 1 takes, and takes the child's j-th ticket. */
  lemma {:induction false} NthServing(t: Node, address: seq<nat>, j: nat) returns (k: nat)
    requires WellFormed(t) && address != [] && AlwaysReady(t, address)
    ensures k < |t.children| * (j + 1)
    ensures var (u, child) := (TakeMany(t, k), t.children[address[0]]);
            && u.Branch? && |u.children| == |t.children|
            && u.children[address[0]] == TakeMany(child, j) && Served(u, address[0])
    decreases j
  {
    var (i, n) := (address[0], |t.children|);
    ReadyStays(t.children[i], address[1..]);
    var k0 := ServedWithinOneRound(t, i);
    if j == 0 {
      k := k0;
    } else {
      ReadyStaysMany(t, address, k0);
      var v := TakeMany(t, k0);
      ReadyStays(v, address);
      var w := TakeNext(v).0;
      var k1 := NthServing(w, address, j - 1);
      TakeManyAdds(t, k0, k1 + 1);
      k := k0 + 1 + k1;
      assert n * (j + 1) == n + n * j;
    }
  }

  /** No starvation at any depth: a leaf that always has work is served within as many takes of the
      root as the product of the widths of the branches above it. */
  lemma {:induction false} ServedWithinWidths(t: Node, address: seq<nat>) returns (k: nat)
    requires WellFormed(t) && AlwaysReady(t, address)
    ensures k < Widths(t, address)
    ensures var ticket := TakeNext(TakeMany(t, k)).1;
            ticket.Some? && ticket.value.path == PathOf(address)
    decreases |address|
  {
    if address == [] {
      k := 0;
    } else {
      var (i, n) := (address[0], |t.children|);
      var child := t.children[i];
      var j := ServedWithinWidths(child, address[1..]);
      k := NthServing(t, address, j);
      Within(k, n, j, Widths(child, address[1..]));
    }
  }

  lemma Within(k: nat, n: nat, j: nat, w: nat)
    requires k < n * (j + 1) && j < w
    ensures k < n * w
  {
    MulMonotone(j + 1, w, n);
  }
}

/** A tree of round-robin branches over leaves, and the path that routes a completion back. */
module SchedulerTrees {
  import opened Wrappers

  /** A unit of work, as its leaf made it. */
  datatype Work = Work(leaf: nat, serial: nat)

  /** Work on its way up, with the child indices stamped so far; the last one is the root's. */
  datatype Ticket = Ticket(work: Work, path: seq<nat>)

  /** A leaf answers its calls from a supply of its own and keeps what it is told has completed; a
      branch keeps its children and the one to ask next. */
  datatype Node =
    | Leaf(name: nat, supply: nat -> bool, calls: nat, received: seq<Ticket>)
    | Branch(children: seq<Node>, cursor: nat)

  const U32 := 0x1_0000_0000

  /** The index stored by a branch is cut to 32 bits. */
  function Stamp(idx: nat): nat { idx % U32 }

  predicate WellFormed(t: Node) {
    t.Branch? ==>
      && (t.cursor < |t.children| || (t.children == [] && t.cursor == 0))
      && forall i :: 0 <= i < |t.children| ==> WellFormed(t.children[i])
  }

  /** The k-th child asked from the cursor on. */
  function Slot(cursor: nat, k: nat, n: nat): (i: nat)
    requires cursor < n && k <= n
    ensures k < n ==> i < n
  {
    if cursor + k < n then cursor + k else cursor + k - n
  }

  /** The cursor after asking one child. */
  function Advance(cursor: nat, n: nat): (next: nat)
    requires cursor < n
    ensures next == if cursor + 1 == n then 0 else cursor + 1
  {
    (cursor + 1) % n
  }

  /** `take_next`. */
  function TakeNext(t: Node): (Node, Option<Ticket>)
    requires WellFormed(t)
    decreases t
  {
    match t
    case Leaf(name, supply, calls, _) =>
      (t.(calls := calls + 1), if supply(calls) then Some(Ticket(Work(name, calls), [])) else None)
    case Branch(children, cursor) =>
      if children == [] then (t, None) else Scan(children, children, cursor, 0)
  }

  /** Asks the children from the k-th on, until one has work; `now` is the children so far. */
  function Scan(children: seq<Node>, now: seq<Node>, cursor: nat, k: nat): (Node, Option<Ticket>)
    requires |now| == |children| && cursor < |children| && k <= |children|
    requires forall i :: 0 <= i < |children| ==> WellFormed(children[i])
    decreases children, |children| - k
  {
    var n := |children|;
    if k == n then (Branch(now, cursor), None)
    else
      var idx := Slot(cursor, k, n);
      var (child, ticket) := TakeNext(children[idx]);
      if ticket.Some? then
        (Branch(now[idx := child], Advance(idx, n)), Some(ticket.value.(path := ticket.value.path + [Stamp(idx)])))
      else Scan(children, now[idx := child], cursor, k + 1)
  }

  /** The same as the loop of the source: every child is asked at most once, from the cursor on. */
  method TakeNextByLoop(t: Node) returns (after: Node, ticket: Option<Ticket>)
    requires WellFormed(t)
    ensures (after, ticket) == TakeNext(t)
    decreases t
  {
    match t
    case Leaf(name, supply, calls, received) =>
      after := t.(calls := calls + 1);
      ticket := if supply(calls) then Some(Ticket(Work(name, calls), [])) else None;
    case Branch(children, start) =>
      hide Advance;
      var n := |children|;
      if n == 0 { return t, None; }
      var now, cursor := children, start;
      for k := 0 to n
        invariant |now| == n && cursor < n && cursor == (if k == n then start else Slot(start, k, n))
        invariant forall m :: k <= m < n ==> now[Slot(start, m, n)] == children[Slot(start, m, n)]
        invariant Scan(children, now, start, k) == Scan(children, children, start, 0)
      {
        var idx := cursor;
        assert idx == Slot(start, k, n);
        cursor := Advance(cursor, n);
        var child, found := TakeNextByLoop(now[idx]);
        if found.Some? {
          return Branch(now[idx := child], cursor), Some(found.value.(path := found.value.path + [Stamp(idx)]));
        }
        now := now[idx := child];
      }
      after, ticket := Branch(now, cursor), None;
  }

  /** `on_complete`: a branch pops its own index and forwards; a leaf keeps what reaches it. */
  function OnComplete(t: Node, ticket: Ticket): Node
    decreases t
  {
    match t
    case Leaf(_, _, _, received) => t.(received := received + [ticket])
    case Branch(children, _) =>
      if ticket.path == [] then t
      else
        var idx := ticket.path[|ticket.path| - 1];
        if idx >= |children| then t
        else t.(children := children[idx := OnComplete(children[idx], ticket.(path := ticket.path[..|ticket.path| - 1]))])
  }

  /** Attaches a child to the branch at a path; elsewhere nothing happens. */
  function Attach(t: Node, path: seq<nat>, child: Node): Node
    decreases t
  {
    match t
    case Leaf(_, _, _, _) => t
    case Branch(children, _) =>
      if path == [] then t.(children := children + [child])
      else
        var idx := path[|path| - 1];
        if idx >= |children| then t
        else t.(children := children[idx := Attach(children[idx], path[..|path| - 1], child)])
  }
}

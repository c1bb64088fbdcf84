/** What holds in every interleaving of `poll`s and control-handle calls. */
module RuntimeProperties {
  import opened Wrappers
  import opened RuntimeSpec

  // ---------- reading a log ----------

  ghost function DoneIn(o: Output): Done
    requires o.Work?
  {
    Done(o.item, o.ok, o.latency)
  }

  ghost function ItemsOf(ds: seq<Done>): (r: seq<Item>)
    ensures |r| == |ds| && forall i :: 0 <= i < |ds| ==> r[i] == ds[i].item
  {
    seq(|ds|, i requires 0 <= i < |ds| => ds[i].item)
  }

  ghost function DispatchedIn(log: seq<Event>): seq<Item> {
    if log == [] then []
    else
      var (rest, e) := (log[..|log| - 1], log[|log| - 1]);
      DispatchedIn(rest) + if e.Dispatched? then [e.item] else []
  }

  ghost function ForwardedIn(log: seq<Event>): seq<Done> {
    if log == [] then []
    else
      var (rest, e) := (log[..|log| - 1], log[|log| - 1]);
      ForwardedIn(rest) + if e.Forwarded? then [DoneOf(e.completion)] else []
  }

  /** What `Work` outputs the driver has got. */
  ghost function HandedOut(log: seq<Event>): seq<Done> {
    if log == [] then []
    else
      var (rest, e) := (log[..|log| - 1], log[|log| - 1]);
      HandedOut(rest) + if e.Returned? && e.output.Work? then [DoneIn(e.output)] else []
  }

  /** The last deadline given to the driver that has not been dropped since. */
  ghost function Standing(log: seq<Event>): Option<Instant> {
    if log == [] then None
    else
      match log[|log| - 1]
      case Returned(SleepUntil(d)) => Some(d)
      case Cleared(_, _) => None
      case _ => Standing(log[..|log| - 1])
  }

  /** What may follow a log. */
  ghost predicate Fits(log: seq<Event>, e: Event) {
    && (Returned(Shutdown) in log ==> e == Returned(Shutdown))
    && match e
       case Raised => Raised !in log
       case Dispatched(_) => Raised !in log
       case Forwarded(c) => multiset(ItemsOf(ForwardedIn(log) + [DoneOf(c)])) <= multiset(DispatchedIn(log))
       case Cleared(h, reason) =>
         && (reason.Reached? ==> h.deadline <= reason.now)
         && (h.Emitted? ==> Standing(log) == Some(h.deadline))
         && (Standing(log).Some? ==> h.deadline <= Standing(log).value)
       case Returned(Work(item, ok, latency)) => HandedOut(log) + [Done(item, ok, latency)] <= ForwardedIn(log)
       case Returned(SleepUntil(d)) => Standing(log).Some? ==> d < Standing(log).value
       case Returned(Shutdown) =>
         Raised in log && HandedOut(log) == ForwardedIn(log) && multiset(ItemsOf(HandedOut(log))) == multiset(DispatchedIn(log))
  }

  /** Work is dispatched before its completion is forwarded, each at most as often as the other;
      outputs come out in the order of the completions, after them and with the same outcome and
      latency; no work is dispatched after
      shutdown was asked for; `Shutdown` is returned only when every dispatched item has been handed
      out, and then forever; deadlines given to the driver decrease while they stand, and one is
      dropped only when it, or an earlier one observed since, has been reached, or when the scheduler
      has none or shutdown ends scheduling. */
  ghost predicate Lawful(log: seq<Event>) {
    log == [] || (Lawful(log[..|log| - 1]) && Fits(log[..|log| - 1], log[|log| - 1]))
  }

  lemma Append(log: seq<Event>, e: Event)
    ensures DispatchedIn(log + [e]) == if e.Dispatched? then DispatchedIn(log) + [e.item] else DispatchedIn(log)
    ensures ForwardedIn(log + [e]) == if e.Forwarded? then ForwardedIn(log) + [DoneOf(e.completion)] else ForwardedIn(log)
    ensures HandedOut(log + [e]) ==
            if e.Returned? && e.output.Work? then HandedOut(log) + [DoneIn(e.output)] else HandedOut(log)
    ensures Lawful(log) && Fits(log, e) ==> Lawful(log + [e])
    ensures Standing(log + [e]) ==
            if e.Returned? && e.output.SleepUntil? then Some(e.output.deadline)
            else if e.Cleared? then None else Standing(log)
    ensures Raised in log + [e] <==> Raised in log || e == Raised
    ensures Returned(Shutdown) in log + [e] <==> Returned(Shutdown) in log || e == Returned(Shutdown)
  {
  }

  // ---------- the invariant ----------

  ghost function FlightItems(xs: seq<InFlight>): (r: seq<Item>)
    ensures |r| == |xs| && forall i :: 0 <= i < |xs| ==> r[i] == xs[i].item
  {
    seq(|xs|, i requires 0 <= i < |xs| => xs[i].item)
  }

  ghost function CompletionDones(xs: seq<Completion>): (r: seq<Done>)
    ensures |r| == |xs| && forall i :: 0 <= i < |xs| ==> r[i] == DoneOf(xs[i])
  {
    seq(|xs|, i requires 0 <= i < |xs| => DoneOf(xs[i]))
  }

  ghost predicate AllWork(xs: seq<Output>) {
    forall i :: 0 <= i < |xs| ==> xs[i].Work?
  }

  ghost function OutputDones(xs: seq<Output>): (r: seq<Done>)
    requires AllWork(xs)
    ensures |r| == |xs| && forall i :: 0 <= i < |xs| ==> r[i] == DoneIn(xs[i])
  {
    seq(|xs|, i requires 0 <= i < |xs| => DoneIn(xs[i]))
  }

  /** Nothing is lost and nothing counted twice: a dispatched item is in flight, waiting to be
      forwarded, or forwarded; a finished one is queued or handed out, in that order. */
  ghost predicate Ledger(s: State) {
    && AllWork(s.output)
    && ForwardedIn(s.log) + CompletionDones(s.completion) == HandedOut(s.log) + OutputDones(s.output)
    && multiset(DispatchedIn(s.log)) ==
       multiset(FlightItems(s.inFlight)) + multiset(ItemsOf(ForwardedIn(s.log))) + multiset(ItemsOf(CompletionDones(s.completion)))
  }

  /** A standing deadline is retained, or an earlier one is. */
  ghost predicate HintOk(s: State) {
    match Standing(s.log)
    case None => s.hint.Some? ==> s.hint.value.Observed?
    case Some(d) => s.hint.Some? && (s.hint.value == Emitted(d) || (s.hint.value.Observed? && s.hint.value.deadline < d))
  }

  ghost predicate Idle(s: State) {
    s.inFlight == [] && s.output == [] && s.completion == [] && s.hint.None?
  }

  ghost predicate Inv(s: State) {
    && Lawful(s.log) && Ledger(s) && HintOk(s)
    && |s.inFlight| <= s.cap
    && (s.shutdown <==> Raised in s.log)
    && (Returned(Shutdown) in s.log ==> s.shutdown && Idle(s))
  }

  // ---------- each step keeps it ----------

  /** Moving the first pending completion over to the forwarded items. */
  lemma Shift(flight: multiset<Item>, f: seq<Done>, c: seq<Done>)
    requires c != []
    ensures (f + [c[0]]) + c[1..] == f + c
    ensures flight + multiset(ItemsOf(f)) + multiset(ItemsOf(c)) ==
            flight + multiset(ItemsOf(f + [c[0]])) + multiset(ItemsOf(c[1..]))
    ensures multiset(ItemsOf(f + [c[0]])) <= flight + multiset(ItemsOf(f)) + multiset(ItemsOf(c))
  {
    hide ItemsOf;
    Ends(f, c);
    Regroup(flight, ItemsOf(f), c[0].item, ItemsOf(c[1..]));
  }

  lemma Ends(f: seq<Done>, c: seq<Done>)
    requires c != []
    ensures ItemsOf(f + [c[0]]) == ItemsOf(f) + [c[0].item]
    ensures ItemsOf(c) == [c[0].item] + ItemsOf(c[1..])
  {
  }

  lemma Regroup(a: multiset<Item>, f: seq<Item>, x: Item, rest: seq<Item>)
    ensures a + multiset(f) + multiset([x] + rest) == a + multiset(f + [x]) + multiset(rest)
    ensures multiset(f + [x]) <= a + multiset(f) + multiset([x] + rest)
  {
  }

  lemma ForwardOne(s: State)
    requires Inv(s) && s.completion != []
    ensures Inv(s.(completion := s.completion[1..], log := s.log + [Forwarded(s.completion[0])]))
  {
    hide Lawful, DispatchedIn, ForwardedIn, HandedOut, Standing, ItemsOf;
    Append(s.log, Forwarded(s.completion[0]));
    Shift(multiset(FlightItems(s.inFlight)), ForwardedIn(s.log), CompletionDones(s.completion));
    assert CompletionDones(s.completion[1..]) == CompletionDones(s.completion)[1..];
  }

  lemma {:induction false} ForwardKeeps(s: State)
    requires Inv(s)
    ensures Inv(Forward(s))
    decreases |s.completion|
  {
    hide Lawful, DispatchedIn, ForwardedIn, HandedOut, Standing;
    if s.completion == [] {
      assert s.log + [] == s.log;
    } else {
      var t := s.(completion := s.completion[1..], log := s.log + [Forwarded(s.completion[0])]);
      ForwardOne(s);
      ForwardKeeps(t);
      assert Forward(t).log == Forward(s).log;
    }
  }

  /** Handing out the first queued output. */
  lemma Hand(f: seq<Done>, h: seq<Done>, o: seq<Done>)
    requires o != [] && f == h + o
    ensures f == (h + [o[0]]) + o[1..]
    ensures h + [o[0]] <= f
  {
  }

  lemma PopKeeps(s: State)
    requires Inv(s) && s.completion == [] && s.output != []
    ensures Inv(Pop(s).0)
  {
    hide Lawful, DispatchedIn, ForwardedIn, HandedOut, Standing;
    Append(s.log, Returned(s.output[0]));
    var f := ForwardedIn(s.log);
    assert f + CompletionDones([]) == f;
    Hand(f, HandedOut(s.log), OutputDones(s.output));
    assert OutputDones(s.output[1..]) == OutputDones(s.output)[1..];
  }

  lemma RaiseKeeps(s: State)
    requires Inv(s)
    ensures Inv(Raise(s)) && Raise(s).shutdown
  {
    hide Lawful, DispatchedIn, ForwardedIn, HandedOut, Standing;
    Append(s.log, Raised);
  }

  lemma ClearKeeps(s: State, reason: Reason)
    requires Inv(s) && (s.hint.Some? && reason.Reached? ==> s.hint.value.deadline <= reason.now)
    ensures Inv(Clear(s, reason)) && Clear(s, reason).hint.None?
  {
    hide Lawful, DispatchedIn, ForwardedIn, HandedOut, Standing;
    if s.hint.Some? {
      Append(s.log, Cleared(s.hint.value, reason));
    }
  }

  lemma DispatchOne(s: State, item: Item, now: Instant)
    requires Inv(s) && |s.inFlight| < s.cap && !s.shutdown
    ensures Inv(s.(inFlight := s.inFlight + [InFlight(item, now)], log := s.log + [Dispatched(item)]))
  {
    hide Lawful, DispatchedIn, ForwardedIn, HandedOut, Standing;
    Append(s.log, Dispatched(item));
    assert FlightItems(s.inFlight + [InFlight(item, now)]) == FlightItems(s.inFlight) + [item];
  }

  lemma {:induction false} DispatchKeeps(s: State, now: Instant, replies: seq<Reply>)
    requires Inv(s) && !s.shutdown
    ensures Inv(Dispatch(s, now, replies)) && !Dispatch(s, now, replies).shutdown
    ensures Dispatch(s, now, replies).completion == s.completion && Dispatch(s, now, replies).output == s.output
    decreases |replies|
  {
    hide Lawful, DispatchedIn, ForwardedIn, HandedOut, Standing;
    if |s.inFlight| < s.cap {
      match if replies == [] then Nothing else Next(replies[0])
      case Take(item) =>
        DispatchOne(s, item, now);
        DispatchKeeps(s.(inFlight := s.inFlight + [InFlight(item, now)], log := s.log + [Dispatched(item)]), now, replies[1..]);
      case Later(at) =>
      case Nothing => ClearKeeps(s, NoDeadline);
    }
  }

  lemma PushBoth(f: seq<Done>, c: seq<Done>, h: seq<Done>, o: seq<Done>, d: Done)
    requires f + c == h + o
    ensures f + (c + [d]) == h + (o + [d])
  {
    assert f + (c + [d]) == (f + c) + [d];
    assert h + (o + [d]) == (h + o) + [d];
  }

  /** Taking an item out of flight and counting it with the completions. */
  lemma Land(flight: seq<Item>, k: nat, f: multiset<Item>, c: seq<Item>)
    requires k < |flight|
    ensures multiset(flight) + f + multiset(c) == multiset(flight[..k] + flight[k + 1..]) + f + multiset(c + [flight[k]])
  {
    var (before, x, after) := (flight[..k], flight[k], flight[k + 1..]);
    assert flight == before + ([x] + after);
    Around(multiset(before), multiset([x]), multiset(after), f, multiset(c));
  }

  lemma Around(a: multiset<Item>, x: multiset<Item>, b: multiset<Item>, f: multiset<Item>, c: multiset<Item>)
    ensures a + (x + b) + f + c == (a + b) + f + (c + x)
  {
  }

  lemma FinishKeeps(s: State, now: Instant, f: Finish)
    requires Inv(s) && f.which < |s.inFlight|
    ensures Inv(FinishOne(s, now, f))
  {
    hide Lawful, DispatchedIn, ForwardedIn, HandedOut, Standing, ItemsOf, FlightItems, CompletionDones, OutputDones;
    var (t, w) := (FinishOne(s, now, f), s.inFlight[f.which]);
    var d := Done(w.item, f.ok, Max(0, now - w.start));
    var (fs, cs) := (FlightItems(s.inFlight), CompletionDones(s.completion));
    Finished(s, now, f);
    PushBoth(ForwardedIn(s.log), cs, HandedOut(s.log), OutputDones(s.output), d);
    Land(fs, f.which, multiset(ItemsOf(ForwardedIn(s.log))), ItemsOf(cs));
  }

  /** What finishing one payload does to each list. */
  lemma Finished(s: State, now: Instant, f: Finish)
    requires f.which < |s.inFlight| && AllWork(s.output)
    ensures var (t, w) := (FinishOne(s, now, f), s.inFlight[f.which]);
            var d := Done(w.item, f.ok, Max(0, now - w.start));
            && AllWork(t.output)
            && CompletionDones(t.completion) == CompletionDones(s.completion) + [d]
            && ItemsOf(CompletionDones(s.completion) + [d]) == ItemsOf(CompletionDones(s.completion)) + [w.item]
            && OutputDones(t.output) == OutputDones(s.output) + [d]
            && FlightItems(s.inFlight)[f.which] == w.item
            && FlightItems(t.inFlight) == FlightItems(s.inFlight)[..f.which] + FlightItems(s.inFlight)[f.which + 1..]
  {
  }

  lemma {:induction false} DrainKeeps(s: State, now: Instant, finishes: seq<Finish>)
    requires Inv(s)
    ensures Inv(Drain(s, now, finishes))
    ensures |Drain(s, now, finishes).completion| - |s.completion| == |Drain(s, now, finishes).output| - |s.output| >= 0
    decreases |finishes|
  {
    hide Lawful, DispatchedIn, ForwardedIn, HandedOut, Standing;
    if finishes != [] && finishes[0].which < |s.inFlight| {
      FinishKeeps(s, now, finishes[0]);
      DrainKeeps(FinishOne(s, now, finishes[0]), now, finishes[1..]);
    }
  }

  lemma ScheduleKeeps(s: State, i: Input)
    requires Inv(s)
    ensures Inv(Schedule(s, i).0)
    ensures Schedule(s, i).1 ==> Schedule(s, i).0.shutdown && Schedule(s, i).0.hint.None?
    ensures Schedule(s, i).0.completion == s.completion && Schedule(s, i).0.output == s.output
  {
    hide Lawful, DispatchedIn, ForwardedIn, HandedOut, Standing;
    if |s.inFlight| < s.cap {
      if i.raise { RaiseKeeps(s); }
      var r := if i.raise then Raise(s) else s;
      if r.shutdown {
        ClearKeeps(r, ShuttingDown);
      } else {
        DispatchKeeps(r, i.now, i.replies);
      }
    }
  }

  lemma EmitKeeps(s: State)
    requires Inv(s) && s.hint.Some? && s.hint.value.Observed?
    ensures var d := s.hint.value.deadline;
            Inv(s.(hint := Some(Emitted(d)), log := s.log + [Returned(SleepUntil(d))]))
  {
    hide Lawful, DispatchedIn, ForwardedIn, HandedOut, Standing;
    Append(s.log, Returned(SleepUntil(s.hint.value.deadline)));
  }

  lemma ShutdownKeeps(s: State)
    requires Inv(s) && s.shutdown && Idle(s)
    ensures Inv(s.(log := s.log + [Returned(Shutdown)]))
  {
    hide Lawful, DispatchedIn, ForwardedIn, HandedOut, Standing;
    Append(s.log, Returned(Shutdown));
    assert ForwardedIn(s.log) + CompletionDones([]) == ForwardedIn(s.log);
    assert HandedOut(s.log) + OutputDones([]) == HandedOut(s.log);
  }

  // ---------- one poll ----------

  lemma PassKeeps(s: State, i: Input)
    requires Inv(s) && s.completion == [] && s.output == []
    ensures Inv(Pass(s, i).0)
    ensures Pass(s, i).0.output == [] <==> Pass(s, i).0.completion == []
    ensures Pass(s, i).1.Some? ==> Pass(s, i).0.output == []
  {
    hide Lawful, DispatchedIn, ForwardedIn, HandedOut, Standing, Schedule, Drain, Ledger;
    if s.hint.Some? && !(i.now < s.hint.value.deadline) { ClearKeeps(s, Reached(i.now)); }
    var d := DropReached(s, i.now);
    ScheduleKeeps(d, i);
    var (t, shutdown) := Schedule(d, i);
    DrainKeeps(t, i.now, i.finishes);
    var u := Drain(t, i.now, i.finishes);
    DrainFrame(t, i.now, i.finishes);
    if shutdown && u.inFlight == [] && u.output == [] && u.completion == [] {
      ShutdownKeeps(u);
    } else if u.output == [] && u.hint.Some? && u.hint.value.Observed? {
      EmitKeeps(u);
    }
  }

  lemma {:induction false} DrainFrame(s: State, now: Instant, finishes: seq<Finish>)
    ensures var t := Drain(s, now, finishes);
            t.shutdown == s.shutdown && t.hint == s.hint && t.log == s.log && t.cap == s.cap && s.output <= t.output
            && (AllWork(s.output) ==> AllWork(t.output))
    decreases |finishes|
  {
    if finishes != [] && finishes[0].which < |s.inFlight| {
      DrainFrame(FinishOne(s, now, finishes[0]), now, finishes[1..]);
    }
  }

  /** At every return of `poll` the invariant holds and no completion is left pending. */
  lemma PollKeeps(s: State, i: Input)
    requires Inv(s) && s.completion == []
    ensures Inv(Poll(s, i).0) && Poll(s, i).0.completion == []
  {
    hide Inv, Pass;
    ForwardKeeps(s);
    var f := Forward(s);
    if f.output != [] {
      PopKeeps(f);
    } else {
      PassKeeps(f, i);
      var (t, out) := Pass(f, i);
      if out.None? && t.output != [] {
        ForwardKeeps(t);
        PopKeeps(Forward(t));
      }
    }
  }

  // ---------- whole runs ----------

  /** What can happen from outside: the driver polls, or a handle asks for shutdown. A `next()` future
      dropped while pending is simply not polled again. */
  datatype Call = PollCall(input: Input) | ShutdownCall

  function Step(s: State, c: Call): State {
    match c
    case PollCall(i) => Poll(s, i).0
    case ShutdownCall => Raise(s)
  }

  function Run(cap: nat, calls: seq<Call>): State {
    if calls == [] then Initial(cap) else Step(Run(cap, calls[..|calls| - 1]), calls[|calls| - 1])
  }

  /** In every interleaving the log is lawful, the in-flight work is within the cap, and nothing is
      pending between calls. */
  lemma {:induction false} EveryRunIsLawful(cap: nat, calls: seq<Call>)
    ensures Inv(Run(cap, calls)) && Run(cap, calls).completion == []
  {
    if calls != [] {
      var s := Run(cap, calls[..|calls| - 1]);
      EveryRunIsLawful(cap, calls[..|calls| - 1]);
      match calls[|calls| - 1]
      case PollCall(i) => PollKeeps(s, i);
      case ShutdownCall => RaiseKeeps(s);
    }
  }

  /** At every moment of a lawful log: an item is handed out only after its completion was forwarded,
      in the same order, and forwarded only after it was dispatched. */
  lemma {:induction false} HandedOutAfterForwarded(log: seq<Event>, n: nat)
    requires Lawful(log) && n <= |log|
    ensures HandedOut(log[..n]) <= ForwardedIn(log[..n])
    ensures multiset(ItemsOf(ForwardedIn(log[..n]))) <= multiset(DispatchedIn(log[..n]))
    decreases |log|
  {
    if n < |log| {
      assert log[..|log| - 1][..n] == log[..n];
      HandedOutAfterForwarded(log[..|log| - 1], n);
    } else if log != [] {
      var rest := log[..|log| - 1];
      assert log[..n] == rest + [log[|log| - 1]];
      HandedOutAfterForwarded(rest, |rest|);
      assert rest[..|rest|] == rest;
      Append(rest, log[|log| - 1]);
    }
  }

  /** A lawful log obeys its law at every place. */
  lemma {:induction false} LawAt(log: seq<Event>, n: nat)
    requires Lawful(log) && n < |log|
    ensures Lawful(log[..n]) && Fits(log[..n], log[n])
    decreases |log|
  {
    if n < |log| - 1 {
      assert log[..|log| - 1][..n] == log[..n];
      LawAt(log[..|log| - 1], n);
    }
  }

  /** Nothing is dispatched once the shutdown flag is set. */
  lemma NoDispatchAfterShutdown(cap: nat, calls: seq<Call>, m: nat, n: nat)
    requires m < n < |Run(cap, calls).log| && Run(cap, calls).log[m] == Raised
    ensures !Run(cap, calls).log[n].Dispatched?
  {
    EveryRunIsLawful(cap, calls);
    var log := Run(cap, calls).log;
    LawAt(log, n);
    assert log[..n][m] == Raised;
  }

  /** `Shutdown` comes only when all work and all outputs have drained, and then it is all there is. */
  lemma ShutdownIsLast(cap: nat, calls: seq<Call>, m: nat, n: nat)
    requires m <= n < |Run(cap, calls).log| && Run(cap, calls).log[m] == Returned(Shutdown)
    ensures var log := Run(cap, calls).log;
            && log[n] == Returned(Shutdown)
            && multiset(ItemsOf(HandedOut(log[..m]))) == multiset(DispatchedIn(log[..m]))
            && Idle(Run(cap, calls))
  {
    EveryRunIsLawful(cap, calls);
    var log := Run(cap, calls).log;
    LawAt(log, m);
    LawAt(log, n);
    if m < n { assert log[..n][m] == Returned(Shutdown); }
  }

  lemma {:induction false} RunCap(cap: nat, calls: seq<Call>)
    ensures Run(cap, calls).cap == cap
  {
    if calls != [] {
      RunCap(cap, calls[..|calls| - 1]);
      var s := Run(cap, calls[..|calls| - 1]);
      if calls[|calls| - 1].PollCall? { PollCap(s, calls[|calls| - 1].input); }
    }
  }

  lemma PollCap(s: State, i: Input)
    ensures Poll(s, i).0.cap == s.cap
  {
    hide Dispatch, Drain, Forwards;
    var d := DropReached(Forward(s), i.now);
    var r := if i.raise then Raise(d) else d;
    DispatchFrame(r, i.now, i.replies);
    DrainFrame(Schedule(d, i).0, i.now, i.finishes);
  }

  lemma {:induction false} DispatchFrame(s: State, now: Instant, replies: seq<Reply>)
    ensures var t := Dispatch(s, now, replies);
            t.cap == s.cap && t.output == s.output && t.completion == s.completion && t.shutdown == s.shutdown
    decreases |replies|
  {
    if |s.inFlight| < s.cap && replies != [] && Next(replies[0]).Take? {
      var item := Next(replies[0]).item;
      DispatchFrame(s.(inFlight := s.inFlight + [InFlight(item, now)], log := s.log + [Dispatched(item)]), now, replies[1..]);
    }
  }

  // ---------- draining after shutdown ----------

  function PollAll(s: State, inputs: seq<Input>): (r: seq<Polled>)
    ensures |r| == |inputs|
    decreases |inputs|
  {
    if inputs == [] then []
    else
      var (t, polled) := Poll(s, inputs[0]);
      [polled] + PollAll(t, inputs[1..])
  }

  /** The items the driver gets. */
  ghost function ItemsPolled(ps: seq<Polled>): seq<Item> {
    if ps == [] then []
    else (if ps[0].Ready? && ps[0].output.Work? then [ps[0].output.item] else []) + ItemsPolled(ps[1..])
  }

  /** What is still to be handed out. */
  ghost function Owed(s: State): multiset<Item>
    requires AllWork(s.output)
  {
    Together(ItemsOf(OutputDones(s.output)), FlightItems(s.inFlight))
  }

  ghost function Together(out: seq<Item>, flight: seq<Item>): multiset<Item> {
    multiset(out) + multiset(flight)
  }

  /** As long as work is in flight, a poll that finds nothing queued finds a payload ready. */
  ghost predicate KeepsFinishing(s: State, inputs: seq<Input>)
    decreases |inputs|
  {
    inputs == [] || s.inFlight == [] ||
    (&& (s.output == [] ==> inputs[0].finishes != [] && inputs[0].finishes[0].which < |s.inFlight|)
     && KeepsFinishing(Poll(s, inputs[0]).0, inputs[1..]))
  }

  lemma {:induction false} DrainConserves(s: State, now: Instant, finishes: seq<Finish>)
    requires AllWork(s.output)
    ensures var t := Drain(s, now, finishes);
            && AllWork(t.output) && Owed(t) == Owed(s) && |t.output| + |t.inFlight| == |s.output| + |s.inFlight|
            && (finishes != [] && finishes[0].which < |s.inFlight| ==> |t.output| > |s.output|)
    decreases |finishes|
  {
    if finishes != [] && finishes[0].which < |s.inFlight| {
      FinishConserves(s, now, finishes[0]);
      DrainConserves(FinishOne(s, now, finishes[0]), now, finishes[1..]);
      DrainFrame(FinishOne(s, now, finishes[0]), now, finishes[1..]);
    }
  }

  lemma FinishConserves(s: State, now: Instant, f: Finish)
    requires AllWork(s.output) && f.which < |s.inFlight|
    ensures AllWork(FinishOne(s, now, f).output) && Owed(FinishOne(s, now, f)) == Owed(s)
  {
    hide ItemsOf, FlightItems, CompletionDones, OutputDones, FinishOne, AllWork, Together;
    var d := Done(s.inFlight[f.which].item, f.ok, Max(0, now - s.inFlight[f.which].start));
    Finished(s, now, f);
    Ends(OutputDones(s.output), [d]);
    Move(ItemsOf(OutputDones(s.output)), FlightItems(s.inFlight), f.which);
  }

  lemma Move(out: seq<Item>, flight: seq<Item>, k: nat)
    requires k < |flight|
    ensures Together(out, flight) == Together(out + [flight[k]], flight[..k] + flight[k + 1..])
  {
    Land(flight, k, multiset{}, out);
    Unpadded(multiset(flight), multiset(out));
    Unpadded(multiset(flight[..k] + flight[k + 1..]), multiset(out + [flight[k]]));
  }

  lemma Unpadded(a: multiset<Item>, b: multiset<Item>)
    ensures a + multiset{} + b == b + a
  {
  }

  /** A poll after shutdown was asked for: it hands out the oldest queued output, or one that has just
      finished, or says that nothing is left. */
  lemma ShutdownPoll(s: State, i: Input)
    requires s.cap > 0 && s.shutdown && s.completion == []
    requires s.output == [] && s.inFlight != [] ==> i.finishes != [] && i.finishes[0].which < |s.inFlight|
    ensures var (t, polled) := Poll(s, i);
            && t.cap == s.cap && t.shutdown && t.completion == []
            && if s.output != [] then
                 polled == Ready(s.output[0]) && t.output == s.output[1..] && t.inFlight == s.inFlight
               else if s.inFlight == [] then
                 polled == Ready(Shutdown) && t.output == [] && t.inFlight == []
               else
                 && polled.Ready? && polled.output.Work? && AllWork(t.output)
                 && |t.output| + |t.inFlight| == |s.inFlight| - 1
                 && Owed(s) == multiset{polled.output.item} + Owed(t)
  {
    hide Owed, Dispatch, FinishOne;
    assert Forward(s).log == s.log;
    var t := Schedule(DropReached(Forward(s), i.now), i).0;
    if s.output == [] {
      DrainConserves(t, i.now, i.finishes);
      DrainFrame(t, i.now, i.finishes);
      var u := Drain(t, i.now, i.finishes);
      if s.inFlight != [] {
        OwedPop(u);
        SameOwed(s, t);
        SameOwed(Forward(u).(output := u.output[1..]), Poll(s, i).0);
        SameOwed(u.(output := u.output[1..]), Poll(s, i).0);
      }
    }
  }

  lemma SameOwed(s: State, t: State)
    requires AllWork(s.output) && s.output == t.output && s.inFlight == t.inFlight
    ensures Owed(s) == Owed(t)
  {
  }

  lemma OwedPop(s: State)
    requires AllWork(s.output) && s.output != []
    ensures Owed(s) == multiset{s.output[0].item} + Owed(s.(output := s.output[1..]))
  {
    var ds := OutputDones(s.output);
    assert OutputDones(s.output[1..]) == ds[1..];
    Ends([], ds);
  }

  /** Once the flag is set, polls hand out what is queued, in order, then what was in flight, and then
      return `Shutdown` at every further poll, whatever the scheduler and the clock say. */
  lemma {:induction false} DrainsThenShutsDown(s: State, inputs: seq<Input>, n: nat)
    requires s.cap > 0 && s.shutdown && s.completion == [] && KeepsFinishing(s, inputs) && n < |inputs|
    ensures var polled := PollAll(s, inputs)[n];
            if n < |s.output| then polled == Ready(s.output[n])
            else if n < |s.output| + |s.inFlight| then polled.Ready? && polled.output.Work?
            else polled == Ready(Shutdown)
    decreases |inputs|
  {
    hide Poll;
    ShutdownPoll(s, inputs[0]);
    if n > 0 {
      DrainsThenShutsDown(Poll(s, inputs[0]).0, inputs[1..], n - 1);
    }
  }

  /** Those are all the items queued and in flight, each once. */
  lemma {:induction false} EverythingIsHandedOut(s: State, inputs: seq<Input>)
    requires s.cap > 0 && s.shutdown && s.completion == [] && KeepsFinishing(s, inputs)
    requires AllWork(s.output) && |s.output| + |s.inFlight| <= |inputs|
    ensures multiset(ItemsPolled(PollAll(s, inputs))) == Owed(s)
    decreases |inputs|
  {
    hide Poll, Owed, ItemsPolled;
    if inputs == [] {
      NothingOwed(s);
    } else {
      var (t, polled) := Poll(s, inputs[0]);
      ShutdownPoll(s, inputs[0]);
      EverythingIsHandedOut(t, inputs[1..]);
      PolledFirst(polled, PollAll(t, inputs[1..]));
      if s.output != [] {
        OwedPop(s);
        SameOwed(s.(output := s.output[1..]), t);
      } else if s.inFlight == [] {
        SameOwed(s, t);
      }
    }
  }

  lemma NothingOwed(s: State)
    requires s.output == [] && s.inFlight == []
    ensures Owed(s) == multiset(ItemsPolled([]))
  {
  }

  lemma PolledFirst(p: Polled, ps: seq<Polled>)
    ensures multiset(ItemsPolled([p] + ps)) ==
            (if p.Ready? && p.output.Work? then multiset{p.output.item} else multiset{}) + multiset(ItemsPolled(ps))
  {
    assert ([p] + ps)[1..] == ps;
  }

  // ---------- deadlines ----------

  /** What the scheduler said last in a pass, if it was asked and did not just fill the cap. */
  ghost function Said(inFlight: nat, cap: nat, replies: seq<Reply>): Option<Answer>
    decreases |replies|
  {
    if inFlight >= cap then None
    else if replies == [] then Some(Nothing)
    else if Next(replies[0]).Take? then Said(inFlight + 1, cap, replies[1..])
    else Some(Next(replies[0]))
  }

  lemma {:induction false} DispatchHint(s: State, now: Instant, replies: seq<Reply>)
    ensures var h := Dispatch(s, now, replies).hint;
            match Said(|s.inFlight|, s.cap, replies)
            case Some(Later(at)) =>
              h.Some? && h.value.deadline <= at && (s.hint.Some? ==> h.value.deadline <= s.hint.value.deadline)
            case Some(Nothing) => h.None?
            case _ => h == s.hint
    decreases |replies|
  {
    if |s.inFlight| < s.cap && replies != [] && Next(replies[0]).Take? {
      var item := Next(replies[0]).item;
      DispatchHint(s.(inFlight := s.inFlight + [InFlight(item, now)], log := s.log + [Dispatched(item)]), now, replies[1..]);
    }
  }

  /** A poll that parks has reported every deadline it holds; a deadline the scheduler names is
      retained, and one reported in that pass is no later. */
  lemma PollDeadlines(s: State, i: Input)
    requires s.completion == []
    ensures Poll(s, i).1.Pending? ==> (Poll(s, i).0.hint.Some? ==> Poll(s, i).0.hint.value.Emitted?)
    ensures s.output == [] && !s.shutdown && !i.raise && |s.inFlight| < s.cap ==>
              match Said(|s.inFlight|, s.cap, i.replies)
              case Some(Later(at)) =>
                && Poll(s, i).0.hint.Some? && Poll(s, i).0.hint.value.deadline <= at
                && (Poll(s, i).1.Ready? && Poll(s, i).1.output.SleepUntil? ==> Poll(s, i).1.output.deadline <= at)
              case _ => true
  {
    assert Forward(s).log == s.log;
    var d := DropReached(Forward(s), i.now);
    DispatchHint(d, i.now, i.replies);
    DispatchFrame(d, i.now, i.replies);
    DrainFrame(Schedule(d, i).0, i.now, i.finishes);
  }

  lemma {:induction false} StandingBelow(log: seq<Event>, j: nat, k: nat)
    requires Lawful(log) && j < k <= |log| && log[j].Returned? && log[j].output.SleepUntil?
    requires forall n :: j < n < k ==> !log[n].Cleared?
    ensures Standing(log[..k]).Some? && Standing(log[..k]).value <= log[j].output.deadline
  {
    hide DispatchedIn, ForwardedIn, HandedOut, ItemsOf, Standing, Lawful;
    assert log[..k] == log[..k - 1] + [log[k - 1]];
    Append(log[..k - 1], log[k - 1]);
    if k > j + 1 {
      StandingBelow(log, j, k - 1);
      LawAt(log, k - 1);
    }
  }

  /** Successive deadlines given to the driver strictly decrease until one is dropped. */
  lemma DeadlinesDecrease(cap: nat, calls: seq<Call>, j: nat, k: nat)
    requires var log := Run(cap, calls).log;
             && j < k < |log| && log[j].Returned? && log[j].output.SleepUntil? && log[k].Returned? && log[k].output.SleepUntil?
             && forall n :: j < n < k ==> !log[n].Cleared?
    ensures Run(cap, calls).log[k].output.deadline < Run(cap, calls).log[j].output.deadline
  {
    EveryRunIsLawful(cap, calls);
    var log := Run(cap, calls).log;
    StandingBelow(log, j, k);
    LawAt(log, k);
  }

  lemma {:induction false} FirstCleared(log: seq<Event>, j: nat, k: nat) returns (n: nat)
    requires j < k <= |log| && exists m :: j < m < k && log[m].Cleared?
    ensures j < n < k && log[n].Cleared? && forall m :: j < m < n ==> !log[m].Cleared?
    decreases k
  {
    n := k - 1;
    if exists m :: j < m < k - 1 && log[m].Cleared? {
      n := FirstCleared(log, j, k - 1);
    }
  }

  /** A standing deadline is one that was given, and not before the last one known to have been. */
  lemma {:induction false} StandingWasGiven(log: seq<Event>, j: nat, k: nat) returns (m: nat)
    requires j < k <= |log| && log[j].Returned? && log[j].output.SleepUntil?
    requires forall n :: j < n < k ==> !log[n].Cleared?
    ensures j <= m < k && log[m].Returned? && log[m].output.SleepUntil?
    ensures Standing(log[..k]) == Some(log[m].output.deadline)
  {
    hide DispatchedIn, ForwardedIn, HandedOut, Standing, Lawful, Fits;
    assert log[..k] == log[..k - 1] + [log[k - 1]];
    Append(log[..k - 1], log[k - 1]);
    m := k - 1;
    if !(log[m].Returned? && log[m].output.SleepUntil?) {
      m := StandingWasGiven(log, j, k - 1);
    }
  }

  /** A deadline that is not earlier than one given before it is explained by a retained deadline, no
      later than that one, having been dropped in between: because it was reached, or because the
      scheduler had none or was shut down. A dropped one marked as given was given, at m. */
  lemma WhyADeadlineGrew(cap: nat, calls: seq<Call>, j: nat, k: nat) returns (m: nat, n: nat)
    requires var log := Run(cap, calls).log;
             && j < k < |log| && log[j].Returned? && log[j].output.SleepUntil? && log[k].Returned? && log[k].output.SleepUntil?
             && log[k].output.deadline >= log[j].output.deadline
    ensures var log := Run(cap, calls).log;
            && j <= m < n < k && log[n].Cleared?
            && log[n].hint.deadline <= log[j].output.deadline
            && (log[n].reason.Reached? ==> log[n].hint.deadline <= log[n].reason.now)
            && (log[n].hint.Emitted? ==> log[m] == Returned(SleepUntil(log[n].hint.deadline)))
  {
    EveryRunIsLawful(cap, calls);
    var log := Run(cap, calls).log;
    if forall m :: j < m < k ==> !log[m].Cleared? {
      DeadlinesDecrease(cap, calls, j, k);
    }
    n := FirstCleared(log, j, k);
    StandingBelow(log, j, n);
    m := StandingWasGiven(log, j, n);
    LawAt(log, n);
  }

  // ---------- deadlines reached before they were given ----------

  /** A deadline that was reached, and dropped, without ever having been given to the driver. */
  ghost predicate Unreported(e: Event) {
    e.Cleared? && e.hint.Observed? && e.reason.Reached?
  }

  ghost predicate AllReported(log: seq<Event>) {
    forall n :: 0 <= n < |log| ==> !Unreported(log[n])
  }

  /** A poll with nothing queued, at or past a deadline that is still to be given. */
  ghost predicate Late(s: State, i: Input) {
    s.output == [] && s.hint.Some? && s.hint.value.Observed? && s.hint.value.deadline <= i.now
  }

  /** No poll of the run is late. */
  ghost predicate Punctual(cap: nat, calls: seq<Call>) {
    forall n :: 0 <= n < |calls| && calls[n].PollCall? ==> !Late(Run(cap, calls[..n]), calls[n].input)
  }

  lemma ReportedAppend(log: seq<Event>, e: Event)
    ensures AllReported(log + [e]) <==> AllReported(log) && !Unreported(e)
  {
    if AllReported(log + [e]) {
      forall n | 0 <= n < |log|
        ensures !Unreported(log[n])
      {
        assert (log + [e])[n] == log[n];
      }
      assert (log + [e])[|log|] == e;
    }
  }

  lemma {:induction false} ForwardReported(log: seq<Event>, cs: seq<Completion>)
    ensures AllReported(log + Forwards(cs)) <==> AllReported(log)
    decreases |cs|
  {
    hide AllReported;
    if cs == [] {
      assert log + Forwards(cs) == log;
    } else {
      var e := Forwarded(cs[0]);
      assert log + Forwards(cs) == (log + [e]) + Forwards(cs[1..]);
      ReportedAppend(log, e);
      ForwardReported(log + [e], cs[1..]);
    }
  }

  lemma {:induction false} DispatchReported(s: State, now: Instant, replies: seq<Reply>)
    ensures AllReported(Dispatch(s, now, replies).log) <==> AllReported(s.log)
    decreases |replies|
  {
    hide AllReported;
    if |s.inFlight| < s.cap {
      if replies == [] || Next(replies[0]).Nothing? {
        if s.hint.Some? { ReportedAppend(s.log, Cleared(s.hint.value, NoDeadline)); }
      } else if Next(replies[0]).Take? {
        var item := Next(replies[0]).item;
        ReportedAppend(s.log, Dispatched(item));
        DispatchReported(s.(inFlight := s.inFlight + [InFlight(item, now)], log := s.log + [Dispatched(item)]), now, replies[1..]);
      }
    }
  }

  lemma ScheduleReported(s: State, i: Input)
    ensures AllReported(Schedule(s, i).0.log) <==> AllReported(s.log)
  {
    hide AllReported, Dispatch;
    ReportedAppend(s.log, Raised);
    var r := if i.raise then Raise(s) else s;
    if s.hint.Some? { ReportedAppend(r.log, Cleared(s.hint.value, ShuttingDown)); }
    DispatchReported(r, i.now, i.replies);
  }

  lemma PassReported(s: State, i: Input)
    requires s.output == []
    ensures AllReported(Pass(s, i).0.log) <==> AllReported(s.log) && !Late(s, i)
  {
    hide AllReported, Schedule, Drain;
    if s.hint.Some? { ReportedAppend(s.log, Cleared(s.hint.value, Reached(i.now))); }
    var d := DropReached(s, i.now);
    ScheduleReported(d, i);
    var t := Schedule(d, i).0;
    DrainFrame(t, i.now, i.finishes);
    ReportedAppend(t.log, Returned(Shutdown));
    if t.hint.Some? { ReportedAppend(t.log, Returned(SleepUntil(t.hint.value.deadline))); }
  }

  /** A poll drops a deadline unreported just when it is late. */
  lemma PollReported(s: State, i: Input)
    requires s.completion == []
    ensures AllReported(Poll(s, i).0.log) <==> AllReported(s.log) && !Late(s, i)
  {
    hide AllReported, Pass, Forwards;
    ForwardReported(s.log, []);
    var f := Forward(s);
    if f.output != [] {
      ReportedAppend(f.log, Returned(f.output[0]));
    } else {
      PassReported(f, i);
      var (t, out) := Pass(f, i);
      ForwardReported(t.log, t.completion);
      if t.output != [] { ReportedAppend(Forward(t).log, Returned(t.output[0])); }
    }
  }

  /** Every deadline dropped as reached had been given to the driver if and only if no poll was late. */
  lemma {:induction false} ReportedIffPunctual(cap: nat, calls: seq<Call>)
    ensures AllReported(Run(cap, calls).log) <==> Punctual(cap, calls)
  {
    if calls != [] {
      hide Step, Poll;
      var (before, last) := (calls[..|calls| - 1], calls[|calls| - 1]);
      ReportedIffPunctual(cap, before);
      PunctualStep(cap, calls);
      EveryRunIsLawful(cap, before);
      StepReported(Run(cap, before), last);
    }
  }

  lemma StepReported(s: State, c: Call)
    requires s.completion == []
    ensures AllReported(Step(s, c).log) <==> AllReported(s.log) && !(c.PollCall? && Late(s, c.input))
  {
    hide AllReported, Poll;
    match c
    case PollCall(i) => PollReported(s, i);
    case ShutdownCall => ReportedAppend(s.log, Raised);
  }

  lemma PunctualStep(cap: nat, calls: seq<Call>)
    requires calls != []
    ensures var (before, last) := (calls[..|calls| - 1], calls[|calls| - 1]);
            Punctual(cap, calls) <==> Punctual(cap, before) && !(last.PollCall? && Late(Run(cap, before), last.input))
  {
    hide Run, Late;
    var before := calls[..|calls| - 1];
    assert forall n :: 0 <= n < |before| ==> before[..n] == calls[..n];
    if Punctual(cap, calls) {
      forall n | 0 <= n < |before| && before[n].PollCall?
        ensures !Late(Run(cap, before[..n]), before[n].input)
      {
        assert calls[n].PollCall?;
      }
    }
  }

  /** In a run without late polls, a deadline not earlier than one given before it means that, in
      between, a given deadline was reached, or the scheduler had none, or shutdown ended scheduling. */
  lemma PunctualDeadlines(cap: nat, calls: seq<Call>, j: nat, k: nat) returns (m: nat, n: nat)
    requires Punctual(cap, calls)
    requires var log := Run(cap, calls).log;
             && j < k < |log| && log[j].Returned? && log[j].output.SleepUntil? && log[k].Returned? && log[k].output.SleepUntil?
             && log[k].output.deadline >= log[j].output.deadline
    ensures var log := Run(cap, calls).log;
            && j <= m < n < k && log[n].Cleared?
            && match log[n].reason
               case Reached(now) =>
                 && log[m] == Returned(SleepUntil(log[n].hint.deadline))
                 && log[n].hint.deadline <= log[j].output.deadline && log[n].hint.deadline <= now
               case _ => true
  {
    m, n := WhyADeadlineGrew(cap, calls, j, k);
    ReportedIffPunctual(cap, calls);
    assert !Unreported(Run(cap, calls).log[n]);
  }

  /** A poll that dispatches work, observes the deadline 50 and returns the work finished in the same
      pass, so that the deadline stays unreported. */
  const BUSY := Input(10, false, [Reply(true, None, Some(7)), Reply(false, Some(50), None)], [Finish(0, true, 12)])

  lemma BusyPoll(s: State)
    requires s.cap == 2 && s.hint == Some(Emitted(100)) && !s.shutdown
    requires s.inFlight == [] && s.output == [] && s.completion == []
    ensures var (t, polled) := Poll(s, BUSY);
            && polled == Ready(Work(7, true, 0))
            && t.cap == 2 && t.hint == Some(Observed(50)) && !t.shutdown
            && t.inFlight == [] && t.output == [] && t.completion == []
  {
  }

  /** A poll of an idle runtime whose scheduler only has a deadline. */
  function Idling(now: Instant, at: Instant): Input {
    Input(now, false, [Reply(false, Some(at), None)], [])
  }

  lemma IdlePoll(s: State, now: Instant, at: Instant)
    requires |s.inFlight| < s.cap && (s.hint.None? || s.hint.value.deadline <= now) && !s.shutdown
    requires s.output == [] && s.completion == []
    ensures var (t, polled) := Poll(s, Idling(now, at));
            && polled == Ready(SleepUntil(at))
            && t.cap == s.cap && t.hint == Some(Emitted(at)) && !t.shutdown
            && t.inFlight == s.inFlight && t.output == [] && t.completion == []
  {
  }

  /** The dropped deadline need not have been given to the driver: here 100 is followed by 200 although
      no clock reading reached 100, because 50, observed while an output was queued, was reached. */
  lemma DeadlineGrowsUnreached()
    ensures PollAll(Initial(2), [Idling(0, 100), BUSY, Idling(60, 200)]) ==
            [Ready(SleepUntil(100)), Ready(Work(7, true, 0)), Ready(SleepUntil(200))]
  {
    hide Poll;
    var (i1, i3) := (Idling(0, 100), Idling(60, 200));
    IdlePoll(Initial(2), 0, 100);
    var s1 := Poll(Initial(2), i1).0;
    BusyPoll(s1);
    var s2 := Poll(s1, BUSY).0;
    IdlePoll(s2, 60, 200);
    assert [i1, BUSY, i3][1..] == [BUSY, i3] && [BUSY, i3][1..] == [i3];
    assert PollAll(s2, [i3]) == [Ready(SleepUntil(200))];
  }

  /** Asking the scheduler keeps the retained deadline, drops it or observes an earlier one. */
  lemma {:induction false} DispatchTightens(s: State, now: Instant, replies: seq<Reply>)
    ensures var h := Dispatch(s, now, replies).hint;
            h.Some? && h != s.hint ==> h.value.Observed? && (s.hint.Some? ==> h.value.deadline < s.hint.value.deadline)
    decreases |replies|
  {
    if |s.inFlight| < s.cap && replies != [] && Next(replies[0]).Take? {
      var item := Next(replies[0]).item;
      DispatchTightens(s.(inFlight := s.inFlight + [InFlight(item, now)], log := s.log + [Dispatched(item)]), now, replies[1..]);
    }
  }

  /** A poll gives a deadline only with nothing queued. It is then one that was retained and not given,
      or one observed now, earlier than any retained one that has not been reached. */
  lemma GivenDeadline(s: State, i: Input, at: Instant)
    requires AllWork(s.output) && s.completion == [] && Poll(s, i).1 == Ready(SleepUntil(at))
    ensures s.output == []
    ensures var h := DropReached(s, i.now).hint;
            if h.None? then !s.shutdown && |s.inFlight| < s.cap
            else h == Some(Observed(at)) || at < h.value.deadline
  {
    hide Dispatch, Drain;
    assert Forward(s).log == s.log;
    var d := DropReached(s, i.now);
    var r := if i.raise then Raise(d) else d;
    DispatchTightens(r, i.now, i.replies);
    DispatchFrame(r, i.now, i.replies);
    DrainFrame(Schedule(d, i).0, i.now, i.finishes);
  }

  /** Exactly when the next poll can give a deadline that is not earlier than the standing one although
      that one has not been reached: nothing is queued, the scheduler will be asked, and an earlier
      deadline is retained that has not been given. */
  lemma DeadlineCanGrowIff(s: State, d: Instant)
    requires Inv(s) && s.completion == [] && Standing(s.log) == Some(d)
    ensures (exists i: Input, at: Instant :: i.now < d <= at && Poll(s, i).1 == Ready(SleepUntil(at))) <==>
            s.output == [] && !s.shutdown && |s.inFlight| < s.cap && s.hint.value.Observed?
  {
    hide Poll, Lawful, Standing, DispatchedIn, ForwardedIn, HandedOut;
    if s.output == [] && !s.shutdown && |s.inFlight| < s.cap && s.hint.value.Observed? {
      var i := Idling(s.hint.value.deadline, d);
      IdlePoll(s, i.now, d);
      assert i.now < d <= d && Poll(s, i).1 == Ready(SleepUntil(d));
    }
    forall i: Input, at: Instant | i.now < d <= at && Poll(s, i).1 == Ready(SleepUntil(at))
      ensures s.output == [] && !s.shutdown && |s.inFlight| < s.cap && s.hint.value.Observed?
    {
      GivenDeadline(s, i, at);
    }
  }
}

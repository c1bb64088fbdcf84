/** What a poll takes, finishes and answers, said in terms of its input: the scheduler's replies, the
    payloads that turn out ready and the clock. */
module RuntimeAnswers {
  import opened Wrappers
  import opened RuntimeSpec
  import opened RuntimeProperties

  // ---------- what the scheduler gives ----------

  predicate Gives(r: Reply) { r.ready && r.taken.Some? }

  /** How many of the replies, from the first on, give work, up to the room there is. */
  ghost function GivenCount(room: nat, replies: seq<Reply>): (n: nat)
    ensures n <= room && n <= |replies|
    ensures forall j :: 0 <= j < n ==> Gives(replies[j])
    ensures n < room && n < |replies| ==> !Gives(replies[n])
  {
    if room == 0 || replies == [] || !Gives(replies[0]) then 0 else 1 + GivenCount(room - 1, replies[1..])
  }

  /** The work the scheduler hands over. */
  ghost function Given(room: nat, replies: seq<Reply>): (given: seq<Item>)
    ensures |given| == GivenCount(room, replies)
    ensures forall j :: 0 <= j < |given| ==> replies[j].taken == Some(given[j])
  {
    seq(GivenCount(room, replies), j requires 0 <= j < GivenCount(room, replies) => replies[j].taken.value)
  }

  /** The scheduler is asked: nothing is queued, there is room and shutdown was not asked for. */
  ghost predicate Asks(s: State, i: Input) {
    s.output == [] && |s.inFlight| < s.cap && !s.shutdown && !i.raise
  }

  ghost function GivenBy(s: State, i: Input): seq<Item> {
    if Asks(s, i) then Given(s.cap - |s.inFlight|, i.replies) else []
  }

  ghost function Started(items: seq<Item>, now: Instant): (r: seq<InFlight>)
    ensures |r| == |items| && forall j :: 0 <= j < |r| ==> r[j] == InFlight(items[j], now)
  {
    seq(|items|, j requires 0 <= j < |items| => InFlight(items[j], now))
  }

  // ---------- what finishes ----------

  /** The payloads that turn out ready, in that order. */
  ghost function Picked(flight: seq<InFlight>, finishes: seq<Finish>): (r: seq<InFlight>)
    ensures |r| <= |finishes|
    decreases |finishes|
  {
    if finishes == [] || finishes[0].which >= |flight| then []
    else [flight[finishes[0].which]] + Picked(flight[..finishes[0].which] + flight[finishes[0].which + 1..], finishes[1..])
  }

  /** The payloads still pending. */
  ghost function Unpicked(flight: seq<InFlight>, finishes: seq<Finish>): seq<InFlight>
    decreases |finishes|
  {
    if finishes == [] || finishes[0].which >= |flight| then flight
    else Unpicked(flight[..finishes[0].which] + flight[finishes[0].which + 1..], finishes[1..])
  }

  /** Picking takes payloads out of flight, none twice, until one is named that is not there. */
  lemma {:induction false} PickedMeans(flight: seq<InFlight>, finishes: seq<Finish>)
    ensures var (done, left) := (Picked(flight, finishes), Unpicked(flight, finishes));
            && multiset(done) + multiset(left) == multiset(flight)
            && (|done| < |finishes| ==> finishes[|done|].which >= |left|)
            && (done != [] ==> finishes[0].which < |flight| && done[0] == flight[finishes[0].which])
            && (done == [] ==> left == flight)
    decreases |finishes|
  {
    hide Picked, Unpicked;
    PickStep(flight, finishes);
    if finishes != [] && finishes[0].which < |flight| {
      var k := finishes[0].which;
      var rest := flight[..k] + flight[k + 1..];
      PickedMeans(rest, finishes[1..]);
      PickOne(flight, k, Picked(rest, finishes[1..]), Unpicked(rest, finishes[1..]));
    } else {
      NoneTaken(flight);
    }
  }

  lemma NoneTaken(flight: seq<InFlight>)
    ensures multiset([]) + multiset(flight) == multiset(flight)
  {
  }

  lemma PickStep(flight: seq<InFlight>, finishes: seq<Finish>)
    ensures if finishes == [] || finishes[0].which >= |flight| then
              Picked(flight, finishes) == [] && Unpicked(flight, finishes) == flight
            else
              var k := finishes[0].which;
              var rest := flight[..k] + flight[k + 1..];
              && Picked(flight, finishes) == [flight[k]] + Picked(rest, finishes[1..])
              && Unpicked(flight, finishes) == Unpicked(rest, finishes[1..])
  {
  }

  lemma PickOne(flight: seq<InFlight>, k: nat, done: seq<InFlight>, left: seq<InFlight>)
    requires k < |flight| && multiset(done) + multiset(left) == multiset(flight[..k] + flight[k + 1..])
    ensures multiset([flight[k]] + done) + multiset(left) == multiset(flight)
  {
    assert flight == flight[..k] + ([flight[k]] + flight[k + 1..]);
    TakenOut(multiset(flight[..k]), flight[k], multiset(flight[k + 1..]), multiset(done), multiset(left));
  }

  lemma TakenOut(a: multiset<InFlight>, x: InFlight, b: multiset<InFlight>, done: multiset<InFlight>, left: multiset<InFlight>)
    requires done + left == a + b
    ensures (multiset{x} + done) + left == a + (multiset{x} + b)
  {
    assert (multiset{x} + done) + left == multiset{x} + (done + left);
  }

  /** The time from dispatch to finish, saturating. */
  ghost function Latency(start: Instant, now: Instant): Instant {
    if start <= now then now - start else 0
  }

  /** What the scheduler is told of them. */
  ghost function Told(done: seq<InFlight>, finishes: seq<Finish>, now: Instant): (r: seq<Completion>)
    requires |done| <= |finishes|
    ensures |r| == |done|
    ensures forall j :: 0 <= j < |r| ==>
              r[j] == Completion(done[j].item, finishes[j].ok, Latency(done[j].start, now), finishes[j].at)
  {
    seq(|done|, j requires 0 <= j < |done| =>
      Completion(done[j].item, finishes[j].ok, Latency(done[j].start, now), finishes[j].at))
  }

  /** What the driver gets of them. */
  ghost function Works(done: seq<InFlight>, finishes: seq<Finish>, now: Instant): (r: seq<Output>)
    requires |done| <= |finishes|
    ensures |r| == |done|
    ensures forall j :: 0 <= j < |r| ==> r[j] == Work(done[j].item, finishes[j].ok, Latency(done[j].start, now))
  {
    seq(|done|, j requires 0 <= j < |done| => Work(done[j].item, finishes[j].ok, Latency(done[j].start, now)))
  }

  // ---------- reading a log ----------

  ghost function ToldIn(log: seq<Event>): seq<Completion> {
    if log == [] then []
    else
      var (rest, e) := (log[..|log| - 1], log[|log| - 1]);
      ToldIn(rest) + if e.Forwarded? then [e.completion] else []
  }

  ghost function ReturnedIn(log: seq<Event>): seq<Output> {
    if log == [] then []
    else
      var (rest, e) := (log[..|log| - 1], log[|log| - 1]);
      ReturnedIn(rest) + if e.Returned? then [e.output] else []
  }

  /** What was dispatched, what the scheduler was told and what the driver got. */
  datatype Trace = Trace(dispatched: seq<Item>, told: seq<Completion>, returned: seq<Output>)

  ghost function TraceOf(log: seq<Event>): Trace {
    Trace(DispatchedIn(log), ToldIn(log), ReturnedIn(log))
  }

  /** The trace one event longer. */
  ghost function More(t: Trace, e: Event): Trace {
    match e
    case Dispatched(item) => t.(dispatched := t.dispatched + [item])
    case Forwarded(c) => t.(told := t.told + [c])
    case Returned(o) => t.(returned := t.returned + [o])
    case _ => t
  }

  lemma TraceAppend(log: seq<Event>, e: Event)
    ensures TraceOf(log + [e]) == More(TraceOf(log), e)
  {
    Append(log, e);
    assert (log + [e])[..|log|] == log;
  }

  // ---------- the parts of a poll ----------

  lemma {:induction false} ForwardTrace(log: seq<Event>, cs: seq<Completion>)
    ensures TraceOf(log + Forwards(cs)) == TraceOf(log).(told := ToldIn(log) + cs)
    decreases |cs|
  {
    if cs == [] {
      assert log + Forwards(cs) == log;
    } else {
      hide TraceOf, ToldIn, DispatchedIn, ReturnedIn;
      var e := Forwarded(cs[0]);
      assert log + Forwards(cs) == (log + [e]) + Forwards(cs[1..]);
      TraceAppend(log, e);
      ForwardTrace(log + [e], cs[1..]);
      Joined(ToldIn(log), cs);
      TraceParts(log);
      TraceParts(log + [e]);
    }
  }

  lemma TraceParts(log: seq<Event>)
    ensures TraceOf(log) == Trace(DispatchedIn(log), ToldIn(log), ReturnedIn(log))
  {
  }

  lemma Joined<T>(a: seq<T>, b: seq<T>)
    requires b != []
    ensures a + b == a + [b[0]] + b[1..]
  {
  }

  lemma GivenStep(room: nat, replies: seq<Reply>, now: Instant)
    ensures var given := Given(room, replies);
            if room > 0 && replies != [] && Gives(replies[0]) then
              var (item, rest) := (replies[0].taken.value, Given(room - 1, replies[1..]));
              given == [item] + rest && Started(given, now) == [InFlight(item, now)] + Started(rest, now)
            else given == [] && Started(given, now) == []
  {
  }

  /** Asking the scheduler takes exactly the work it gives, in order, and starts it now. */
  lemma {:induction false} DispatchTakes(s: State, now: Instant, replies: seq<Reply>)
    requires |s.inFlight| <= s.cap
    ensures var (t, given) := (Dispatch(s, now, replies), Given(s.cap - |s.inFlight|, replies));
            && t.inFlight == s.inFlight + Started(given, now)
            && TraceOf(t.log) == TraceOf(s.log).(dispatched := DispatchedIn(s.log) + given)
    decreases |replies|
  {
    hide TraceOf, DispatchedIn, ToldIn, ReturnedIn, Given, GivenCount, Started;
    var given := Given(s.cap - |s.inFlight|, replies);
    TraceParts(s.log);
    GivenStep(s.cap - |s.inFlight|, replies, now);
    if |s.inFlight| < s.cap && replies != [] && Gives(replies[0]) {
      var item := replies[0].taken.value;
      var u := s.(inFlight := s.inFlight + [InFlight(item, now)], log := s.log + [Dispatched(item)]);
      TraceAppend(s.log, Dispatched(item));
      TraceParts(u.log);
      DispatchTakes(u, now, replies[1..]);
      Joined(s.inFlight, Started(given, now));
      Joined(DispatchedIn(s.log), given);
    } else {
      assert s.inFlight + [] == s.inFlight && DispatchedIn(s.log) + [] == DispatchedIn(s.log);
      if s.hint.Some? { TraceAppend(s.log, Cleared(s.hint.value, NoDeadline)); }
    }
  }

  lemma ToldFirst(w: InFlight, rest: seq<InFlight>, finishes: seq<Finish>, now: Instant)
    requires 1 + |rest| <= |finishes|
    ensures Told([w] + rest, finishes, now) ==
            [Completion(w.item, finishes[0].ok, Latency(w.start, now), finishes[0].at)] + Told(rest, finishes[1..], now)
  {
    hide Latency;
  }

  lemma WorksFirst(w: InFlight, rest: seq<InFlight>, finishes: seq<Finish>, now: Instant)
    requires 1 + |rest| <= |finishes|
    ensures Works([w] + rest, finishes, now) ==
            [Work(w.item, finishes[0].ok, Latency(w.start, now))] + Works(rest, finishes[1..], now)
  {
    hide Latency;
  }

  /** Draining finishes exactly the payloads that are ready. */
  lemma {:induction false} DrainFinishes(s: State, now: Instant, finishes: seq<Finish>)
    ensures var (t, done) := (Drain(s, now, finishes), Picked(s.inFlight, finishes));
            && t.inFlight == Unpicked(s.inFlight, finishes)
            && t.completion == s.completion + Told(done, finishes, now)
            && t.output == s.output + Works(done, finishes, now)
    decreases |finishes|
  {
    hide Picked, Unpicked, Told, Works;
    var done := Picked(s.inFlight, finishes);
    PickStep(s.inFlight, finishes);
    if finishes != [] && finishes[0].which < |s.inFlight| {
      var u := FinishOne(s, now, finishes[0]);
      DrainFinishes(u, now, finishes[1..]);
      var rest := Picked(u.inFlight, finishes[1..]);
      ToldFirst(s.inFlight[finishes[0].which], rest, finishes, now);
      WorksFirst(s.inFlight[finishes[0].which], rest, finishes, now);
      Joined(s.completion, Told(done, finishes, now));
      Joined(s.output, Works(done, finishes, now));
    } else {
      NothingTold(finishes, now);
      assert s.completion + [] == s.completion && s.output + [] == s.output;
    }
  }

  lemma NothingTold(finishes: seq<Finish>, now: Instant)
    ensures Told([], finishes, now) == [] && Works([], finishes, now) == []
  {
  }

  // ---------- one poll ----------

  /** What is in flight once the scheduler has been asked. */
  ghost function Flight(s: State, i: Input): seq<InFlight> {
    s.inFlight + Started(GivenBy(s, i), i.now)
  }

  /** The deadline held at the end of a poll with nothing queued, before it is given: the one held before
      if it is still ahead, unless the scheduler now has an earlier one, or none at all, or shutdown ends
      scheduling. At the cap the scheduler is not asked. */
  ghost function HeldAfter(s: State, i: Input): Option<SleepHint> {
    var ahead := if s.hint.Some? && i.now < s.hint.value.deadline then s.hint else None;
    var n := |GivenBy(s, i)|;
    if |s.inFlight| >= s.cap then ahead
    else if s.shutdown || i.raise then None
    else if |s.inFlight| + n >= s.cap then ahead
    else if n == |i.replies| || i.replies[n].nextUpdateAt.None? then None
    else
      var at := i.replies[n].nextUpdateAt.value;
      if ahead.Some? && ahead.value.deadline <= at then ahead else Some(Observed(at))
  }

  lemma {:induction false} DispatchHolds(s: State, now: Instant, replies: seq<Reply>)
    requires |s.inFlight| <= s.cap
    ensures var n := GivenCount(s.cap - |s.inFlight|, replies);
            Dispatch(s, now, replies).hint ==
            if |s.inFlight| + n >= s.cap then s.hint
            else if n == |replies| || replies[n].nextUpdateAt.None? then None
            else
              var at := replies[n].nextUpdateAt.value;
              if s.hint.Some? && s.hint.value.deadline <= at then s.hint else Some(Observed(at))
    decreases |replies|
  {
    if |s.inFlight| < s.cap && replies != [] && Gives(replies[0]) {
      var item := replies[0].taken.value;
      DispatchHolds(s.(inFlight := s.inFlight + [InFlight(item, now)], log := s.log + [Dispatched(item)]), now, replies[1..]);
    }
  }

  lemma ScheduleTakes(s: State, i: Input)
    requires s.output == []
    ensures var (t, shutdown) := Schedule(s, i);
            && t.inFlight == Flight(s, i)
            && TraceOf(t.log) == TraceOf(s.log).(dispatched := DispatchedIn(s.log) + GivenBy(s, i))
            && (shutdown <==> |s.inFlight| < s.cap && (s.shutdown || i.raise))
            && t.shutdown == (s.shutdown || (i.raise && |s.inFlight| < s.cap))
  {
    hide Dispatch, TraceOf, DispatchedIn, ToldIn, ReturnedIn;
    TraceParts(s.log);
    assert DispatchedIn(s.log) + [] == DispatchedIn(s.log);
    if |s.inFlight| < s.cap {
      TraceAppend(s.log, Raised);
      var r := if i.raise then Raise(s) else s;
      if r.shutdown {
        if s.hint.Some? { TraceAppend(r.log, Cleared(s.hint.value, ShuttingDown)); }
      } else {
        DispatchTakes(s, i.now, i.replies);
        DispatchFrame(s, i.now, i.replies);
      }
    }
  }

  ghost function FinishedBy(s: State, i: Input): (done: seq<InFlight>)
    ensures |done| <= |i.finishes|
  {
    Picked(Flight(s, i), i.finishes)
  }

  ghost predicate NoticesShutdown(s: State, i: Input) {
    |s.inFlight| < s.cap && (s.shutdown || i.raise)
  }

  /** What a poll with nothing queued answers: the first payload to finish, or `Shutdown` when it was asked
      for and nothing is in flight, or the held deadline if it is still to be given. */
  ghost function AnswerTo(s: State, i: Input): Polled {
    if FinishedBy(s, i) != [] then Ready(Works(FinishedBy(s, i), i.finishes, i.now)[0])
    else if NoticesShutdown(s, i) && s.inFlight == [] then Ready(Shutdown)
    else
      match HeldAfter(s, i)
      case Some(Observed(d)) => Ready(SleepUntil(d))
      case _ => Pending
  }

  lemma NothingDone(flight: seq<InFlight>, finishes: seq<Finish>)
    ensures Picked(flight, finishes) == [] ==> Unpicked(flight, finishes) == flight
    ensures flight == [] ==> Picked(flight, finishes) == []
  {
  }

  lemma Added(log: seq<Event>, e: Event, t: Trace)
    requires TraceOf(log) == t
    ensures TraceOf(log + [e]) == More(t, e)
  {
    TraceAppend(log, e);
  }

  lemma DropTrace(s: State, now: Instant)
    ensures TraceOf(DropReached(s, now).log) == TraceOf(s.log)
    ensures DropReached(s, now) == s.(hint := DropReached(s, now).hint, log := DropReached(s, now).log)
    ensures DropReached(s, now).hint == if s.hint.Some? && now < s.hint.value.deadline then s.hint else None
  {
    if s.hint.Some? { TraceAppend(s.log, Cleared(s.hint.value, Reached(now))); }
  }

  lemma ScheduleHolds(s: State, i: Input)
    requires s.output == []
    ensures Schedule(DropReached(s, i.now), i).0.hint == HeldAfter(s, i)
  {
    hide Dispatch, Given, GivenCount, TraceOf;
    var d := DropReached(s, i.now);
    DropTrace(s, i.now);
    if |s.inFlight| < s.cap && !s.shutdown && !i.raise { DispatchHolds(d, i.now, i.replies); }
  }

  lemma PassAnswers(s: State, i: Input)
    requires s.output == [] && s.completion == []
    ensures var (t, out) := Pass(s, i);
            && t.inFlight == Unpicked(Flight(s, i), i.finishes)
            && t.completion == Told(FinishedBy(s, i), i.finishes, i.now)
            && t.output == Works(FinishedBy(s, i), i.finishes, i.now)
            && t.hint == (match out case Some(SleepUntil(d)) => Some(Emitted(d)) case _ => HeldAfter(s, i))
            && t.shutdown == (s.shutdown || NoticesShutdown(s, i))
            && (if FinishedBy(s, i) != [] then out.None? else AnswerTo(s, i) == if out.Some? then Ready(out.value) else Pending)
            && TraceOf(t.log) == Trace(DispatchedIn(s.log) + GivenBy(s, i), ToldIn(s.log),
                                       ReturnedIn(s.log) + if out.Some? then [out.value] else [])
  {
    hide DropReached, Schedule, Drain, TraceOf, HeldAfter, Picked, Unpicked, Told, Works, Flight, GivenBy;
    var d := DropReached(s, i.now);
    DropTrace(s, i.now);
    TraceParts(s.log);
    TraceParts(d.log);
    SameAsked(s, d, i);
    ScheduleTakes(d, i);
    ScheduleHolds(s, i);
    var t := Schedule(d, i).0;
    DrainFinishes(t, i.now, i.finishes);
    DrainFrame(t, i.now, i.finishes);
    ScheduleRest(d, i);
    var u := Drain(t, i.now, i.finishes);
    NothingDone(Flight(s, i), i.finishes);
    Added(u.log, Returned(Shutdown), TraceOf(u.log));
    if u.hint.Some? { Added(u.log, Returned(SleepUntil(u.hint.value.deadline)), TraceOf(u.log)); }
    assert [] + u.output == u.output;
    ShutdownFlight(s, i);
  }

  lemma ShutdownFlight(s: State, i: Input)
    ensures NoticesShutdown(s, i) ==> Flight(s, i) == s.inFlight && HeldAfter(s, i).None?
    ensures s.inFlight != [] ==> Flight(s, i) != []
  {
  }

  lemma SameAsked(s: State, d: State, i: Input)
    requires d == s.(hint := d.hint, log := d.log)
    ensures GivenBy(d, i) == GivenBy(s, i) && Flight(d, i) == Flight(s, i)
  {
  }

  lemma ScheduleRest(s: State, i: Input)
    ensures Schedule(s, i).0.completion == s.completion && Schedule(s, i).0.output == s.output
  {
    hide Dispatch;
    DispatchFrame(if i.raise then Raise(s) else s, i.now, i.replies);
  }

  /** A poll, exactly: what it takes in flight, what it finishes and tells the scheduler, what it answers
      and what it keeps, from the replies, the ready payloads and the clock. */
  lemma PollAnswers(s: State, i: Input)
    requires s.completion == []
    ensures var (t, polled) := Poll(s, i);
            var got := if polled.Ready? then [polled.output] else [];
            && t.completion == []
            && if s.output != [] then
                 && polled == Ready(s.output[0])
                 && t == s.(output := s.output[1..], log := t.log)
                 && TraceOf(t.log) == TraceOf(s.log).(returned := ReturnedIn(s.log) + got)
               else
                 var works := Works(FinishedBy(s, i), i.finishes, i.now);
                 && polled == AnswerTo(s, i)
                 && t.inFlight == Unpicked(Flight(s, i), i.finishes)
                 && t.output == (if works == [] then [] else works[1..])
                 && t.hint == (match polled case Ready(SleepUntil(d)) => Some(Emitted(d)) case _ => HeldAfter(s, i))
                 && t.shutdown == (s.shutdown || NoticesShutdown(s, i))
                 && TraceOf(t.log) == Trace(DispatchedIn(s.log) + GivenBy(s, i),
                                            ToldIn(s.log) + Told(FinishedBy(s, i), i.finishes, i.now), ReturnedIn(s.log) + got)
  {
    hide Pass, Forwards, TraceOf, HeldAfter, Picked, Unpicked, Told, Works, Flight, GivenBy, FinishedBy, NoticesShutdown;
    ForwardTrace(s.log, []);
    var f := Forward(s);
    TraceParts(s.log);
    TraceParts(f.log);
    assert ToldIn(s.log) + [] == ToldIn(s.log);
    if s.output != [] {
      Added(f.log, Returned(s.output[0]), TraceOf(f.log));
    } else {
      SamePoll(s, f, i);
      PassAnswers(f, i);
      var (t, out) := Pass(f, i);
      ForwardTrace(t.log, t.completion);
      TraceParts(t.log);
      if out.None? && t.output != [] {
        var g := Forward(t);
        TraceParts(g.log);
        Added(g.log, Returned(g.output[0]), TraceOf(g.log));
      }
    }
  }

  /** The log does not matter. */
  lemma SamePoll(s: State, f: State, i: Input)
    requires f == s.(log := f.log)
    ensures GivenBy(f, i) == GivenBy(s, i) && Flight(f, i) == Flight(s, i) && FinishedBy(f, i) == FinishedBy(s, i)
    ensures HeldAfter(f, i) == HeldAfter(s, i) && AnswerTo(f, i) == AnswerTo(s, i)
    ensures NoticesShutdown(f, i) == NoticesShutdown(s, i)
  {
  }

  // ---------- whole runs ----------

  /** What the scheduler has given, poll after poll. */
  ghost function GivenIn(cap: nat, calls: seq<Call>): seq<Item> {
    if calls == [] then []
    else
      var (before, last) := (calls[..|calls| - 1], calls[|calls| - 1]);
      GivenIn(cap, before) + if last.PollCall? then GivenBy(Run(cap, before), last.input) else []
  }

  /** What the driver has got from its polls. */
  ghost function GotIn(cap: nat, calls: seq<Call>): seq<Output> {
    if calls == [] then []
    else
      var (before, last) := (calls[..|calls| - 1], calls[|calls| - 1]);
      GotIn(cap, before) + if last.PollCall? then Got(Poll(Run(cap, before), last.input).1) else []
  }

  ghost function Got(polled: Polled): seq<Output> {
    if polled.Ready? then [polled.output] else []
  }

  /** What the scheduler has been told. */
  ghost function ToldTo(cap: nat, calls: seq<Call>): seq<Completion> {
    if calls == [] then []
    else
      var (before, last) := (calls[..|calls| - 1], calls[|calls| - 1]);
      ToldTo(cap, before) + if last.PollCall? then ToldBy(Run(cap, before), last.input) else []
  }

  ghost function ToldBy(s: State, i: Input): seq<Completion> {
    if s.output == [] then Told(FinishedBy(s, i), i.finishes, i.now) else []
  }

  lemma PollTrace(s: State, i: Input)
    requires s.completion == []
    ensures TraceOf(Poll(s, i).0.log) ==
            Trace(DispatchedIn(s.log) + GivenBy(s, i), ToldIn(s.log) + ToldBy(s, i), ReturnedIn(s.log) + Got(Poll(s, i).1))
  {
    hide Poll, TraceOf;
    PollAnswers(s, i);
    TraceParts(s.log);
    assert DispatchedIn(s.log) + [] == DispatchedIn(s.log) && ToldIn(s.log) + [] == ToldIn(s.log);
  }

  /** What the log says is what happened: the work given, the completions told and the outputs returned,
      each in order. */
  lemma {:induction false} LogIsTrue(cap: nat, calls: seq<Call>)
    ensures TraceOf(Run(cap, calls).log) == Trace(GivenIn(cap, calls), ToldTo(cap, calls), GotIn(cap, calls))
  {
    if calls != [] {
      hide Poll, TraceOf, GivenBy, ToldBy, Got;
      var (before, last) := (calls[..|calls| - 1], calls[|calls| - 1]);
      var s := Run(cap, before);
      LogIsTrue(cap, before);
      EveryRunIsLawful(cap, before);
      TraceParts(s.log);
      match last
      case PollCall(i) => PollTrace(s, i);
      case ShutdownCall =>
        Added(s.log, Raised, TraceOf(s.log));
        assert GivenIn(cap, before) + [] == GivenIn(cap, before) && ToldTo(cap, before) + [] == ToldTo(cap, before)
               && GotIn(cap, before) + [] == GotIn(cap, before);
    }
  }

  /** What outputs say of finished work. */
  ghost function WorkIn(outs: seq<Output>): seq<Done> {
    if outs == [] then []
    else
      var (rest, o) := (outs[..|outs| - 1], outs[|outs| - 1]);
      WorkIn(rest) + if o.Work? then [DoneIn(o)] else []
  }

  ghost function DonesOf(cs: seq<Completion>): (r: seq<Done>)
    ensures |r| == |cs| && forall j :: 0 <= j < |r| ==> r[j] == DoneOf(cs[j])
  {
    seq(|cs|, j requires 0 <= j < |cs| => DoneOf(cs[j]))
  }

  lemma WorkAppend(outs: seq<Output>, o: Output)
    ensures WorkIn(outs + [o]) == WorkIn(outs) + if o.Work? then [DoneIn(o)] else []
  {
    assert (outs + [o])[..|outs|] == outs;
  }

  lemma {:induction false} HandedOutIsGot(log: seq<Event>)
    ensures HandedOut(log) == WorkIn(ReturnedIn(log)) && ForwardedIn(log) == DonesOf(ToldIn(log))
  {
    if log != [] {
      var (rest, e) := (log[..|log| - 1], log[|log| - 1]);
      HandedOutIsGot(rest);
      assert ReturnedIn(rest) + [] == ReturnedIn(rest);
      if e.Returned? { WorkAppend(ReturnedIn(rest), e.output); }
    }
  }

  /** Exactly once: the items the scheduler gave are those in flight, those queued and those the driver
      got; and the scheduler was told of what the driver got and then of what is queued, in that order. */
  lemma ExactlyOnce(cap: nat, calls: seq<Call>)
    ensures var s := Run(cap, calls);
            && AllWork(s.output)
            && |s.inFlight| <= cap
            && multiset(GivenIn(cap, calls)) ==
               multiset(FlightItems(s.inFlight)) + multiset(ItemsOf(OutputDones(s.output)))
               + multiset(ItemsOf(WorkIn(GotIn(cap, calls))))
            && DonesOf(ToldTo(cap, calls)) == WorkIn(GotIn(cap, calls)) + OutputDones(s.output)
  {
    EveryRunIsLawful(cap, calls);
    RunCap(cap, calls);
    LogIsTrue(cap, calls);
    var s := Run(cap, calls);
    TraceParts(s.log);
    HandedOutIsGot(s.log);
    Balance(s);
  }

  lemma Balance(s: State)
    requires Inv(s) && s.completion == []
    ensures multiset(DispatchedIn(s.log)) ==
            multiset(FlightItems(s.inFlight)) + multiset(ItemsOf(OutputDones(s.output))) + multiset(ItemsOf(HandedOut(s.log)))
    ensures ForwardedIn(s.log) == HandedOut(s.log) + OutputDones(s.output)
  {
    hide Lawful, DispatchedIn, ForwardedIn, HandedOut, Standing;
    assert ForwardedIn(s.log) + CompletionDones([]) == ForwardedIn(s.log);
    assert ItemsOf(HandedOut(s.log) + OutputDones(s.output)) == ItemsOf(HandedOut(s.log)) + ItemsOf(OutputDones(s.output));
  }

  // ---------- where deadlines come from ----------

  ghost predicate Tells(i: Input, d: Instant) {
    exists j :: 0 <= j < |i.replies| && i.replies[j].nextUpdateAt == Some(d)
  }

  /** Some poll's scheduler named the deadline. */
  ghost predicate Heard(calls: seq<Call>, d: Instant) {
    exists n :: 0 <= n < |calls| && calls[n].PollCall? && Tells(calls[n].input, d)
  }

  lemma HeldIsTold(s: State, i: Input)
    requires s.completion == []
    ensures var (t, polled) := Poll(s, i);
            && (t.hint.Some? ==> Tells(i, t.hint.value.deadline)
                                 || (s.hint.Some? && t.hint.value.deadline == s.hint.value.deadline))
            && (polled.Ready? && polled.output.SleepUntil? ==> AllWork(s.output) ==>
                  t.hint == Some(Emitted(polled.output.deadline)))
  {
    hide Poll, Given, GivenCount, Picked, Unpicked, TraceOf;
    PollAnswers(s, i);
  }

  /** Every deadline that is held or given to the driver was named by the scheduler in some poll. */
  lemma {:induction false} DeadlinesAreTheSchedulers(cap: nat, calls: seq<Call>)
    ensures Run(cap, calls).hint.Some? ==> Heard(calls, Run(cap, calls).hint.value.deadline)
    ensures forall d :: SleepUntil(d) in GotIn(cap, calls) ==> Heard(calls, d)
  {
    if calls != [] {
      hide Poll, Tells;
      var (before, last) := (calls[..|calls| - 1], calls[|calls| - 1]);
      var s := Run(cap, before);
      DeadlinesAreTheSchedulers(cap, before);
      EveryRunIsLawful(cap, before);
      forall d | Heard(before, d) || (last.PollCall? && Tells(last.input, d)) ensures Heard(calls, d) {
        if Heard(before, d) {
          var n :| 0 <= n < |before| && before[n].PollCall? && Tells(before[n].input, d);
          assert calls[n] == before[n];
        } else {
          assert calls[|calls| - 1] == last;
        }
      }
      if last.PollCall? { HeldIsTold(s, last.input); }
    }
  }
}

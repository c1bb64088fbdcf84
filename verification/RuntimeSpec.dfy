/** The dispatcher runtime: what one call of `NextFuture::poll` does to the runtime's state. What the
    outside world decides (the clock, the scheduler's replies, which payloads finish, whether a
    control handle asks for shutdown before the lock is taken) is an input of the call. */
module RuntimeSpec {
  import opened Wrappers

  type Instant = int
  type Item = nat    // one dispatched unit of work, with its metadata and routing path

  datatype SleepHint =
    | Observed(deadline: Instant)   // seen from the scheduler, not yet returned to the driver
    | Emitted(deadline: Instant)    // already returned to the driver

  datatype InFlight = InFlight(item: Item, start: Instant)

  datatype Completion = Completion(item: Item, ok: bool, latency: Instant, completedAt: Instant)

  datatype Output =
    | Work(item: Item, ok: bool, latency: Instant)
    | SleepUntil(deadline: Instant)
    | Shutdown

  /** What `update_ready` and, if it reported ready, `take_next` said. */
  datatype Reply = Reply(ready: bool, nextUpdateAt: Option<Instant>, taken: Option<Item>)

  datatype Answer = Take(item: Item) | Later(at: Instant) | Nothing

  /** `Shared::next`. */
  function Next(r: Reply): Answer {
    if r.ready && r.taken.Some? then Take(r.taken.value)
    else if r.nextUpdateAt.Some? then Later(r.nextUpdateAt.value) else Nothing
  }

  /** A payload that turns out ready: which of those in flight, its outcome and when it was seen. */
  datatype Finish = Finish(which: nat, ok: bool, at: Instant)

  datatype Input = Input(
    now: Instant,
    raise: bool,                // a handle called `graceful_shutdown` before the scheduler lock
    replies: seq<Reply>,        // successive replies of the scheduler; it has nothing more after them
    finishes: seq<Finish>)      // successive ready payloads, until the in-flight set is pending

  datatype Reason = Reached(now: Instant) | NoDeadline | ShuttingDown

  /** What is told about a finished item, to the scheduler and to the driver. */
  datatype Done = Done(item: Item, ok: bool, latency: Instant)

  /** What happened, in order. */
  datatype Event =
    | Raised                               // the shutdown flag was set
    | Dispatched(item: Item)               // the scheduler's work went in flight
    | Forwarded(completion: Completion)    // `on_complete` was called on the root
    | Cleared(hint: SleepHint, reason: Reason)   // a retained deadline was dropped
    | Returned(output: Output)             // the driver got an output

  datatype State = State(
    cap: nat,
    hint: Option<SleepHint>,
    inFlight: seq<InFlight>,
    completion: seq<Completion>,
    output: seq<Output>,
    shutdown: bool,
    log: seq<Event>)

  function Initial(cap: nat): State {
    State(cap, None, [], [], [], false, [])
  }

  datatype Polled = Ready(output: Output) | Pending

  function DoneOf(c: Completion): Done {
    Done(c.item, c.ok, c.latency)
  }

  /** Completions go to the scheduler. */
  function Forwards(cs: seq<Completion>): seq<Event> {
    if cs == [] then [] else [Forwarded(cs[0])] + Forwards(cs[1..])
  }

  function Forward(s: State): State {
    s.(completion := [], log := s.log + Forwards(s.completion))
  }

  /** The oldest queued output goes to the driver. */
  function Pop(s: State): (State, Polled)
    requires s.output != []
  {
    (s.(output := s.output[1..], log := s.log + [Returned(s.output[0])]), Ready(s.output[0]))
  }

  function Raise(s: State): State {
    if s.shutdown then s else s.(shutdown := true, log := s.log + [Raised])
  }

  /** Drops the retained deadline, if there is one. */
  function Clear(s: State, reason: Reason): State {
    if s.hint.None? then s else s.(hint := None, log := s.log + [Cleared(s.hint.value, reason)])
  }

  /** A deadline that has been reached is dropped. */
  function DropReached(s: State, now: Instant): State {
    if s.hint.Some? && !(now < s.hint.value.deadline) then Clear(s, Reached(now)) else s
  }

  /** A later deadline cannot postpone an earlier retained one. */
  function Observe(s: State, at: Instant): State {
    if s.hint.None? || s.hint.value.deadline > at then s.(hint := Some(Observed(at))) else s
  }

  /** The scheduler's work is dispatched until the cap is reached or it has no work. */
  function Dispatch(s: State, now: Instant, replies: seq<Reply>): State
    decreases |replies|
  {
    if |s.inFlight| >= s.cap then s
    else
      match if replies == [] then Nothing else Next(replies[0])
      case Take(item) =>
        Dispatch(s.(inFlight := s.inFlight + [InFlight(item, now)], log := s.log + [Dispatched(item)]), now, replies[1..])
      case Later(at) => Observe(s, at)
      case Nothing => Clear(s, NoDeadline)
  }

  /** One payload of the in-flight set is ready: a pending completion and a queued output. */
  function FinishOne(s: State, now: Instant, f: Finish): State
    requires f.which < |s.inFlight|
  {
    var w := s.inFlight[f.which];
    var latency := Max(0, now - w.start);
    s.(inFlight := s.inFlight[..f.which] + s.inFlight[f.which + 1..],
       completion := s.completion + [Completion(w.item, f.ok, latency, f.at)],
       output := s.output + [Work(w.item, f.ok, latency)])
  }

  /** `drain_completed`. */
  function Drain(s: State, now: Instant, finishes: seq<Finish>): State
    decreases |finishes|
  {
    if finishes == [] || finishes[0].which >= |s.inFlight| then s
    else Drain(FinishOne(s, now, finishes[0]), now, finishes[1..])
  }

  /** The scheduler section: dispatch, or notice the shutdown. Neither happens at the cap. */
  function Schedule(s: State, i: Input): (State, bool) {
    if |s.inFlight| >= s.cap then (s, false)
    else
      var r := if i.raise then Raise(s) else s;
      if r.shutdown then (Clear(r, ShuttingDown), true) else (Dispatch(r, i.now, i.replies), false)
  }

  /** One pass with nothing queued: the new state, and the output it returns, if any. */
  function Pass(s: State, i: Input): (State, Option<Output>) {
    var (t, shutdown) := Schedule(DropReached(s, i.now), i);
    var u := Drain(t, i.now, i.finishes);
    if shutdown && u.inFlight == [] && u.output == [] && u.completion == [] then
      (u.(log := u.log + [Returned(Shutdown)]), Some(Shutdown))
    else if u.output == [] && u.hint.Some? && u.hint.value.Observed? then
      var d := u.hint.value.deadline;
      (u.(hint := Some(Emitted(d)), log := u.log + [Returned(SleepUntil(d))]), Some(SleepUntil(d)))
    else (u, None)
  }

  /** `NextFuture::poll`. A pass that completes something queues an output, so a second turn of the
      loop only forwards the completions and pops. */
  function Poll(s: State, i: Input): (State, Polled) {
    var f := Forward(s);
    if f.output != [] then Pop(f)
    else
      var (t, out) := Pass(f, i);
      if out.Some? then (t, Ready(out.value))
      else if t.output != [] then Pop(Forward(t))
      else (t, Pending)
  }
}

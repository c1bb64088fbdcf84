/** The runtime and its control handles as objects that update their state in place. */
module DispatcherRuntimes {
  import opened Wrappers
  import opened RuntimeSpec

  lemma ForwardNothing(s: State)
    ensures s.completion == [] ==> Forward(s) == s
  {
  }

  /** The state behind the mutex, and a record of what happened. */
  class Shared {
    var shutdown: bool
    ghost var log: seq<Event>

    constructor ()
      ensures !shutdown && log == []
    {
      shutdown, log := false, [];
    }
  }

  class RuntimeHandle {
    const shared: Shared

    constructor (shared: Shared)
      ensures this.shared == shared
    {
      this.shared := shared;
    }

    /** Sets the flag under the lock; idempotent. */
    method GracefulShutdown()
      modifies shared
      ensures shared.shutdown
      ensures shared.log == if old(shared.shutdown) then old(shared.log) else old(shared.log) + [Raised]
    {
      if !shared.shutdown {
        shared.log := shared.log + [Raised];
      }
      shared.shutdown := true;
    }
  }

  class Runtime {
    const cap: nat
    const shared: Shared
    var sleepHint: Option<SleepHint>
    var inFlight: seq<InFlight>
    var completion: seq<Completion>
    var output: seq<Output>

    ghost function Abs(): State
      reads this, shared
    {
      State(cap, sleepHint, inFlight, completion, output, shared.shutdown, shared.log)
    }

    constructor (cap: nat)
      ensures Abs() == Initial(cap) && fresh(shared)
    {
      this.cap := cap;
      shared := new Shared();
      sleepHint, inFlight, completion, output := None, [], [], [];
    }

    method Handle() returns (handle: RuntimeHandle)
      ensures fresh(handle) && handle.shared == shared
    {
      handle := new RuntimeHandle(shared);
    }

    /** Takes the pending completions and calls `on_complete` for each under one lock. */
    method ForwardCompletions()
      modifies this`completion, shared`log
      ensures Abs() == Forward(old(Abs()))
    {
      var completions := completion;
      completion := [];
      var n := 0;
      while n < |completions|
        invariant 0 <= n <= |completions|
        invariant completion == []
        invariant shared.log + Forwards(completions[n..]) == old(shared.log) + Forwards(completions)
      {
        assert completions[n..][1..] == completions[n + 1..];
        shared.log := shared.log + [Forwarded(completions[n])];
        n := n + 1;
      }
    }

    /** Asks the scheduler for work until the cap is reached or it has none. */
    method DispatchAvailable(now: Instant, replies: seq<Reply>)
      modifies this`inFlight, this`sleepHint, shared`log
      ensures Abs() == Dispatch(old(Abs()), now, replies)
    {
      var n := 0;
      while |inFlight| < cap
        invariant 0 <= n <= |replies|
        invariant Dispatch(Abs(), now, replies[n..]) == Dispatch(old(Abs()), now, replies)
        decreases |replies| - n
      {
        var answer := if n < |replies| then Next(replies[n]) else Nothing;
        match answer
        case Take(item) =>
          assert replies[n..][1..] == replies[n + 1..];
          inFlight := inFlight + [InFlight(item, now)];
          shared.log := shared.log + [Dispatched(item)];
          n := n + 1;
        case Later(at) =>
          if sleepHint.None? || sleepHint.value.deadline > at {
            sleepHint := Some(Observed(at));
          }
          return;
        case Nothing =>
          if sleepHint.Some? {
            shared.log := shared.log + [Cleared(sleepHint.value, NoDeadline)];
          }
          sleepHint := None;
          return;
      }
    }

    /** Turns finished payloads into pending completions and queued outputs. */
    method DrainCompleted(now: Instant, finishes: seq<Finish>) returns (progress: bool)
      modifies this`inFlight, this`completion, this`output
      ensures Abs() == Drain(old(Abs()), now, finishes)
      ensures progress <==> |output| > |old(output)|
    {
      progress := false;
      var n := 0;
      while n < |finishes| && finishes[n].which < |inFlight|
        invariant 0 <= n <= |finishes|
        invariant Drain(Abs(), now, finishes[n..]) == Drain(old(Abs()), now, finishes)
        invariant |output| == |old(output)| + n && (progress <==> n > 0)
      {
        var f := finishes[n];
        assert finishes[n..][1..] == finishes[n + 1..];
        var w := inFlight[f.which];
        var latency := Max(0, now - w.start);
        inFlight := inFlight[..f.which] + inFlight[f.which + 1..];
        progress := true;
        completion := completion + [Completion(w.item, f.ok, latency, f.at)];
        output := output + [Work(w.item, f.ok, latency)];
        n := n + 1;
      }
    }

    /** The part of a turn that takes the scheduler lock: dispatch, or notice the shutdown. */
    method AskScheduler(i: Input) returns (shutdown: bool)
      modifies this`inFlight, this`sleepHint, shared
      ensures (Abs(), shutdown) == Schedule(old(Abs()), i)
    {
      shutdown := false;
      if |inFlight| < cap {
        if i.raise && !shared.shutdown {
          shared.shutdown := true;
          shared.log := shared.log + [Raised];
        }
        shutdown := shared.shutdown;
        if !shutdown {
          DispatchAvailable(i.now, i.replies);
        }
      }
      if shutdown {
        if sleepHint.Some? {
          shared.log := shared.log + [Cleared(sleepHint.value, ShuttingDown)];
        }
        sleepHint := None;
      }
    }

    /** A turn of the loop with nothing queued. */
    method Turn(i: Input) returns (out: Option<Output>, progress: bool)
      requires output == []
      modifies this`inFlight, this`sleepHint, this`completion, this`output, shared
      ensures (Abs(), out) == Pass(old(Abs()), i)
      ensures progress <==> output != []
    {
      hide Dispatch, FinishOne;
      if sleepHint.Some? && !(i.now < sleepHint.value.deadline) {
        shared.log := shared.log + [Cleared(sleepHint.value, Reached(i.now))];
        sleepHint := None;
      }
      var shutdown := AskScheduler(i);
      progress := DrainCompleted(i.now, i.finishes);
      out := None;
      if shutdown && inFlight == [] && output == [] && completion == [] {
        sleepHint := None;
        shared.log := shared.log + [Returned(Shutdown)];
        out := Some(Shutdown);
      } else if output == [] && sleepHint.Some? && sleepHint.value.Observed? {
        var deadline := sleepHint.value.deadline;
        sleepHint := Some(Emitted(deadline));
        shared.log := shared.log + [Returned(SleepUntil(deadline))];
        out := Some(SleepUntil(deadline));
      }
    }

    /** One `poll` of `next()`. */
    method Poll(i: Input) returns (polled: Polled)
      modifies this, shared
      ensures (Abs(), polled) == RuntimeSpec.Poll(old(Abs()), i)
    {
      hide Pass, Forwards;
      var progress := true;
      ghost var turns := 0;
      while progress
        invariant turns == 0 ==> progress && Abs() == old(Abs())
        invariant turns > 0 ==>
                    && Forward(old(Abs())).output == []
                    && (Abs(), None) == Pass(Forward(old(Abs())), i)
                    && (progress <==> output != [])
        decreases progress && turns == 0, progress
      {
        ghost var s := Abs();
        ForwardNothing(s);
        if completion != [] {
          ForwardCompletions();
        }
        assert Abs() == Forward(s);
        if output != [] {
          polled := Ready(output[0]);
          shared.log := shared.log + [Returned(output[0])];
          output := output[1..];
          return;
        }
        var out;
        out, progress := Turn(i);
        if out.Some? {
          return Ready(out.value);
        }
        turns := turns + 1;
      }
      polled := Pending;
    }
  }
}

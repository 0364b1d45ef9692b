/**
 The `debounce(callback, time)` helper of the editor (RichTextEditor.js
 lines 145-154) as a state machine over natural-number time.  The closure's
 `interval` variable holds at most one scheduled timeout; here it is the
 optional `pending` entry, carrying the arguments of the call it will make
 and the instant at which it becomes due.
 */
module Debounce {
  import opened JsValues

  /** The scheduled timeout: the arguments it will pass and when it is due. */
  datatype Pending<A> = Pending(args: A, deadline: nat)

  /** One debounced function: its delay and the timeout it has scheduled, if any. */
  datatype Debouncer<A> = Debouncer(time: nat, pending: Option<Pending<A>>)

  /** What the outside world does to a debounced function. */
  datatype Event<A> =
    | CallAt(args: A, at: nat)   // the debounced function is called at instant `at`
    | TickAt(at: nat)            // the clock is observed at instant `at`

  /** The callback ran with `args` at instant `at`. */
  datatype Firing<A> = Firing(args: A, at: nat)

  datatype TickResult<A> = TickResult(next: Debouncer<A>, fired: Option<A>)

  datatype RunResult<A> = RunResult(final: Debouncer<A>, fired: seq<Firing<A>>)

  /** `debounce(callback, time)`: nothing is scheduled yet. */
  function New<A>(time: nat): (d: Debouncer<A>)
    ensures d.time == time && d.pending.None?
  {
    Debouncer(time, None)
  }

  /**
   Calling the debounced function at `now`: the scheduled timeout, if any, is
   cleared and a new one is set `time` later with the new arguments.
   */
  function Call<A>(d: Debouncer<A>, args: A, now: nat): (r: Debouncer<A>)
    ensures r.time == d.time
    ensures r.pending.Some? && r.pending.value.args == args
    ensures r.pending.value.deadline == now + d.time
  {
    Debouncer(d.time, Some(Pending(args, now + d.time)))
  }

  /**
   The clock reaches `now`: a timeout that is due runs the callback once and
   clears `interval`; otherwise nothing happens.
   */
  function Tick<A>(d: Debouncer<A>, now: nat): (r: TickResult<A>)
    ensures r.fired.Some? <==> d.pending.Some? && d.pending.value.deadline <= now
    ensures r.fired.Some? ==> r.fired.value == d.pending.value.args && r.next == Debouncer(d.time, None)
    ensures r.fired.None? ==> r.next == d
  {
    match d.pending
    case Some(p) =>
      if p.deadline <= now then TickResult(Debouncer(d.time, None), Some(p.args))
      else TickResult(d, None)
    case None => TickResult(d, None)
  }

  /** Number of calls among `events`. */
  function CallCount<A>(events: seq<Event<A>>): nat
    decreases |events|
  {
    if |events| == 0 then 0
    else (if events[0].CallAt? then 1 else 0) + CallCount(events[1..])
  }

  /** The arguments of the calls among `events`, in order. */
  function CallArgs<A>(events: seq<Event<A>>): seq<A>
    decreases |events|
  {
    if |events| == 0 then []
    else (if events[0].CallAt? then [events[0].args] else []) + CallArgs(events[1..])
  }

  /** 1 when a timeout is scheduled, else 0. */
  function PendingCount<A>(d: Debouncer<A>): nat
  {
    if d.pending.Some? then 1 else 0
  }

  /**
   Feeds `events` to the debounced function in order and collects the
   callback runs.  The callback runs at most once per call, plus once for a
   timeout that was already scheduled: a debounced function never multiplies
   work.
   */
  function Run<A>(d: Debouncer<A>, events: seq<Event<A>>): (r: RunResult<A>)
    ensures r.final.time == d.time
    ensures |r.fired| + PendingCount(r.final) <= CallCount(events) + PendingCount(d)
    decreases |events|
  {
    if |events| == 0 then RunResult(d, [])
    else match events[0]
      case CallAt(args, at) =>
        var rest := Run(Call(d, args, at), events[1..]);
        RunResult(rest.final, rest.fired)
      case TickAt(at) =>
        var t := Tick(d, at);
        var rest := Run(t.next, events[1..]);
        RunResult(rest.final, (if t.fired.Some? then [Firing(t.fired.value, at)] else []) + rest.fired)
  }

  /**
   A later call postpones the callback: after it, no tick before the new
   deadline runs anything, even one past the deadline of the timeout it
   replaced.
   */
  lemma CallPostpones<A>(d: Debouncer<A>, args: A, now: nat, later: nat)
    requires d.pending.Some? && d.pending.value.deadline <= later
    requires later < now + d.time
    ensures Tick(d, later).fired.Some?
    ensures Tick(Call(d, args, now), later).fired.None?
  {
  }

  /** Every callback run passes the arguments of some call, or of the timeout already scheduled. */
  lemma {:induction false} FiredArgsWereCalled<A>(d: Debouncer<A>, events: seq<Event<A>>)
    ensures forall k :: 0 <= k < |Run(d, events).fired| ==>
      Run(d, events).fired[k].args in CallArgs(events)
      || (d.pending.Some? && Run(d, events).fired[k].args == d.pending.value.args)
    decreases |events|
  {
    if |events| > 0 {
      var r := Run(d, events);
      match events[0]
      case CallAt(args, at) =>
        var d1 := Call(d, args, at);
        FiredArgsWereCalled(d1, events[1..]);
        assert CallArgs(events) == [args] + CallArgs(events[1..]);
      case TickAt(at) =>
        var t := Tick(d, at);
        FiredArgsWereCalled(t.next, events[1..]);
        assert CallArgs(events) == CallArgs(events[1..]);
    }
  }

  /** A run of calls only, with no tick, runs nothing and keeps the last call scheduled. */
  lemma {:induction false} CallsOnlyKeepLast<A>(d: Debouncer<A>, events: seq<Event<A>>)
    requires |events| > 0
    requires forall k :: 0 <= k < |events| ==> events[k].CallAt?
    ensures Run(d, events).fired == []
    ensures Run(d, events).final.pending
      == Some(Pending(events[|events| - 1].args, events[|events| - 1].at + d.time))
    decreases |events|
  {
    if |events| > 1 {
      var d1 := Call(d, events[0].args, events[0].at);
      CallsOnlyKeepLast(d1, events[1..]);
      assert events[1..][|events[1..]| - 1] == events[|events| - 1];
    }
  }

  /** Ticks that all come before the deadline leave the state as it is. */
  lemma {:induction false} EarlyTicksDoNothing<A>(d: Debouncer<A>, events: seq<Event<A>>)
    requires d.pending.Some?
    requires forall k :: 0 <= k < |events| ==> events[k].TickAt? && events[k].at < d.pending.value.deadline
    ensures Run(d, events) == RunResult(d, [])
    decreases |events|
  {
    if |events| > 0 {
      EarlyTicksDoNothing(d, events[1..]);
    }
  }

  /**
   A burst of calls followed by ticks: nothing runs until the last call's
   deadline, then the callback runs exactly once, with the last call's
   arguments, and nothing stays scheduled.
   */
  lemma BurstFiresOnce<A>(d: Debouncer<A>, calls: seq<Event<A>>, early: seq<Event<A>>, due: nat)
    requires |calls| > 0
    requires forall k :: 0 <= k < |calls| ==> calls[k].CallAt?
    requires forall k :: 0 <= k < |early| ==>
      early[k].TickAt? && early[k].at < calls[|calls| - 1].at + d.time
    requires calls[|calls| - 1].at + d.time <= due
    ensures Run(d, calls + early + [TickAt(due)]).fired == [Firing(calls[|calls| - 1].args, due)]
    ensures Run(d, calls + early + [TickAt(due)]).final.pending.None?
  {
    var last := calls[|calls| - 1];
    CallsOnlyKeepLast(d, calls);
    var d1 := Run(d, calls).final;
    RunSplits(d, calls, early + [TickAt(due)]);
    RunSplits(d1, early, [TickAt(due)]);
    EarlyTicksDoNothing(d1, early);
    assert calls + early + [TickAt(due)] == calls + (early + [TickAt(due)]);
  }

  /** Running two stretches of events one after the other is running them together. */
  lemma {:induction false} RunSplits<A>(d: Debouncer<A>, xs: seq<Event<A>>, ys: seq<Event<A>>)
    ensures Run(d, xs + ys).final == Run(Run(d, xs).final, ys).final
    ensures Run(d, xs + ys).fired == Run(d, xs).fired + Run(Run(d, xs).final, ys).fired
    decreases |xs|
  {
    if |xs| == 0 {
      assert xs + ys == ys;
    } else {
      assert (xs + ys)[0] == xs[0];
      assert (xs + ys)[1..] == xs[1..] + ys;
      match xs[0]
      case CallAt(args, at) =>
        RunSplits(Call(d, args, at), xs[1..], ys);
      case TickAt(at) =>
        RunSplits(Tick(d, at).next, xs[1..], ys);
    }
  }

  /**
   Calls at 0, 100, 200 and 300 ms with a 500 ms delay, the clock observed
   at 400, 700, 800 and 900 ms: the callback runs exactly once, at 800, with
   the arguments of the call at 300.
   */
  lemma BurstExample<A>(a0: A, a1: A, a2: A, a3: A)
    ensures Run(New(500), [CallAt(a0, 0), CallAt(a1, 100), CallAt(a2, 200), CallAt(a3, 300),
                           TickAt(400), TickAt(700), TickAt(800), TickAt(900)]).fired
      == [Firing(a3, 800)]
  {
    var d: Debouncer<A> := New(500);
    var calls := [CallAt(a0, 0), CallAt(a1, 100), CallAt(a2, 200), CallAt(a3, 300)];
    var early := [TickAt(400), TickAt(700)];
    BurstFiresOnce(d, calls, early, 800);
    var d2 := Run(d, calls + early + [TickAt(800)]).final;
    RunSplits(d, calls + early + [TickAt(800)], [TickAt(900)]);
    assert calls + early + [TickAt(800)] + [TickAt(900)]
      == [CallAt(a0, 0), CallAt(a1, 100), CallAt(a2, 200), CallAt(a3, 300),
          TickAt(400), TickAt(700), TickAt(800), TickAt(900)];
  }
}

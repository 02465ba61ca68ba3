/**
 The firing loop of `Run`, one iteration at a time.

 Each iteration computes the next deadline and then waits in a `select` for
 either the deadline (`Elapsed`) or the closing of the timer's cancel
 channel (`Cancelled`). The goroutine, the Go timer and the wait itself are
 abstracted into that event, and the action `f` into a count of its calls.
 */
module Loop {
  import opened Clock
  import opened Optional
  import opened Timers
  import opened Registry

  datatype Event = Elapsed | Cancelled

  /** The branch of the `select` that can be taken: the deadline while the
      channel is open, the cancellation once it is closed. */
  predicate Ready(t: Timer, ev: Event)
  {
    match ev
    case Elapsed => t.cancel == Open
    case Cancelled => t.cancel == Closed
  }

  /** Result of one iteration: the new state, the deadline the iteration
      waited for, whether `f` was called, and whether `Run` returned. */
  datatype Outcome = Outcome(world: World, deadline: int, fired: bool, stopped: bool)

  /** One iteration of the loop of `Run` for the timer `h`, with the clock
      reading `now` taken by `nextTime`.

      The source arms its Go timer with `time.Since(deadline)`, that is
      `now - deadline`, which is negative for a future deadline, so the Go
      timer fires at once; the model does not reproduce that arithmetic and
      lets the `Elapsed` event stand for the deadline having passed. */
  function Step(w: World, h: Handle, now: int, ev: Event): (o: Outcome)
    requires h < |w.heap| && Ready(w.heap[h], ev)
    ensures o.deadline == NextTime(w.heap[h], now)
    ensures ev == Cancelled ==> o.world == w && !o.fired && o.stopped
    ensures ev == Elapsed && w.heap[h].timeType == Disposable ==>
      && o.fired && o.stopped
      && o.world.registry.Keys == w.registry.Keys - {w.heap[h].title}
      && (forall k :: k in o.world.registry ==> o.world.registry[k] == w.registry[k])
      && o.world.heap == w.heap[h := w.heap[h].(running := false, cancel := Closed)]
    ensures ev == Elapsed && w.heap[h].timeType != Disposable ==>
      && !o.stopped
      && o.fired == !w.heap[h].cancelOnce
      && OnlyTimerChanged(w, o.world, h)
      && o.world.heap[h] == w.heap[h].(cancelOnce := false)
  {
    var t := w.heap[h];
    var deadline := NextTime(t, now);
    match ev
    case Cancelled => Outcome(w, deadline, false, true)
    case Elapsed =>
      if t.timeType == Disposable then
        Outcome(DeleteTimer(w, Some(h)), deadline, true, true)
      else if t.cancelOnce then
        Outcome(w.(heap := w.heap[h := t.(cancelOnce := false)]), deadline, false, false)
      else
        Outcome(w, deadline, true, false)
  }

  /** After a deletion the timer's only possible event is the cancellation,
      which ends its loop without calling `f`. */
  lemma DeletedTimerNeverFires(w: World, h: Handle, now: int, ev: Event)
    requires h < |w.heap| && w.heap[h].cancel == Open
    requires Ready(DeleteTimer(w, Some(h)).heap[h], ev)
    ensures ev == Cancelled
    ensures var o := Step(DeleteTimer(w, Some(h)), h, now, ev); !o.fired && o.stopped
  {
  }

  /** A disposable timer that fired has a closed channel, so no further
      deadline can be waited for: it cannot fire a second time. */
  lemma DisposableCannotFireAgain(w: World, h: Handle, now: int)
    requires h < |w.heap| && w.heap[h].timeType == Disposable && w.heap[h].cancel == Open
    ensures var o := Step(w, h, now, Elapsed);
            !Ready(o.world.heap[h], Elapsed) && o.world.heap[h].title !in o.world.registry
  {
  }

  /** One iteration keeps the registry good. */
  lemma StepKeepsGood(w: World, h: Handle, now: int, ev: Event)
    requires Good(w) && h < |w.heap| && Ready(w.heap[h], ev)
    ensures Good(Step(w, h, now, ev).world)
  {
  }

  /** What a run of the loop did: the final state, how often `f` was
      called, and whether `Run` returned. */
  datatype Trace = Trace(world: World, fires: nat, stopped: bool)

  /** The loop driven by a sequence of deadlines that all elapse, `nows`
      holding the clock reading at the start of each iteration. It stops
      early when `Run` returns. */
  function RunElapsed(w: World, h: Handle, nows: seq<int>): (tr: Trace)
    requires h < |w.heap| && w.heap[h].cancel == Open
    ensures tr.fires <= |nows|
    ensures |tr.world.heap| == |w.heap|
    decreases |nows|
  {
    if nows == [] then Trace(w, 0, false)
    else
      var o := Step(w, h, nows[0], Elapsed);
      var n := if o.fired then 1 else 0;
      if o.stopped then Trace(o.world, n, true)
      else
        var rest := RunElapsed(o.world, h, nows[1..]);
        Trace(rest.world, rest.fires + n, rest.stopped)
  }

  /** `Run` with the deadlines `nows` all elapsing: nothing at all happens
      when the timer is already running, otherwise the timer is started and
      the loop entered. */
  function Run(w: World, h: Handle, nows: seq<int>): (tr: Trace)
    requires h < |w.heap|
    ensures w.heap[h].running ==> tr == Trace(w, 0, true)
    ensures !w.heap[h].running ==> tr.fires <= |nows| && |tr.world.heap| == |w.heap|
  {
    if w.heap[h].running then Trace(w, 0, true)
    else RunElapsed(Start(w, h), h, nows)
  }

  /** `Run` on a timer that is not running fires as its kind prescribes: a
      disposable timer once and then returns, a repeating timer at every
      deadline, or at every deadline but the first when a skip is pending. */
  lemma {:induction false} RunFiresAsScheduled(w: World, h: Handle, nows: seq<int>)
    requires h < |w.heap| && !w.heap[h].running
    ensures var tr := Run(w, h, nows);
            && (w.heap[h].timeType == Disposable && |nows| >= 1 ==>
                  tr.fires == 1 && tr.stopped)
            && (w.heap[h].timeType != Disposable && !w.heap[h].cancelOnce ==>
                  tr.fires == |nows| && !tr.stopped)
            && (w.heap[h].timeType != Disposable && w.heap[h].cancelOnce && |nows| >= 1 ==>
                  tr.fires == |nows| - 1 && !tr.stopped)
  {
    var s := Start(w, h);
    if w.heap[h].timeType == Disposable {
      if |nows| >= 1 {
        DisposableFiresOnce(s, h, nows);
      }
    } else if w.heap[h].cancelOnce {
      if |nows| >= 1 {
        SkipSuppressesExactlyOne(s, h, nows);
      }
    } else {
      RepeatingFiresEveryTime(s, h, nows);
    }
  }

  /** A disposable timer fires exactly once, however many deadlines are
      offered, and takes its title out of the registry. */
  lemma DisposableFiresOnce(w: World, h: Handle, nows: seq<int>)
    requires h < |w.heap| && w.heap[h].cancel == Open
    requires w.heap[h].timeType == Disposable && |nows| >= 1
    ensures var tr := RunElapsed(w, h, nows);
            tr.fires == 1 && tr.stopped && w.heap[h].title !in tr.world.registry
  {
  }

  /** A repeating timer without a pending skip calls `f` at every deadline
      and changes nothing. */
  lemma {:induction false} RepeatingFiresEveryTime(w: World, h: Handle, nows: seq<int>)
    requires h < |w.heap| && w.heap[h].cancel == Open
    requires w.heap[h].timeType != Disposable && !w.heap[h].cancelOnce
    ensures RunElapsed(w, h, nows) == Trace(w, |nows|, false)
    decreases |nows|
  {
    if nows != [] {
      RepeatingFiresEveryTime(w, h, nows[1..]);
    }
  }

  /** A pending skip suppresses exactly the next firing: of `n` deadlines,
      `n - 1` call `f`, the flag ends cleared and the registry is as before. */
  lemma {:induction false} SkipSuppressesExactlyOne(w: World, h: Handle, nows: seq<int>)
    requires h < |w.heap| && w.heap[h].cancel == Open
    requires w.heap[h].timeType != Disposable && w.heap[h].cancelOnce
    requires |nows| >= 1
    ensures var tr := RunElapsed(w, h, nows);
            && tr.fires == |nows| - 1 && !tr.stopped
            && tr.world.registry == w.registry
            && tr.world.heap == w.heap[h := w.heap[h].(cancelOnce := false)]
  {
    var o := Step(w, h, nows[0], Elapsed);
    RepeatingFiresEveryTime(o.world, h, nows[1..]);
  }

  /** `CancelOnce` on a repeating timer takes exactly one firing away from
      the next `n` deadlines. */
  lemma {:induction false} CancelOnceSkipsOneFiring(w: World, h: Handle, nows: seq<int>)
    requires h < |w.heap| && w.heap[h].cancel == Open
    requires w.heap[h].timeType != Disposable && !w.heap[h].cancelOnce
    requires |nows| >= 1
    ensures RunElapsed(CancelOnce(w, Some(h)), h, nows).fires == |nows| - 1
    ensures RunElapsed(w, h, nows).fires == |nows|
  {
    SkipSuppressesExactlyOne(CancelOnce(w, Some(h)), h, nows);
    RepeatingFiresEveryTime(w, h, nows);
  }
}

/**
 The registry `timerMap` and the operations on timers reached through it:
 `AddTicker`, the prologue of `Run`, `Cancel`, `DeleteTimer`, `CancelOnce`
 and the title listings of the menu.

 The source stores `*Timer` pointers, and the running loop works on the very
 object the map points at. The model keeps that sharing: every timer ever
 added lives in `heap`, and the registry maps a title to a `Handle` into it.
 A nil `*Timer` (the result of looking up a missing title) is `None`.
 */
module Registry {
  import opened Optional
  import opened Timers

  /** A `*Timer`: the index of a timer in the heap. */
  type Handle = nat

  datatype World = World(heap: seq<Timer>, registry: map<string, Handle>)

  /** The state at program start: no timers, empty map. */
  const Empty: World := World([], map[])

  /** Every registry entry points at an allocated timer. */
  predicate WellFormed(w: World)
  {
    forall title :: title in w.registry ==> w.registry[title] < |w.heap|
  }

  /** What the program maintains for registered timers: each entry is keyed
      by its own title, and its loop is running with an open cancel channel. */
  predicate Good(w: World)
  {
    forall title :: title in w.registry ==>
      && w.registry[title] < |w.heap|
      && w.heap[w.registry[title]].title == title
      && w.heap[w.registry[title]].running
      && w.heap[w.registry[title]].cancel == Open
  }

  /** `timerMap[title]`: the registered timer, or nil. */
  function Lookup(w: World, title: string): (r: Option<Handle>)
    ensures r.Some? <==> title in w.registry
    ensures r.Some? ==> r.value == w.registry[title]
  {
    if title in w.registry then Some(w.registry[title]) else None
  }

  /** `r` differs from `w` at most in the timer `h`. */
  predicate OnlyTimerChanged(w: World, r: World, h: Handle)
  {
    && r.registry == w.registry
    && |r.heap| == |w.heap|
    && forall g :: 0 <= g < |w.heap| && g != h ==> r.heap[g] == w.heap[g]
  }

  /** The prologue of `Run`: a running timer is left alone, any other is
      marked running and given a fresh open cancel channel. */
  function Start(w: World, h: Handle): (r: World)
    requires h < |w.heap|
    ensures w.heap[h].running ==> r == w
    ensures !w.heap[h].running ==>
      && OnlyTimerChanged(w, r, h)
      && r.heap[h] == w.heap[h].(running := true, cancel := Open)
  {
    if w.heap[h].running then w
    else w.(heap := w.heap[h := w.heap[h].(running := true, cancel := Open)])
  }

  /** `AddTicker`: stores the timer under its title, replacing any timer
      already there, and starts its loop. The goroutine is taken to start at
      once. */
  function AddTicker(w: World, t: Timer): (r: World)
    ensures |r.heap| == |w.heap| + 1 && r.heap[..|w.heap|] == w.heap
    ensures r.heap[|w.heap|] == if t.running then t else t.(running := true, cancel := Open)
    ensures t.title in r.registry && r.registry[t.title] == |w.heap|
    ensures r.registry.Keys == w.registry.Keys + {t.title}
    ensures forall k :: k in w.registry && k != t.title ==> r.registry[k] == w.registry[k]
  {
    var h := |w.heap|;
    Start(World(w.heap + [t], w.registry[t.title := h]), h)
  }

  /** `Cancel` on a timer or nil. Closing a nil or closed channel panics in
      Go, so the channel must be open. */
  function Cancel(w: World, ref: Option<Handle>): (r: World)
    requires ref.Some? ==> ref.value < |w.heap| && w.heap[ref.value].cancel == Open
    ensures ref.None? ==> r == w
    ensures ref.Some? ==>
      && OnlyTimerChanged(w, r, ref.value)
      && r.heap[ref.value] == w.heap[ref.value].(running := false, cancel := Closed)
  {
    match ref
    case None => w
    case Some(h) => w.(heap := w.heap[h := w.heap[h].(running := false, cancel := Closed)])
  }

  /** `DeleteTimer` on a timer or nil: drops the registry entry under the
      timer's title, whichever timer it holds, then cancels the timer. */
  function DeleteTimer(w: World, ref: Option<Handle>): (r: World)
    requires ref.Some? ==> ref.value < |w.heap| && w.heap[ref.value].cancel == Open
    ensures ref.None? ==> r == w
    ensures ref.Some? ==>
      && r.registry.Keys == w.registry.Keys - {w.heap[ref.value].title}
      && (forall k :: k in r.registry ==> r.registry[k] == w.registry[k])
      && r.heap == Cancel(w, ref).heap
  {
    match ref
    case None => w
    case Some(h) => Cancel(w.(registry := w.registry - {w.heap[h].title}), ref)
  }

  /** `CancelOnce` on a timer or nil: asks the loop to skip its next firing. */
  function CancelOnce(w: World, ref: Option<Handle>): (r: World)
    requires ref.Some? ==> ref.value < |w.heap|
    ensures ref.None? ==> r == w
    ensures ref.Some? ==>
      && OnlyTimerChanged(w, r, ref.value)
      && r.heap[ref.value] == w.heap[ref.value].(cancelOnce := true)
  {
    match ref
    case None => w
    case Some(h) => w.(heap := w.heap[h := w.heap[h].(cancelOnce := true)])
  }

  /** Asking twice before the loop consumes the flag is the same as asking
      once. */
  lemma CancelOnceIdempotent(w: World, ref: Option<Handle>)
    requires ref.Some? ==> ref.value < |w.heap|
    ensures CancelOnce(CancelOnce(w, ref), ref) == CancelOnce(w, ref)
  {
  }

  /** Adding a fully built, not yet started timer keeps the registry good. */
  lemma AddTickerKeepsGood(w: World, t: Timer)
    requires Good(w) && !t.running
    ensures Good(AddTicker(w, t))
  {
  }

  /** What the menu's "add" entries do, `AddTicker(NewTicker(..))`: the new
      timer is registered under its prefixed title, running with an open
      channel and no pending skip, and the registry stays good. */
  lemma AddNewTicker(w: World, title: string, kind: int, time: int, f: Action)
    requires Good(w) && ValidKind(kind)
    ensures var r := AddTicker(w, NewTicker(title, kind, time, f));
            && Good(r)
            && Prefix(kind) + title in r.registry
            && var t := r.heap[r.registry[Prefix(kind) + title]];
            && t.timeType == kind && t.time == time && t.f == f
            && t.running && t.cancel == Open && !t.cancelOnce
  {
  }

  /** Deleting a timer with an open channel keeps the registry good. */
  lemma DeleteTimerKeepsGood(w: World, ref: Option<Handle>)
    requires Good(w)
    requires ref.Some? ==> ref.value < |w.heap| && w.heap[ref.value].cancel == Open
    ensures Good(DeleteTimer(w, ref))
  {
  }

  /** Replacing a registered title strands the previous timer: no title
      reaches it any more, yet its loop keeps running with an open channel,
      so it can no longer be deleted. */
  lemma AddTickerStrandsPrevious(w: World, t: Timer)
    requires Good(w) && t.title in w.registry
    ensures var old_h := w.registry[t.title];
            var r := AddTicker(w, t);
            && (forall k :: k in r.registry ==> r.registry[k] != old_h)
            && r.heap[old_h].running && r.heap[old_h].cancel == Open
  {
  }

  /** Whether `title` belongs in a listing: every registered title, or only
      those of daily-repeat timers. */
  predicate Listed(w: World, onlyRepeat: bool, title: string)
  {
    && title in w.registry
    && (onlyRepeat ==>
          w.registry[title] < |w.heap| && w.heap[w.registry[title]].timeType == Repeat)
  }

  /** The title listings built by ranging over `timerMap`; the order is the
      map's iteration order, which Go leaves unspecified. */
  method ListTitles(w: World, onlyRepeat: bool) returns (ts: seq<string>)
    requires WellFormed(w)
    ensures forall x :: x in ts <==> Listed(w, onlyRepeat, x)
    ensures forall i, j :: 0 <= i < j < |ts| ==> ts[i] != ts[j]
  {
    ts := [];
    var rest := w.registry.Keys;
    while rest != {}
      invariant rest <= w.registry.Keys
      invariant forall x :: x in ts <==> x !in rest && Listed(w, onlyRepeat, x)
      invariant forall i, j :: 0 <= i < j < |ts| ==> ts[i] != ts[j]
      decreases rest
    {
      var title :| title in rest;
      if !onlyRepeat || w.heap[w.registry[title]].timeType == Repeat {
        ts := ts + [title];
      }
      rest := rest - {title};
    }
  }
}

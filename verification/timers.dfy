/**
 The reminder timer entity of main.go: its kinds, its constructor
 `NewTicker` and its next-fire computation `nextTime`.
 */
module Timers {
  import opened Clock

  /** Kind codes, as the `iota + 1` constants of the source. */
  const Disposable: int := 1
  const Repeat: int := 2
  /** Fixed interval; the source calls this constant `ticker`. */
  const Interval: int := 3

  predicate ValidKind(kind: int)
  {
    kind == Disposable || kind == Repeat || kind == Interval
  }

  /** State of the `cancel` channel: never made (nil), made and open, or
      closed by `Cancel`. */
  datatype Chan = NilChan | Open | Closed

  /** The opaque callback `f`; only its identity is kept. */
  datatype Action = NilAction | Callback(id: nat)

  /** A timer. `time` is an instant for a disposable timer, and for the
      other kinds only its clock reading (hour, minute, second) is used. */
  datatype Timer = Timer(
    title: string,
    timeType: int,
    time: int,
    running: bool,
    cancelOnce: bool,
    cancel: Chan,
    f: Action)

  /** Go's zero `Timer{}`; the zero `time.Time` is the instant 0 here. */
  const ZeroTimer: Timer := Timer("", 0, 0, false, false, NilChan, NilAction)

  /** Title prefix of each kind. The repeat prefix really closes with `}`. */
  function Prefix(kind: int): (p: string)
    requires ValidKind(kind)
    ensures |p| >= 4 && p[0] == '['
  {
    if kind == Disposable then "[单次]"
    else if kind == Repeat then "[重复}"
    else "[有间隔]"
  }

  /** A freshly built timer that has not been started. */
  predicate Idle(t: Timer)
  {
    !t.running && !t.cancelOnce && t.cancel == NilChan
  }

  /** Builds a timer; an unknown kind gives the zero timer. */
  function NewTicker(title: string, timeType: int, time: int, f: Action): (t: Timer)
    ensures ValidKind(timeType) ==>
      && t.title == Prefix(timeType) + title
      && t.timeType == timeType && t.time == time && t.f == f
      && Idle(t)
    ensures !ValidKind(timeType) ==> t == ZeroTimer
  {
    if !ValidKind(timeType) then ZeroTimer
    else Timer(Prefix(timeType) + title, timeType, time, false, false, NilChan, f)
  }

  /** The second character of a prefix tells the kinds apart. */
  lemma PrefixesDistinct(k1: int, k2: int)
    requires ValidKind(k1) && ValidKind(k2)
    ensures Prefix(k1)[1] == Prefix(k2)[1] <==> k1 == k2
  {
  }

  /** The title `NewTicker` builds determines both the kind and the title
      given: two valid timers get the same registry key only when they were
      built from the same kind and the same title. */
  lemma TitleDeterminesKind(a: string, ka: int, ta: int, fa: Action,
                             b: string, kb: int, tb: int, fb: Action)
    requires ValidKind(ka) && ValidKind(kb)
    ensures NewTicker(a, ka, ta, fa).title == NewTicker(b, kb, tb, fb).title <==> ka == kb && a == b
  {
    var x := NewTicker(a, ka, ta, fa).title;
    var y := NewTicker(b, kb, tb, fb).title;
    if x == y {
      assert x[1] == Prefix(ka)[1] && y[1] == Prefix(kb)[1];
      PrefixesDistinct(ka, kb);
      var p := Prefix(ka);
      assert a == x[|p|..];
      assert b == y[|p|..];
    }
  }

  /** Today's firing instant of a daily timer: the local midnight of `now`
      plus the timer's time of day. */
  function TodayAt(t: Timer, now: int): int
  {
    Midnight(now) + SecondOfDay(t.time)
  }

  /** Next firing instant (`nextTime`), with the clock reading passed in. A
      kind other than disposable or repeat takes the interval branch. */
  function NextTime(t: Timer, now: int): (r: int)
    ensures t.timeType == Disposable ==> r == t.time
    ensures t.timeType == Repeat ==>
      && (now < TodayAt(t, now) ==> r == TodayAt(t, now))
      && (TodayAt(t, now) <= now ==> r == TodayAt(t, now) + Day)
    ensures t.timeType == Repeat ==>
      now < r <= now + Day && SecondOfDay(r) == SecondOfDay(t.time)
    ensures t.timeType != Disposable && t.timeType != Repeat ==>
      r - now == SecondOfDay(t.time) && now <= r < now + Day
  {
    if t.timeType == Disposable then t.time
    else if t.timeType == Repeat then
      var today := At(Midnight(now), Hour(t.time), Minute(t.time), Second(t.time));
      ClockOnDay(now, t.time);
      if now < today then today else today + Day
    else
      var tick := Hour(t.time) * HourSeconds + Minute(t.time) * MinuteSeconds + Second(t.time);
      ComponentsRecompose(t.time);
      now + tick
  }

  /** The daily firing instant is the earliest instant strictly after `now`
      whose clock reading is the timer's. */
  lemma RepeatIsEarliest(t: Timer, now: int, x: int)
    requires t.timeType == Repeat
    requires now < x && SecondOfDay(x) == SecondOfDay(t.time)
    ensures NextTime(t, now) <= x
  {
  }
}

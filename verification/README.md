# ticker — reminder timers, modelled in Dafny

The program is a console reminder scheduler written in Go. A user adds named
reminders of three kinds: one-shot ("disposable"), daily repeat, and fixed
interval. Each reminder is a `Timer` that runs its own loop in a goroutine. The
loop computes the next deadline, waits for it or for cancellation, and then
calls the reminder's action. A global map `timerMap` from title to `*Timer` lets
the menu skip the next firing of a daily reminder (`CancelOnce`) or delete a
reminder (`DeleteTimer`).

This project models that core as pure functions:

- `Clock` holds local time as integer seconds with 86400-second days.
- `Timers` holds the `Timer` record, the kind codes 1, 2 and 3, `NewTicker` with
  its title prefixes, and `nextTime`. The clock reading `now` is a parameter.
- `Registry` holds the map and the operations on it. Go's `*Timer` sharing is
  kept: every timer ever added lives in a heap `seq<Timer>`, and the registry maps
  a title to an index into it. So a `CancelOnce` made through the map is seen by
  the running loop. A timer replaced under its title keeps running. A nil
  receiver, which is what a lookup of a missing title gives, is `None`.
- `Loop` models one iteration of `Run` as a step function. The wait is an event,
  `Elapsed` or `Cancelled`, and the action is counted, not run. `RunElapsed` runs
  the loop over a sequence of elapsed deadlines.
- `Selection` holds the range check of `getOptionSelect` and the lookups by
  title that end `setRepeatTimerOnce` and `delTimer`.

The model follows the code, including behaviour that is probably unintended:

- Looking up a missing title for `CancelOnce` or `DeleteTimer` gives a nil
  receiver, which is a no-op. No "no such timer" error is returned.
- Adding a title that already exists does not stop the previous timer. It keeps
  running, unreachable from the map (`Registry.AddTickerStrandsPrevious`).
- A disposable timer that fires removes whatever entry holds its title, even one
  that belongs to a newer timer.
- The daily-repeat title prefix is `[重复}`, with a closing brace, exactly as
  written in the code.

## Model

| member | source | states |
|---|---|---|
| `Timers.NewTicker` | main.go:70-87 | A known kind gives a not-yet-started timer whose title is the kind's prefix followed by the given title. Kind, time and action are kept. Any other kind gives the zero `Timer`. |
| `Timers.TitleDeterminesKind` | main.go:72-77 | Two valid timers get the same title exactly when they were built from the same kind and the same title, because the three prefixes differ in their second character. |
| `Timers.NextTime` | main.go:96-114 | Disposable: the stored instant, whatever `now` is. Daily repeat: today at h:m:s if `now` is strictly before it, otherwise that plus one day. So the result is after `now`, at most a day later, and at the stored time of day. Interval: `now` plus the stored h:m:s as seconds, never before `now` and less than a day ahead. |
| `Timers.RepeatIsEarliest` | main.go:101-110 | The daily deadline is the earliest instant strictly after `now` whose time of day matches the timer's. |
| `Registry.Start` | main.go:116-121 | On a running timer, `Run` changes nothing. Otherwise it marks the timer running and gives it an open cancel channel. No other timer and no registry entry changes. |
| `Registry.AddTicker` | main.go:90-93 | Sets exactly the entry for the timer's title to the new timer, overwriting any previous one. Every other key and every existing timer is unchanged. The new timer is started. |
| `Registry.AddTickerKeepsGood` | main.go:90-93 | Adding a timer that is not yet running keeps the registry invariant. Each entry is keyed by its own title, and its timer is running with an open channel. |
| `Registry.AddNewTicker` | main.go:185-186 | A timer from `NewTicker` added with `AddTicker` is registered under its prefixed title. It is running, has an open channel and no pending skip, and keeps its kind, time and action. |
| `Registry.AddTickerStrandsPrevious` | main.go:90-93 | Overwriting a title leaves the previous timer reachable from no key, yet still running with an open channel. |
| `Registry.Cancel` | main.go:159-166 | A nil receiver changes nothing. Otherwise the channel becomes closed and `running` false, and nothing else changes. The channel must be open. |
| `Registry.DeleteTimer` | main.go:150-157 | A nil receiver changes nothing. Otherwise exactly the timer's title is removed from the registry, all other entries are kept, and the timer is cancelled. |
| `Registry.DeleteTimerKeepsGood` | main.go:150-157 | Deleting a timer whose channel is open keeps the registry invariant. |
| `Registry.CancelOnce` | main.go:168-174 | A nil receiver changes nothing. Otherwise only the timer's skip flag is set. |
| `Registry.CancelOnceIdempotent` | main.go:168-174 | Calling `CancelOnce` twice is the same as calling it once. |
| `Registry.ListTitles` | main.go:207-212 | The listing holds each title once and holds exactly the registered titles, or only those of daily-repeat timers. This is the filter of `setRepeatTimerOnce`; the unfiltered form is the loop of `delTimer`. |
| `Loop.Step` | main.go:122-147 | The deadline waited for is `nextTime`. Cancelled: the loop stops, nothing changes, and the action is not called. Elapsed, disposable: the action is called once, the title leaves the registry, the timer is cancelled, the loop stops, and no other timer changes. Elapsed, repeating: the loop continues and the registry is untouched. With the skip flag set, the flag is cleared and the action is not called. Without it, the action is called. |
| `Loop.DeletedTimerNeverFires` | main.go:144-146 | After `DeleteTimer`, the only event the timer can take is the cancellation, which stops the loop without calling the action. |
| `Loop.DisposableCannotFireAgain` | main.go:133-137 | After a disposable timer fires, its channel is closed, so no further deadline can be taken, and its title is gone from the registry. |
| `Loop.StepKeepsGood` | main.go:133-142 | Every iteration keeps the registry invariant. |
| `Loop.RunElapsed` | main.go:122-147 | Over `n` elapsed deadlines, the action is called at most `n` times and the heap keeps its size. |
| `Loop.Run` | main.go:116-148 | On an already running timer, `Run` does nothing and calls nothing. Otherwise the action is called at most once per deadline. |
| `Loop.RunFiresAsScheduled` | main.go:116-148 | `Run` on a timer that is not running: a disposable timer fires once and returns; a repeating timer without a pending skip fires at all `n` deadlines; with a pending skip it fires at `n - 1` of them. |
| `Loop.DisposableFiresOnce` | main.go:133-137 | However many deadlines are offered, a disposable timer calls its action exactly once, stops, and its title is absent afterwards. |
| `Loop.RepeatingFiresEveryTime` | main.go:138-142 | A repeating timer with no pending skip calls its action at every one of `n` deadlines and changes nothing. |
| `Loop.SkipSuppressesExactlyOne` | main.go:138-141 | With the skip flag set, `n` deadlines give `n - 1` calls. The flag ends cleared, and the registry and every other timer are unchanged. |
| `Loop.CancelOnceSkipsOneFiring` | main.go:168-174 | Calling `CancelOnce` on a repeating timer takes exactly one call away from the next `n` deadlines. Without it, all `n` calls happen. |
| `Selection.OptionSelect` | main.go:248-266 | An empty list gives 0. Otherwise the result is the first answer in `1..len`. "Still waiting" holds exactly when no answer so far is in range. |
| `Selection.SelectedChoiceIsUsable` | main.go:248-251 | A choice from `getOptionSelect` over a listing is 0 exactly when the listing is empty, and otherwise is a valid position. |
| `Selection.SkipNextByTitle` | main.go:221 | For a registered title, only that timer's skip flag is set. For a missing title (nil receiver), nothing changes. |
| `Selection.DeleteByTitle` | main.go:239 | For a registered title, exactly that key is removed, its timer is cancelled, no other timer or entry changes, and the invariant holds. For a missing title, nothing changes. |
| `Selection.SkipNextBySelection` | main.go:216-221 | Choice 0 gives the unknown error. Any other choice sets the skip flag of the daily-repeat timer listed at that position, and nothing else changes. |
| `Selection.DeleteBySelection` | main.go:234-239 | Choice 0 gives the unknown error. Any other choice removes exactly the listed title and cancels its timer; no other timer or entry changes, and the invariant holds. |
| `Selection.RecreateLeavesOneLiveTimer` | main.go:150-157 | Adding, deleting and re-adding a title leaves the first timer cancelled and the second live and registered. |

## Left out

- Console I/O is left out: `main`, the menu loop `mean`, `getInput`, the prompts and all printing. `getOptionSelect` keeps only its range check, with the typed lines given as already-parsed numbers.
- `setDisposableTimer` and `setRepeatTimer` are left out beyond `AddTicker(NewTicker(..))`. They only parse text with `time.Parse` and log a parse error, then go on with the zero time.
- The Go `time` library is replaced by integer seconds with 86400-second days: `time.Now` (now a parameter), `time.Date`/`AddDate` calendar normalisation, time zones and daylight saving. The zero `time.Time` is the instant 0.
- The wait at main.go:124 and main.go:130 is left out. It arms the Go timer with `time.Since(deadline)`, which is `now - deadline`. That is negative for a future deadline, so the timer fires at once. The model uses the `Elapsed` event for "the deadline passed" and does not encode this arithmetic.
- Goroutines, channels and the unsynchronised map are left out. Every operation is one atomic step.
- Loop.Step: takes the cancel branch whenever the channel is closed. Go's `select` picks at random when the deadline has also passed, so the source can still call the action once after a delete. For a disposable timer it can panic by closing the channel a second time.
- Registry.AddTicker: the goroutine is taken to start at once. In the source, a delete that arrives before `Run` has made the channel closes a nil channel and panics.
- Registry.Cancel: requires an open channel instead of modelling the panic Go raises on closing a nil or closed channel.
- The action `f` is opaque: only its identity and the number of calls are kept. A call to the nil action of the zero `Timer` would panic in Go but is counted as a call. No code path registers a zero `Timer`.

/**
 The parts of the menu that decide which timer an operation reaches: the
 range check of `getOptionSelect`, and the lookups by title in
 `setRepeatTimerOnce` and `delTimer`. Prompting and printing are left out;
 the lines typed by the user arrive already passed through `strconv.Atoi`,
 `None` standing for a line that is not a number.
 */
module Selection {
  import opened Optional
  import opened Timers
  import opened Registry

  /** An answer the prompt accepts: a number from 1 to the list length. */
  predicate InRange(answer: Option<int>, count: nat)
  {
    answer.Some? && 1 <= answer.value <= count
  }

  /** `getOptionSelect` for a list of `count` options: 0 for an empty list,
      otherwise the first accepted answer. `None` means every answer so far
      was rejected and the prompt is still waiting. */
  function OptionSelect(count: nat, answers: seq<Option<int>>): (r: Option<int>)
    ensures count == 0 ==> r == Some(0)
    ensures count > 0 && r.Some? ==> 1 <= r.value <= count
    ensures count > 0 ==>
      (r.None? <==> forall i :: 0 <= i < |answers| ==> !InRange(answers[i], count))
    ensures count > 0 && r.Some? ==>
      exists i :: 0 <= i < |answers| && answers[i] == r
                  && forall j :: 0 <= j < i ==> !InRange(answers[j], count)
  {
    if count == 0 then Some(0)
    else if answers == [] then None
    else if InRange(answers[0], count) then answers[0]
    else
      OptionSelect(count, answers[1..])
  }

  /** `timerMap[title].DeleteTimer()`: deletes the registered timer, and a
      missing title gives a nil receiver, which changes nothing. */
  function DeleteByTitle(w: World, title: string): (r: World)
    requires Good(w)
    ensures title !in w.registry ==> r == w
    ensures |r.heap| == |w.heap|
    ensures title in w.registry ==>
      && r.registry.Keys == w.registry.Keys - {title}
      && (forall k :: k in r.registry ==> r.registry[k] == w.registry[k])
      && r.heap == w.heap[w.registry[title] :=
                          w.heap[w.registry[title]].(running := false, cancel := Closed)]
    ensures Good(r)
  {
    var ref := Lookup(w, title);
    DeleteTimerKeepsGood(w, ref);
    DeleteTimer(w, ref)
  }

  /** `timerMap[title].CancelOnce()`: flags the registered timer, and a
      missing title gives a nil receiver, which changes nothing. */
  function SkipNextByTitle(w: World, title: string): (r: World)
    requires WellFormed(w)
    ensures title !in w.registry ==> r == w
    ensures title in w.registry ==>
      && OnlyTimerChanged(w, r, w.registry[title])
      && r.heap[w.registry[title]] == w.heap[w.registry[title]].(cancelOnce := true)
  {
    CancelOnce(w, Lookup(w, title))
  }

  /** The end of `setRepeatTimerOnce`: `choice` 0 (nothing to choose from)
      is an unknown error; any other choice flags the repeat timer listed at
      that position. */
  function SkipNextBySelection(w: World, ts: seq<string>, choice: int): (r: Result<World>)
    requires WellFormed(w)
    requires forall i :: 0 <= i < |ts| ==> Listed(w, true, ts[i])
    requires 0 <= choice <= |ts|
    ensures choice == 0 ==> r == Failure(Unknown)
    ensures choice > 0 ==>
      && r.Success?
      && ts[choice - 1] in w.registry
      && var h := w.registry[ts[choice - 1]];
      && w.heap[h].timeType == Repeat
      && OnlyTimerChanged(w, r.value, h)
      && r.value.heap[h] == w.heap[h].(cancelOnce := true)
  {
    if choice == 0 then Failure(Unknown)
    else
      assert Listed(w, true, ts[choice - 1]);
      Success(SkipNextByTitle(w, ts[choice - 1]))
  }

  /** The end of `delTimer`: `choice` 0 is an unknown error; any other
      choice deletes the timer listed at that position. */
  function DeleteBySelection(w: World, ts: seq<string>, choice: int): (r: Result<World>)
    requires Good(w)
    requires forall i :: 0 <= i < |ts| ==> Listed(w, false, ts[i])
    requires 0 <= choice <= |ts|
    ensures choice == 0 ==> r == Failure(Unknown)
    ensures choice > 0 ==>
      && r.Success?
      && ts[choice - 1] in w.registry
      && var h := w.registry[ts[choice - 1]];
      && r.value.registry.Keys == w.registry.Keys - {ts[choice - 1]}
      && (forall k :: k in r.value.registry ==> r.value.registry[k] == w.registry[k])
      && r.value.heap == w.heap[h := w.heap[h].(running := false, cancel := Closed)]
      && Good(r.value)
  {
    if choice == 0 then Failure(Unknown)
    else
      assert Listed(w, false, ts[choice - 1]);
      Success(DeleteByTitle(w, ts[choice - 1]))
  }

  /** Adding a title, deleting it and adding it again leaves exactly one of
      the two new timers live (channel open), and it is the registered one. */
  lemma RecreateLeavesOneLiveTimer(w: World, t1: Timer, t2: Timer)
    requires Good(w) && !t1.running && !t2.running && t1.title == t2.title
    ensures var w1 := AddTicker(w, t1);
            && Good(w1)
            && var w3 := AddTicker(DeleteByTitle(w1, t1.title), t2);
            && |w3.heap| == |w.heap| + 2
            && w3.heap[|w.heap|].cancel == Closed
            && w3.heap[|w.heap| + 1].cancel == Open
            && w3.registry[t2.title] == |w.heap| + 1
  {
  }

  /** A choice made by `getOptionSelect` over a listing is always usable by
      the code after it: 0 exactly for an empty listing, otherwise a valid
      position, so `ts[choice - 1]` never goes out of range. */
  lemma SelectedChoiceIsUsable(ts: seq<string>, answers: seq<Option<int>>)
    requires OptionSelect(|ts|, answers).Some?
    ensures var choice := OptionSelect(|ts|, answers).value;
            0 <= choice <= |ts| && (choice == 0 <==> |ts| == 0)
  {
  }
}

/** The countdown page of app.js: the rendered fields, the input box, the
    status message, the stored target and the timer, with the operations
    `updateUI`, `tick`, `start`, the save and reset click handlers and page
    load. The clock reading `now` and the date parser are parameters. */
module Countdown {
  import opened Options
  import opened Decimal
  import opened Format
  import opened Duration
  import opened TargetStore
  import opened Scheduler

  /** A parsed date: its millisecond value (`getTime`) and its local-time
      calendar components. */
  datatype Moment = Moment(ms: int, cal: Calendar)

  /** `new Date(s)` followed by the `NaN` check of `parseISOToDate`: `None`
      for a string the browser cannot read as a date. */
  type Parser = string -> Option<Moment>

  /** The status line, by kind rather than by its exact text. */
  datatype Message =
    | Blank            // cleared while counting down
    | TimeUp           // the target has been reached
    | BadStoredTarget  // the stored target does not parse
    | InvalidInput     // the typed target does not parse
    | Applied          // a new target was saved
    | ResetDone        // the default target was restored

  datatype Page = Page(
    slot: Slot,
    days: string,
    hours: string,
    minutes: string,
    seconds: string,
    targetText: string,
    input: string,
    message: Message,
    timers: Timers)

  /** Reads the four duration fields back as numbers. */
  function ReadDisplay(p: Page): Option<Parts> {
    match (ParseInt(p.days), ParseInt(p.hours), ParseInt(p.minutes), ParseInt(p.seconds))
    case (Some(d), Some(h), Some(m), Some(s)) => Some(Parts(d, h, m, s))
    case _ => None
  }

  /** app.js `updateUI`: a non-positive difference shows zeros and the
      completion message; a positive one shows its decomposition and clears
      the message. Nothing outside the four fields and the message changes. */
  function UpdateUI(p: Page, diffMs: int): (r: Page)
    ensures r.slot == p.slot && r.input == p.input && r.targetText == p.targetText
    ensures r.timers == p.timers
    ensures diffMs <= 0 ==> r.days == r.hours == r.minutes == r.seconds == "0"
    ensures r.message == (if diffMs <= 0 then TimeUp else Blank)
    ensures diffMs > 0 ==> ReadDisplay(r) == Some(Decompose(diffMs))
    ensures diffMs > 0 ==>
              Canonical(r.days) && Canonical(r.hours) && Canonical(r.minutes) && Canonical(r.seconds)
    ensures diffMs < 1000 ==> r.days == "0" && r.hours == "0" && r.minutes == "0" && r.seconds == "0"
  {
    if diffMs <= 0 then
      p.(days := "0", hours := "0", minutes := "0", seconds := "0", message := TimeUp)
    else
      var parts := Decompose(diffMs);
      assert diffMs < 1000 ==> parts == Parts(0, 0, 0, 0) by {
        if diffMs < 1000 { DecomposeUnderASecond(diffMs); }
      }
      IntRoundTrip(parts.days);
      IntRoundTrip(parts.hours);
      IntRoundTrip(parts.minutes);
      IntRoundTrip(parts.seconds);
      p.(days := IntToString(parts.days), hours := IntToString(parts.hours),
         minutes := IntToString(parts.minutes), seconds := IntToString(parts.seconds),
         message := Blank)
  }

  /** For a positive difference the fields read back to in-range numbers that
      reconstruct the whole seconds remaining. */
  lemma UpdateUIReadsBack(p: Page, diffMs: int)
    requires diffMs > 0
    ensures ReadDisplay(UpdateUI(p, diffMs)).Some?
    ensures InRange(ReadDisplay(UpdateUI(p, diffMs)).value)
    ensures Compose(ReadDisplay(UpdateUI(p, diffMs)).value) == diffMs / 1000
  {
  }

  /** app.js `tick`: read the stored target (or the default); if it does not
      parse, only the message changes; otherwise show the target and update
      the duration fields for `target - now`. */
  function Tick(p: Page, parse: Parser, now: int): (r: Page)
    ensures r.slot == p.slot && r.input == p.input && r.timers == p.timers
    ensures parse(GetSaved(p.slot)).None? ==>
              r.message == BadStoredTarget
              && r.days == p.days && r.hours == p.hours
              && r.minutes == p.minutes && r.seconds == p.seconds
              && r.targetText == p.targetText
    ensures parse(GetSaved(p.slot)).Some? ==>
              r.targetText == FormatLocal(parse(GetSaved(p.slot)).value.cal)
              && (r.message == TimeUp <==> parse(GetSaved(p.slot)).value.ms <= now)
              && (r.message == Blank <==> parse(GetSaved(p.slot)).value.ms > now)
    ensures parse(GetSaved(p.slot)).Some? && parse(GetSaved(p.slot)).value.ms > now ==>
              ReadDisplay(r) == Some(Decompose(parse(GetSaved(p.slot)).value.ms - now))
    ensures parse(GetSaved(p.slot)).Some? && parse(GetSaved(p.slot)).value.ms > now ==>
              Canonical(r.days) && Canonical(r.hours) && Canonical(r.minutes) && Canonical(r.seconds)
  {
    Render(p, parse(GetSaved(p.slot)), now)
  }

  /** The body of `tick` once the stored target has been parsed. */
  function Render(p: Page, target: Option<Moment>, now: int): (r: Page)
    ensures r.slot == p.slot && r.input == p.input && r.timers == p.timers
  {
    match target
    case None => p.(message := BadStoredTarget)
    case Some(t) => UpdateUI(p.(targetText := FormatLocal(t.cal)), t.ms - now)
  }

  /** A corrupted stored target changes the status message and nothing else:
      the duration fields and the target text keep what they showed. */
  lemma TickUnparsableOnlyMessage(p: Page, parse: Parser, now: int)
    requires parse(GetSaved(p.slot)).None?
    ensures Tick(p, parse, now) == p.(message := BadStoredTarget)
  {
  }

  /** A tick always writes the status message, whatever it said before. */
  lemma TickOverwritesMessage(p: Page, parse: Parser, now: int)
    ensures Tick(p, parse, now).message in {Blank, TimeUp, BadStoredTarget}
  {
  }

  /** At or after the deadline every field shows zero with the completion
      message, and the page no longer depends on the clock. */
  lemma TickAfterDeadline(p: Page, parse: Parser, now1: int, now2: int)
    requires parse(GetSaved(p.slot)).Some?
    requires now1 >= parse(GetSaved(p.slot)).value.ms
    requires now2 >= parse(GetSaved(p.slot)).value.ms
    ensures Tick(p, parse, now1).days == "0" && Tick(p, parse, now1).hours == "0"
    ensures Tick(p, parse, now1).minutes == "0" && Tick(p, parse, now1).seconds == "0"
    ensures Tick(p, parse, now1).message == TimeUp
    ensures Tick(p, parse, now1) == Tick(p, parse, now2)
  {
  }

  /** Before the deadline the fields read back to the exact whole seconds
      remaining. */
  lemma TickBeforeDeadline(p: Page, parse: Parser, now: int)
    requires parse(GetSaved(p.slot)).Some?
    requires now < parse(GetSaved(p.slot)).value.ms
    ensures ReadDisplay(Tick(p, parse, now)).Some?
    ensures Compose(ReadDisplay(Tick(p, parse, now)).value)
            == (parse(GetSaved(p.slot)).value.ms - now) / 1000
  {
  }

  /** In the last second before the deadline the fields already show zeros,
      but the completion message is not shown yet. */
  lemma LastSecondShowsZeros(p: Page, parse: Parser, now: int)
    requires parse(GetSaved(p.slot)).Some?
    requires now < parse(GetSaved(p.slot)).value.ms < now + 1000
    ensures Tick(p, parse, now).days == "0" && Tick(p, parse, now).hours == "0"
    ensures Tick(p, parse, now).minutes == "0" && Tick(p, parse, now).seconds == "0"
    ensures Tick(p, parse, now).message == Blank
  {
    RenderUnderASecond(p, parse(GetSaved(p.slot)), now);
  }

  lemma RenderUnderASecond(p: Page, target: Option<Moment>, now: int)
    requires target.Some? && now < target.value.ms < now + 1000
    ensures Render(p, target, now).days == "0" && Render(p, target, now).hours == "0"
    ensures Render(p, target, now).minutes == "0" && Render(p, target, now).seconds == "0"
    ensures Render(p, target, now).message == Blank
  {
  }

  /** Ticking twice at the same instant is ticking once. */
  lemma TickIdempotent(p: Page, parse: Parser, now: int)
    ensures Tick(Tick(p, parse, now), parse, now) == Tick(p, parse, now)
  {
    RenderIdempotent(p, parse(GetSaved(p.slot)), now);
  }

  lemma RenderIdempotent(p: Page, target: Option<Moment>, now: int)
    ensures Render(Render(p, target, now), target, now) == Render(p, target, now)
  {
  }

  /** A tick with a parsable target overwrites every displayed field and the
      message, so the page no longer depends on what was shown before. */
  lemma TickForgetsDisplay(p: Page, q: Page, parse: Parser, now: int)
    requires parse(GetSaved(p.slot)).Some?
    requires p.slot == q.slot && p.input == q.input && p.timers == q.timers
    ensures Tick(p, parse, now) == Tick(q, parse, now)
  {
    RenderForgetsDisplay(p, q, parse(GetSaved(p.slot)), now);
  }

  lemma RenderForgetsDisplay(p: Page, q: Page, target: Option<Moment>, now: int)
    requires target.Some?
    requires p.slot == q.slot && p.input == q.input && p.timers == q.timers
    ensures Render(p, target, now) == Render(q, target, now)
  {
  }

  /** app.js `start`: stop the remembered interval, tick once at once, then
      install a new one-second interval running `tick`. */
  function Start(p: Page, parse: Parser, now: int): (r: Page)
    ensures r.slot == p.slot && r.input == p.input
    ensures r.timers.timerId == Some(p.timers.next)
    ensures Consistent(p.timers) ==> Consistent(r.timers) && r.timers.active == {p.timers.next}
    ensures p.timers.timerId.Some? && Consistent(p.timers) ==>
              p.timers.timerId.value !in r.timers.active
  {
    Tick(p.(timers := Restart(p.timers)), parse, now)
  }

  /** The display part of a tick does not look at the timers. */
  lemma TickIgnoresTimers(p: Page, parse: Parser, now: int, t: Timers)
    ensures Tick(p.(timers := t), parse, now) == Tick(p, parse, now).(timers := t)
  {
    RenderIgnoresTimers(p, parse(GetSaved(p.slot)), now, t);
  }

  lemma RenderIgnoresTimers(p: Page, target: Option<Moment>, now: int, t: Timers)
    ensures Render(p.(timers := t), target, now) == Render(p, target, now).(timers := t)
  {
  }

  /** A tick never reads the status message: it always writes it. */
  lemma TickForgetsMessage(p: Page, parse: Parser, now: int, m: Message)
    ensures Tick(p.(message := m), parse, now) == Tick(p, parse, now)
  {
    RenderForgetsMessage(p, parse(GetSaved(p.slot)), now, m);
  }

  lemma RenderForgetsMessage(p: Page, target: Option<Moment>, now: int, m: Message)
    ensures Render(p.(message := m), target, now) == Render(p, target, now)
  {
  }

  /** Apart from the timers, starting shows exactly what one tick shows. */
  lemma StartTicksOnce(p: Page, parse: Parser, now: int)
    ensures Start(p, parse, now).(timers := p.timers) == Tick(p, parse, now)
  {
    TickIgnoresTimers(p, parse, now, Restart(p.timers));
    TickIgnoresTimers(p.(timers := Restart(p.timers)), parse, now, p.timers);
  }

  /** Starting twice in succession leaves exactly one running interval. */
  lemma StartTwiceSingleTimer(p: Page, parse: Parser, now1: int, now2: int)
    requires Consistent(p.timers)
    ensures |Start(Start(p, parse, now1), parse, now2).timers.active| == 1
  {
    RestartTwiceSingle(p.timers);
  }

  /** One firing of interval `h`: a tick if it is running, nothing otherwise. */
  function Fire(p: Page, parse: Parser, h: int, now: int): (r: Page)
    ensures h !in p.timers.active ==> r == p
    ensures h in p.timers.active ==> r == Tick(p, parse, now)
    ensures r.slot == p.slot && r.input == p.input && r.timers == p.timers
  {
    if h in p.timers.active then Tick(p, parse, now) else p
  }

  /** The save button as written: an unparsable input only sets the invalid
      message; a parsable one is stored, the success message is set, and the
      countdown restarts. */
  function SaveClick(p: Page, parse: Parser, now: int): (r: Page)
    ensures parse(p.input).None? ==> r == p.(message := InvalidInput)
    ensures parse(p.input).Some? ==> r.slot == Some(p.input) && r.timers == Restart(p.timers)
    ensures parse(p.input).Some? ==>
              r == Tick(p.(slot := Some(p.input)), parse, now).(timers := Restart(p.timers))
    ensures r.input == p.input
  {
    if parse(p.input).None? then p.(message := InvalidInput)
    else
      var stored := p.(slot := SetSaved(p.slot, p.input));
      TickIgnoresTimers(stored.(message := Applied), parse, now, Restart(p.timers));
      TickForgetsMessage(stored, parse, now, Applied);
      Start(stored.(message := Applied), parse, now)
  }

  /** The success message of the save button never survives the click: the
      tick inside `start` overwrites it before the page is drawn. */
  lemma SaveClickLosesMessage(p: Page, parse: Parser, now: int)
    requires parse(p.input).Some?
    ensures SaveClick(p, parse, now).message != Applied
  {
  }

  /** The save button as evidently intended: the same, but the success message
      is set after the restart so that it is what the page shows. */
  function SaveClickFixed(p: Page, parse: Parser, now: int): (r: Page)
    ensures parse(p.input).None? ==> r == p.(message := InvalidInput)
    ensures parse(p.input).Some? ==> r.slot == Some(p.input) && r.message == Applied
    ensures parse(p.input).Some? ==> r.timers == Restart(p.timers)
    ensures parse(p.input).Some? ==> r == SaveClick(p, parse, now).(message := Applied)
    ensures r.input == p.input
  {
    if parse(p.input).None? then p.(message := InvalidInput)
    else Start(p.(slot := SetSaved(p.slot, p.input)), parse, now).(message := Applied)
  }

  /** A rejected input leaves the stored target, and everything but the
      message, as it was. */
  lemma SaveRejectsInvalid(p: Page, parse: Parser, now: int)
    requires parse(p.input).None?
    ensures SaveClick(p, parse, now).slot == p.slot
    ensures GetSaved(SaveClick(p, parse, now).slot) == GetSaved(p.slot)
    ensures SaveClick(p, parse, now).message == InvalidInput
    ensures SaveClick(p, parse, now).timers == p.timers
  {
  }

  /** An accepted input is what later reads return, and the countdown then
      shows the moment it parses to, under a single running interval. */
  lemma SaveThenRead(p: Page, parse: Parser, now: int)
    requires parse(p.input).Some? && p.input != ""
    requires Consistent(p.timers)
    ensures GetSaved(SaveClick(p, parse, now).slot) == p.input
    ensures SaveClick(p, parse, now).targetText == FormatLocal(parse(p.input).value.cal)
    ensures |SaveClick(p, parse, now).timers.active| == 1
  {
  }

  /** The reset button as written: store the default and put it in the input
      box, set the reset message, and restart the countdown. */
  function ResetClick(p: Page, parse: Parser, now: int): (r: Page)
    ensures r.slot == Some(DefaultTarget) && r.input == DefaultTarget
    ensures GetSaved(r.slot) == DefaultTarget
    ensures r.timers == Restart(p.timers)
    ensures r == Tick(p.(slot := Some(DefaultTarget), input := DefaultTarget), parse, now)
                   .(timers := Restart(p.timers))
  {
    var stored := p.(slot := SetSaved(p.slot, DefaultTarget), input := DefaultTarget);
    TickIgnoresTimers(stored.(message := ResetDone), parse, now, Restart(p.timers));
    TickForgetsMessage(stored, parse, now, ResetDone);
    Start(stored.(message := ResetDone), parse, now)
  }

  /** Like the save message, the reset message is overwritten at once. */
  lemma ResetClickLosesMessage(p: Page, parse: Parser, now: int)
    ensures ResetClick(p, parse, now).message != ResetDone
  {
  }

  /** The reset button as evidently intended: the reset message is set after
      the restart. */
  function ResetClickFixed(p: Page, parse: Parser, now: int): (r: Page)
    ensures r.slot == Some(DefaultTarget) && r.input == DefaultTarget
    ensures GetSaved(r.slot) == DefaultTarget
    ensures r.timers == Restart(p.timers)
    ensures r.message == ResetDone
    ensures r == ResetClick(p, parse, now).(message := ResetDone)
  {
    Start(p.(slot := SetSaved(p.slot, DefaultTarget), input := DefaultTarget), parse, now)
      .(message := ResetDone)
  }

  /** Whatever the page held before, reset gives the same stored target,
      input, display and timers shape. */
  lemma ResetForgetsPrevious(p: Page, q: Page, parse: Parser, now: int)
    ensures ResetClick(p, parse, now).slot == ResetClick(q, parse, now).slot
    ensures ResetClick(p, parse, now).input == ResetClick(q, parse, now).input
    ensures parse(DefaultTarget).Some? && p.timers == q.timers ==>
              ResetClick(p, parse, now) == ResetClick(q, parse, now)
  {
  }

  /** Page load: `initControls` fills the input box from the store, then
      `start` runs. */
  function Load(p: Page, parse: Parser, now: int): (r: Page)
    ensures r.input == GetSaved(p.slot) && r.slot == p.slot
    ensures Consistent(p.timers) ==> Consistent(r.timers) && |r.timers.active| == 1
    ensures r == Tick(p.(input := GetSaved(p.slot)), parse, now).(timers := Restart(p.timers))
  {
    TickIgnoresTimers(p.(input := GetSaved(p.slot)), parse, now, Restart(p.timers));
    Start(p.(input := GetSaved(p.slot)), parse, now)
  }

  /** What can happen to a loaded page: the user edits the input box or
      clicks a button, or the running interval fires. */
  datatype Event =
    | Edit(text: string)
    | Save(now: int)
    | Reset(now: int)
    | Timer(handle: int, now: int)

  /** One event delivered to its handler: the click listeners of the save
      and reset buttons (app.js:101, 113), the interval's call of `tick`
      (app.js:94), and typing, which only changes the input box. */
  function Step(p: Page, parse: Parser, e: Event): Page {
    match e
    case Edit(text) => p.(input := text)
    case Save(now) => SaveClick(p, parse, now)
    case Reset(now) => ResetClick(p, parse, now)
    case Timer(h, now) => Fire(p, parse, h, now)
  }

  /** The events delivered one after another, in order. */
  function Run(p: Page, parse: Parser, events: seq<Event>): Page
    decreases |events|
  {
    if |events| == 0 then p else Run(Step(p, parse, events[0]), parse, events[1..])
  }

  /** However the page is used, at most one interval runs, and once one has
      been started exactly one does. */
  lemma {:induction false} RunSingleTimer(p: Page, parse: Parser, events: seq<Event>)
    requires Consistent(p.timers)
    ensures Consistent(Run(p, parse, events).timers)
    ensures |Run(p, parse, events).timers.active| <= 1
    ensures p.timers.timerId.Some? ==> |Run(p, parse, events).timers.active| == 1
    decreases |events|
  {
    if |events| > 0 {
      var q := Step(p, parse, events[0]);
      assert Consistent(q.timers);
      assert p.timers.timerId.Some? ==> q.timers.timerId.Some?;
      RunSingleTimer(q, parse, events[1..]);
    }
  }

  /** A usable stored target stays usable: invalid input is never stored, and
      the default it may fall back to parses. So the bad-target message, once
      gone, never comes back. */
  lemma {:induction false} RunKeepsTargetUsable(p: Page, parse: Parser, events: seq<Event>)
    requires parse(DefaultTarget).Some?
    requires parse(GetSaved(p.slot)).Some?
    ensures parse(GetSaved(Run(p, parse, events).slot)).Some?
    ensures p.message != BadStoredTarget ==> Run(p, parse, events).message != BadStoredTarget
    decreases |events|
  {
    if |events| > 0 {
      var q := Step(p, parse, events[0]);
      StepKeepsTargetUsable(p, parse, events[0]);
      RunKeepsTargetUsable(q, parse, events[1..]);
    }
  }

  lemma StepKeepsTargetUsable(p: Page, parse: Parser, e: Event)
    requires parse(DefaultTarget).Some?
    requires parse(GetSaved(p.slot)).Some?
    ensures parse(GetSaved(Step(p, parse, e).slot)).Some?
    ensures p.message != BadStoredTarget ==> Step(p, parse, e).message != BadStoredTarget
  {
    match e
    case Edit(text) =>
    case Save(now) => SaveKeepsTargetUsable(p, parse, now);
    case Reset(now) => ResetKeepsTargetUsable(p, parse, now);
    case Timer(h, now) => FireKeepsTargetUsable(p, parse, h, now);
  }

  lemma SaveKeepsTargetUsable(p: Page, parse: Parser, now: int)
    requires parse(DefaultTarget).Some?
    requires parse(GetSaved(p.slot)).Some?
    ensures parse(GetSaved(SaveClick(p, parse, now).slot)).Some?
    ensures p.message != BadStoredTarget ==> SaveClick(p, parse, now).message != BadStoredTarget
  {
    if parse(p.input).Some? {
      TickShowsUsableTarget(p.(slot := Some(p.input)), parse, now);
    }
  }

  lemma ResetKeepsTargetUsable(p: Page, parse: Parser, now: int)
    requires parse(DefaultTarget).Some?
    ensures parse(GetSaved(ResetClick(p, parse, now).slot)).Some?
    ensures ResetClick(p, parse, now).message != BadStoredTarget
  {
    TickShowsUsableTarget(p.(slot := Some(DefaultTarget), input := DefaultTarget), parse, now);
  }

  lemma FireKeepsTargetUsable(p: Page, parse: Parser, h: int, now: int)
    requires parse(GetSaved(p.slot)).Some?
    ensures Fire(p, parse, h, now).slot == p.slot
    ensures p.message != BadStoredTarget ==> Fire(p, parse, h, now).message != BadStoredTarget
  {
    if h in p.timers.active {
      TickShowsUsableTarget(p, parse, now);
    }
  }

  /** A tick over a stored target that parses never reports a bad target. */
  lemma TickShowsUsableTarget(p: Page, parse: Parser, now: int)
    requires parse(GetSaved(p.slot)).Some?
    ensures Tick(p, parse, now).slot == p.slot
    ensures Tick(p, parse, now).message != BadStoredTarget
  {
  }

  /** From page load on, with a default and a stored target that parse, the
      page runs exactly one interval and never reports a bad stored target. */
  lemma LoadedPageHealthy(p: Page, parse: Parser, now: int, events: seq<Event>)
    requires p.timers == NoTimers
    requires parse(DefaultTarget).Some?
    requires parse(GetSaved(p.slot)).Some?
    ensures |Run(Load(p, parse, now), parse, events).timers.active| == 1
    ensures Run(Load(p, parse, now), parse, events).message != BadStoredTarget
  {
    var loaded := Load(p, parse, now);
    assert Consistent(loaded.timers) && loaded.timers.timerId.Some?;
    assert loaded.slot == p.slot;
    assert loaded.message != BadStoredTarget;
    RunSingleTimer(loaded, parse, events);
    RunKeepsTargetUsable(loaded, parse, events);
  }
}

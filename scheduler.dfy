/** The reminder's state machine as values: `setWasteType`, `scheduleAutoHide`,
    the hide timer's callback, `processCalendarEvents` and `stop`, each a step
    from one state to the next. The class in module Reminder is proved against
    these steps. */
module Scheduler {
  import opened Wrappers
  import opened Text
  import opened Time
  import opened Keywords
  import opened HideTime
  import opened Config
  import opened Calendar
  import opened View

  /** `currentWasteType` and `hideTimer` (a timer handle), together with the
      host's one-shot timers still pending (handle -> deadline in ms) and the
      handle the host will give to the next `setTimeout`. */
  datatype State = State(
    current: Option<string>,
    hideTimer: Option<nat>,
    timers: map<nat, int>,
    nextHandle: nat)

  /** Both fields null and no timer pending, as after `start`. */
  function Initial(): State {
    State(None, None, map[], 1)
  }

  /** Every pending timer is the one `hideTimer` refers to, and that handle was
      given out by the host (the next `setTimeout` gets a different one). */
  ghost predicate Inv(s: State) {
    && (forall h :: h in s.timers ==> s.hideTimer == Some(h))
    && (s.hideTimer.Some? ==> s.hideTimer.value < s.nextHandle)
  }

  /** Under the invariant at most one timer is pending. */
  lemma InvAtMostOneTimer(s: State)
    requires Inv(s)
    ensures |s.timers| <= 1
  {
    if s.hideTimer.Some? {
      var h := s.hideTimer.value;
      assert s.timers.Keys <= {h};
      if h in s.timers {
        assert s.timers.Keys == {h};
      } else {
        assert s.timers.Keys == {};
      }
    } else {
      assert s.timers.Keys == {};
    }
  }

  /** The first statement of `setWasteType`: cancel the timer `hideTimer` refers to
      and null the field. */
  function ClearHide(s: State): (r: State)
    ensures r.hideTimer == None && r.current == s.current && r.nextHandle == s.nextHandle
    ensures Inv(s) ==> r.timers == map[]
    ensures s.hideTimer.Some? ==> s.hideTimer.value !in r.timers
  {
    if s.hideTimer.Some? then s.(timers := s.timers - {s.hideTimer.value}, hideTimer := None) else s
  }

  /** The deadline `setWasteType(w)` arms a timer for: one exists when `w` is not
      "off", `autoHideNextDayAt` is truthy and it parses. */
  function HideDeadline(c: Config, w: string, now: int): (d: Option<int>)
    ensures d.Some? <==> w != "off" && HideConfigured(c) && ParseClock(c.autoHideNextDayAt.value).Some?
    ensures d.Some? ==> now < d.value
  {
    if w != "off" && HideConfigured(c) then ScheduleHide(c.autoHideNextDayAt.value, now) else None
  }

  /** `scheduleAutoHide`: arm one timer at the scheduled instant, or nothing when
      the setting does not parse. */
  function ArmHide(c: Config, s: State, now: int): (r: State)
    requires HideConfigured(c)
    ensures r.current == s.current
    ensures ScheduleHide(c.autoHideNextDayAt.value, now).None? ==> r == s
    ensures ScheduleHide(c.autoHideNextDayAt.value, now).Some? ==>
      && r.hideTimer == Some(s.nextHandle)
      && r.timers == s.timers[s.nextHandle := ScheduleHide(c.autoHideNextDayAt.value, now).value]
      && r.nextHandle > s.nextHandle
    ensures s.hideTimer == None && s.timers == map[] ==> Inv(r)
  {
    match ScheduleHide(c.autoHideNextDayAt.value, now)
    case None => s
    case Some(deadline) =>
      s.(hideTimer := Some(s.nextHandle), timers := s.timers[s.nextHandle := deadline],
         nextHandle := s.nextHandle + 1)
  }

  /** `setWasteType(w)` at time `now`. */
  function SetStep(c: Config, s: State, w: string, now: int): (r: State)
    ensures r.current == Some(w)
    ensures Inv(s) && s.hideTimer.Some? ==> s.hideTimer.value !in r.timers
    ensures Inv(s) ==> Inv(r)
    ensures Inv(s) ==> match HideDeadline(c, w, now)
                       case None => r.hideTimer == None && r.timers == map[]
                       case Some(d) => r.hideTimer.Some? && r.timers == map[r.hideTimer.value := d]
  {
    var updated := ClearHide(s).(current := Some(w));
    if w != "off" && HideConfigured(c) then ArmHide(c, updated, now) else updated
  }

  /** Setting the same waste type twice in a row leaves that type and one timer
      for the same instant, never two. */
  lemma SetTwiceArmsOnce(c: Config, s: State, w: string, now: int)
    requires Inv(s)
    ensures var once, twice := SetStep(c, s, w, now), SetStep(c, SetStep(c, s, w, now), w, now);
      && twice.current == Some(w)
      && |twice.timers| == |once.timers| <= 1
      && twice.timers.Values == once.timers.Values
  {
    var once := SetStep(c, s, w, now);
    var twice := SetStep(c, once, w, now);
    if once.hideTimer.Some? {
      assert once.timers.Values == {HideDeadline(c, w, now).value};
      assert twice.timers.Values == {HideDeadline(c, w, now).value};
    }
  }

  /** The pending hide timer has reached its deadline. */
  predicate Due(s: State, now: int) {
    s.hideTimer.Some? && s.hideTimer.value in s.timers && s.timers[s.hideTimer.value] <= now
  }

  /** The host runs the due hide timer: it leaves the pending set and its
      callback calls `setWasteType("off")`. Nothing happens before the deadline. */
  function FireStep(c: Config, s: State, now: int): (r: State)
    ensures !Due(s, now) ==> r == s
    ensures Due(s, now) ==> r.current == Some("off") && r.hideTimer == None
                            && s.hideTimer.value !in r.timers && Render(r.current, c) == Empty
    ensures Inv(s) ==> Inv(r)
    ensures Inv(s) && Due(s, now) ==> r.timers == map[]
  {
    if Due(s, now) then SetStep(c, s.(timers := s.timers - {s.hideTimer.value}), "off", now) else s
  }

  /** `stop`: cancel the timer `hideTimer` refers to (the field keeps its value). */
  function StopStep(s: State): (r: State)
    ensures r.current == s.current && r.hideTimer == s.hideTimer
    ensures Inv(s) ==> Inv(r) && r.timers == map[]
  {
    if s.hideTimer.Some? then s.(timers := s.timers - {s.hideTimer.value}) else s
  }

  /** After `stop` the hide timer never fires. */
  lemma StoppedNeverFires(c: Config, s: State, now: int)
    requires Inv(s)
    ensures FireStep(c, StopStep(s), now) == StopStep(s)
  {
  }

  /** `processCalendarEvents(events)` at time `now`. */
  function CalendarStep(c: Config, s: State, events: seq<CalendarEvent>, now: int): (r: State)
    ensures !c.calendarEnabled ==> r == s
    ensures c.calendarEnabled ==>
              (forall i: nat :: IsFirstTrigger(c.calendarKeywords, events, now, c.calendarTriggerBefore, i)
                 ==> r == SetStep(c, s, EventWasteType(c.calendarKeywords, events[i]).value, now))
    ensures (forall i :: 0 <= i < |events| ==> !Triggers(c.calendarKeywords, events[i], now, c.calendarTriggerBefore)) ==> r == s
    ensures r == s || exists i :: 0 <= i < |events|
                        && IsFirstTrigger(c.calendarKeywords, events, now, c.calendarTriggerBefore, i)
                        && r == SetStep(c, s, EventWasteType(c.calendarKeywords, events[i]).value, now)
    ensures Inv(s) ==> Inv(r)
  {
    if !c.calendarEnabled then s
    else
      SelectIsFirstTrigger(c.calendarKeywords, events, now, c.calendarTriggerBefore);
      match SelectWasteType(c.calendarKeywords, events, now, c.calendarTriggerBefore)
      case None => s
      case Some(w) => SetStep(c, s, w, now)
  }

  /** A callback the host delivers to the module. */
  datatype Callback =
    | SetType(wasteType: string, at: int)
    | CalendarEvents(events: seq<CalendarEvent>, at: int)
    | TimerDue(at: int)
    | Stop

  function Apply(c: Config, s: State, cb: Callback): State {
    match cb
    case SetType(w, at) => SetStep(c, s, w, at)
    case CalendarEvents(events, at) => CalendarStep(c, s, events, at)
    case TimerDue(at) => FireStep(c, s, at)
    case Stop => StopStep(s)
  }

  function Run(c: Config, s: State, cbs: seq<Callback>): State
    decreases |cbs|
  {
    if cbs == [] then s else Run(c, Apply(c, s, cbs[0]), cbs[1..])
  }

  /** Whatever callbacks arrive, in whatever order, at most one hide timer is ever
      pending, and it is the one `hideTimer` refers to. */
  lemma {:induction false} RunKeepsOneTimer(c: Config, s: State, cbs: seq<Callback>)
    requires Inv(s)
    ensures Inv(Run(c, s, cbs)) && |Run(c, s, cbs).timers| <= 1
    decreases |cbs|
  {
    if cbs == [] {
      InvAtMostOneTimer(s);
    } else {
      RunKeepsOneTimer(c, Apply(c, s, cbs[0]), cbs[1..]);
    }
  }

  /** With the default configuration, a "Gelbe Tonne" event two hours ahead
      selects "wasteYellow", shows the yellow icon without a label and arms the
      10:00 auto-hide. */
  lemma DefaultYellowScenario(s: State, now: int)
    requires Inv(s)
    ensures var r := CalendarStep(Defaults(), s, [CalendarEvent(Some("Gelbe Tonne"), now + 2 * HourMs)], now);
      && r.current == Some("wasteYellow")
      && Render(r.current, Defaults()) == Payload("images/yellow.png", None)
      && |r.timers| == 1
  {
    var c := Defaults();
    var e := CalendarEvent(Some("Gelbe Tonne"), now + 2 * HourMs);
    DefaultSelectsYellow(e, now);
    var r := CalendarStep(c, s, [e], now);
    assert r == SetStep(c, s, "wasteYellow", now);
    DefaultHideParses();
    assert HideDeadline(c, "wasteYellow", now).Some?;
    DefaultRendersYellow();
  }

  lemma DefaultSelectsYellow(e: CalendarEvent, now: int)
    requires e == CalendarEvent(Some("Gelbe Tonne"), now + 2 * HourMs)
    ensures SelectWasteType(Defaults().calendarKeywords, [e], now, Defaults().calendarTriggerBefore) == Some("wasteYellow")
  {
    assert EventWasteType(DefaultKeywords, e) == Some("wasteYellow") by {
      GelbeTonneIsYellow();
    }
    assert InWindow(e, now, 18);
    assert Triggers(DefaultKeywords, e, now, 18);
    assert [e][0] == e;
  }

  lemma DefaultRendersYellow()
    ensures Render(Some("wasteYellow"), Defaults()) == Payload("images/yellow.png", None)
  {
    assert DefaultWasteTypes["wasteYellow"].icon == "images/yellow.png";
  }

  lemma GelbeTonneIsYellow()
    ensures MatchWasteType(Defaults().calendarKeywords, Some("Gelbe Tonne")) == Some("wasteYellow")
  {
    var lowered := "gelbe tonne";
    assert MatchWasteType(DefaultKeywords, Some("Gelbe Tonne"))
        == FirstKeywordMatch(DefaultKeywords, lowered) by {
      GelbeTonneLowered();
    }
    assert DefaultKeywords[0] == (lowered, "wasteYellow");
    assert Contains(lowered, lowered) by {
      assert lowered[0..|lowered|] == lowered;
      assert OccursAt(lowered, lowered, 0);
    }
  }

  lemma GelbeTonneLowered()
    ensures ToLower("Gelbe Tonne") == "gelbe tonne"
  {
    var title := "Gelbe Tonne";
    var lowered := ToLower(title);
    assert title[0] == 'G' && title[6] == 'T';
    assert lowered[0] == 'g' && lowered[6] == 't';
    assert lowered[1] == 'e' && lowered[2] == 'l' && lowered[3] == 'b' && lowered[4] == 'e';
    assert lowered[5] == ' ' && lowered[7] == 'o' && lowered[8] == 'n' && lowered[9] == 'n';
    assert lowered[10] == 'e';
  }

  lemma DefaultHideParses()
    ensures HideConfigured(Defaults()) && ParseClock(Defaults().autoHideNextDayAt.value).Some?
  {
    assert ClockShape("10:00");
  }
}

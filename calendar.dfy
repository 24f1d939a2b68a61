/** The calendar event selector of `processCalendarEvents`: the first event, in
    list order, that starts inside the trigger window and whose title matches. */
module Calendar {
  import opened Wrappers
  import opened Time
  import opened Keywords

  /** An entry of the `CALENDAR_EVENTS` payload; `startDate` in milliseconds. */
  datatype CalendarEvent = CalendarEvent(title: Option<string>, startDate: int)

  /** The end of the trigger window: `triggerBefore` hours after `now`. */
  function TriggerTime(now: int, triggerBefore: int): int {
    now + triggerBefore * HourMs
  }

  /** The event starts inside `[now, TriggerTime(now, triggerBefore)]`, both ends included. */
  predicate InWindow(e: CalendarEvent, now: int, triggerBefore: int) {
    now <= e.startDate <= TriggerTime(now, triggerBefore)
  }

  /** The waste type an event's title maps to, when that value is truthy
      (`if (wasteType)` skips a null or empty mapping). */
  function EventWasteType(table: KeywordTable, e: CalendarEvent): Option<string> {
    var m := MatchWasteType(table, e.title);
    if m.Some? && m.value != "" then m else None
  }

  /** The event is in the window and its title yields a waste type. */
  predicate Triggers(table: KeywordTable, e: CalendarEvent, now: int, triggerBefore: int) {
    InWindow(e, now, triggerBefore) && EventWasteType(table, e).Some?
  }

  /** The waste type the scan applies, if any event triggers. */
  function SelectWasteType(table: KeywordTable, events: seq<CalendarEvent>, now: int, triggerBefore: int)
    : (r: Option<string>)
    ensures r.Some? ==> r.value != ""
    ensures r.Some? ==> exists i :: 0 <= i < |events| && InWindow(events[i], now, triggerBefore)
                                  && EventWasteType(table, events[i]) == r
  {
    if events == [] then None
    else if Triggers(table, events[0], now, triggerBefore) then EventWasteType(table, events[0])
    else SelectWasteType(table, events[1..], now, triggerBefore)
  }

  /** Event `i` is the first event of the list that triggers. */
  ghost predicate IsFirstTrigger(table: KeywordTable, events: seq<CalendarEvent>, now: int, triggerBefore: int, i: nat) {
    && i < |events|
    && Triggers(table, events[i], now, triggerBefore)
    && forall j :: 0 <= j < i ==> !Triggers(table, events[j], now, triggerBefore)
  }

  /** The selector applies the first triggering event in list order (not the one
      that starts soonest), and applies nothing exactly when no event triggers. */
  lemma {:induction false} SelectIsFirstTrigger(table: KeywordTable, events: seq<CalendarEvent>, now: int, triggerBefore: int)
    ensures SelectWasteType(table, events, now, triggerBefore).None?
        <==> forall i :: 0 <= i < |events| ==> !Triggers(table, events[i], now, triggerBefore)
    ensures forall i: nat :: (IsFirstTrigger(table, events, now, triggerBefore, i)
                              ==> SelectWasteType(table, events, now, triggerBefore) == EventWasteType(table, events[i]))
    ensures SelectWasteType(table, events, now, triggerBefore).Some?
        ==> exists i: nat :: IsFirstTrigger(table, events, now, triggerBefore, i)
  {
    if events != [] {
      var rest := events[1..];
      SelectIsFirstTrigger(table, rest, now, triggerBefore);
      if Triggers(table, events[0], now, triggerBefore) {
        assert IsFirstTrigger(table, events, now, triggerBefore, 0);
        forall i: nat | IsFirstTrigger(table, events, now, triggerBefore, i)
          ensures i == 0
        {
        }
      } else {
        forall i: nat | IsFirstTrigger(table, events, now, triggerBefore, i)
          ensures SelectWasteType(table, events, now, triggerBefore) == EventWasteType(table, events[i])
        {
          assert IsFirstTrigger(table, rest, now, triggerBefore, i - 1);
        }
        if SelectWasteType(table, rest, now, triggerBefore).Some? {
          var i: nat :| IsFirstTrigger(table, rest, now, triggerBefore, i);
          assert IsFirstTrigger(table, events, now, triggerBefore, i + 1);
        }
        if forall i :: 0 <= i < |rest| ==> !Triggers(table, rest[i], now, triggerBefore) {
          forall i | 0 <= i < |events|
            ensures !Triggers(table, events[i], now, triggerBefore)
          {
            if i > 0 { assert events[i] == rest[i - 1]; }
          }
        }
      }
    }
  }

  /** The events of the list that start inside the window, in list order. */
  function InWindowOnly(events: seq<CalendarEvent>, now: int, triggerBefore: int): (r: seq<CalendarEvent>)
    ensures forall e :: e in r ==> e in events && InWindow(e, now, triggerBefore)
  {
    if events == [] then []
    else if InWindow(events[0], now, triggerBefore) then [events[0]] + InWindowOnly(events[1..], now, triggerBefore)
    else InWindowOnly(events[1..], now, triggerBefore)
  }

  /** Events outside the window never trigger, whatever their title: removing
      them all leaves the selection unchanged. */
  lemma {:induction false} SelectIgnoresOutOfWindow(table: KeywordTable, events: seq<CalendarEvent>, now: int, triggerBefore: int)
    ensures SelectWasteType(table, events, now, triggerBefore)
         == SelectWasteType(table, InWindowOnly(events, now, triggerBefore), now, triggerBefore)
  {
    if events != [] {
      SelectIgnoresOutOfWindow(table, events[1..], now, triggerBefore);
      if InWindow(events[0], now, triggerBefore) {
        var w := InWindowOnly(events, now, triggerBefore);
        assert w[0] == events[0] && w[1..] == InWindowOnly(events[1..], now, triggerBefore);
      }
    }
  }
}

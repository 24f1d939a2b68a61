/** The display module object: its fields `currentWasteType` and `hideTimer`,
    updated in place by `setWasteType`, `scheduleAutoHide`, the hide timer's
    callback, `processCalendarEvents` and `stop`. The host's pending one-shot
    timers (what `setTimeout` and `clearTimeout` act on) are kept beside them. */
module Reminder {
  import opened Wrappers
  import opened Time
  import opened Keywords
  import opened HideTime
  import opened Config
  import opened Calendar
  import opened Scheduler

  class WasteReminder {
    const config: Config
    var currentWasteType: Option<string>
    var hideTimer: Option<nat>
    /** The host's pending one-shot timers: handle -> deadline in ms. */
    var timers: map<nat, int>
    /** The handle the host gives to the next `setTimeout`. */
    var nextHandle: nat

    function Snapshot(): State
      reads this
    {
      State(currentWasteType, hideTimer, timers, nextHandle)
    }

    ghost predicate Valid()
      reads this
    {
      Inv(Snapshot())
    }

    /** `start`: no waste type shown and no timer armed. */
    constructor (config: Config)
      ensures this.config == config
      ensures Snapshot() == Initial() && Valid()
    {
      this.config := config;
      currentWasteType := None;
      hideTimer := None;
      timers := map[];
      nextHandle := 1;
    }

    /** `setWasteType`: cancel the armed timer, store the value, then arm a new
        timer when the value is not "off" and an auto-hide time is configured. */
    method SetWasteType(wasteType: string, now: int)
      modifies this
      ensures Snapshot() == SetStep(config, old(Snapshot()), wasteType, now)
      ensures old(Valid()) ==> Valid() && |timers| <= 1
    {
      if hideTimer.Some? {
        timers := timers - {hideTimer.value};
        hideTimer := None;
      }
      currentWasteType := Some(wasteType);
      if wasteType != "off" && HideConfigured(config) {
        ScheduleAutoHide(now);
      }
      if old(Valid()) {
        InvAtMostOneTimer(Snapshot());
      }
    }

    /** `scheduleAutoHide`: arm one timer for the next hide instant; nothing when
        the setting does not parse. */
    method ScheduleAutoHide(now: int)
      requires HideConfigured(config)
      modifies this
      ensures Snapshot() == ArmHide(config, old(Snapshot()), now)
    {
      var hideTime := ParseHideTime(config.autoHideNextDayAt.value, now);
      if hideTime.None? {
        return;
      }
      var instant := hideTime.value;
      if instant <= now {
        instant := instant + DayMs;
      }
      var msUntilHide := instant - now;
      timers := timers[nextHandle := now + msUntilHide];
      hideTimer := Some(nextHandle);
      nextHandle := nextHandle + 1;
    }

    /** The host runs the hide timer once its deadline has passed; the callback
        calls `setWasteType("off")`. */
    method FireHideTimer(now: int)
      modifies this
      ensures Snapshot() == FireStep(config, old(Snapshot()), now)
    {
      if hideTimer.Some? && hideTimer.value in timers && timers[hideTimer.value] <= now {
        timers := timers - {hideTimer.value};
        SetWasteType("off", now);
      }
    }

    /** `processCalendarEvents`: scan the events in order and apply the first one
        inside the trigger window whose title matches; at most one is applied. */
    method ProcessCalendarEvents(events: seq<CalendarEvent>, now: int)
      modifies this
      ensures Snapshot() == CalendarStep(config, old(Snapshot()), events, now)
    {
      if !config.calendarEnabled {
        return;
      }
      var triggerTime := now + config.calendarTriggerBefore * 60 * 60 * 1000;
      var i := 0;
      while i < |events|
        invariant 0 <= i <= |events|
        invariant Snapshot() == old(Snapshot())
        invariant SelectWasteType(config.calendarKeywords, events[i..], now, config.calendarTriggerBefore)
               == SelectWasteType(config.calendarKeywords, events, now, config.calendarTriggerBefore)
      {
        var event := events[i];
        if event.startDate >= now && event.startDate <= triggerTime {
          var wasteType := MatchEventToWasteType(config.calendarKeywords, event.title);
          if wasteType.Some? && wasteType.value != "" {
            SetWasteType(wasteType.value, now);
            break;
          }
        }
        assert events[i..][1..] == events[i + 1..];
        i := i + 1;
      }
    }

    /** `stop`: cancel the armed timer. */
    method Stop()
      modifies this
      ensures Snapshot() == StopStep(old(Snapshot()))
    {
      if hideTimer.Some? {
        timers := timers - {hideTimer.value};
      }
    }
  }
}

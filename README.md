# MMM-WasteReminder: the display module's decision logic in Dafny

MMM-WasteReminder is a MagicMirror module that shows which waste bin is due.
An MQTT state message or a matching calendar event sets the current waste type.
The module shows that type's icon, and an optional label. A one-shot timer hides
the reminder again at a configured wall-clock time (`autoHideNextDayAt`).

This project models the decision logic of `MMM-WasteReminder.js` and proves its
properties:

- **Keyword matcher** (`Keywords`). `matchEventToWasteType` lower-cases the title.
  It returns the waste type of the earliest keyword, in table order, that occurs
  in the lower-cased title. It returns null for an absent or empty title.
  `MatchEventToWasteType` is the loop. `MatchWasteType` is its specification, and
  `FirstKeywordMatchIsEarliest` characterises it.
- **Calendar event selector** (`Calendar`, plus `ProcessCalendarEvents` in the
  class). It applies the first event in list order that starts in
  `[now, now + calendarTriggerBefore h]` and whose title yields a truthy waste type.
  It applies at most one event per call.
- **Hide-time parser and roll-forward** (`HideTime`). The pattern
  `^(\d{1,2}):(\d{2})$` and `parseInt` give a clock, with no range check. That clock
  is placed on today's date. An instant that is not after `now` moves one day on.
- **State machine** (`Scheduler` as values, `Reminder.WasteReminder` as the
  object). The fields are `currentWasteType` and `hideTimer`, plus the host's table
  of pending one-shot timers, so cancellation can be stated. The invariant `Inv`
  says that every pending timer is the one `hideTimer` refers to. So at most one
  hide timer is ever pending (`RunKeepsOneTimer`).
- **Render projection** (`View.Render`). It is the `getDom` decision: `Empty`, or
  `Payload(icon, label?)`.

Time is integer milliseconds. A day is 86 400 000 ms. "Today at H:M" is
`DayStart(now) + H·3 600 000 + M·60 000`. For out-of-range values this is the same
arithmetic as JavaScript's `setHours` overflow.

The code checks only the shape of the setting, so `ParseClock("25:99")` is
`Clock(25, 99)` (`OutOfRangeAccepted`). The resulting instant lies 25 h 99 min
after today's midnight.

## Model

| member | source | states |
|---|---|---|
| `Text.LowerChar` | MMM-WasteReminder.js:204 | a lower-cased character is never a capital, and a character that is not a capital is unchanged |
| `Text.ToLower` | MMM-WasteReminder.js:204 | `toLowerCase` keeps the length and lowers each character by `LowerChar`; `MatchIgnoresCase` shows lowering twice changes nothing for the matcher |
| `Text.Contains` | MMM-WasteReminder.js:207 | `includes`: a needle occurs only in a string at least as long, and the empty needle occurs in every string; `UpperNeedleNeverContained` rules out keywords with capitals |
| `Text.UpperNeedleNeverContained` | MMM-WasteReminder.js:204-207 | keywords are not lower-cased, so a keyword holding a capital never occurs in a lower-cased title |
| `Keywords.FirstKeywordMatch` | MMM-WasteReminder.js:206-212 | the `for…in` walk with its early return: a result is the value of some keyword that occurs; `FirstKeywordMatchIsEarliest`: the earliest such keyword in table order, None exactly when none occurs |
| `Keywords.FirstKeywordMatchIsEarliest` | MMM-WasteReminder.js:206-212 | the match is the waste type of the earliest table entry whose keyword is a substring; it is null exactly when no keyword occurs |
| `Keywords.MatchWasteType` | MMM-WasteReminder.js:201-213 | an absent or empty title gives null; a non-null result is the mapped value of some keyword that occurs in the lower-cased title |
| `Keywords.MatchIgnoresCase` | MMM-WasteReminder.js:204 | matching a title and matching its lower-cased form give the same result |
| `Keywords.MatchEventToWasteType` | MMM-WasteReminder.js:201-213 | the loop with its early return computes `MatchWasteType` (the earliest-keyword rule) |
| `HideTime.DigitsValue` | MMM-WasteReminder.js:294-295 | `parseInt` of k decimal digits is below 10^k |
| `HideTime.ParseClock` | MMM-WasteReminder.js:287-295 | null exactly when the string does not match one or two digits, a colon and two digits; parsed hours and minutes are at most 99 |
| `HideTime.ParseFormatRoundTrip` | MMM-WasteReminder.js:287-295 | every clock up to 99:99 parses back from its "HH:MM" spelling, and from its "H:MM" spelling when the hour has one digit |
| `HideTime.ParseClockCanonical` | MMM-WasteReminder.js:287-295 | every accepted string is exactly the spelling of the clock it parses to |
| `HideTime.OutOfRangeAccepted` | MMM-WasteReminder.js:287-298 | "25:99" is accepted as 25 hours and 99 minutes; nothing is range-checked |
| `Time.DayStart` | MMM-WasteReminder.js:297-298 | the midnight that `setHours` starts from is at or before `now`, less than a day before it, and on a day boundary |
| `HideTime.ParseHideTime` | MMM-WasteReminder.js:286-301 | null exactly when the setting is malformed; for hours 0..23 and minutes 0..59 the instant lies on the day of `now` at exactly H:M |
| `HideTime.ScheduleHide` | MMM-WasteReminder.js:258-269 | null exactly when the setting is malformed; otherwise the hide instant is strictly after `now`, so the timer delay is positive |
| `HideTime.HideIsNextOccurrence` | MMM-WasteReminder.js:264-269 | for hours 0..23 and minutes 0..59, the hide instant is the earliest instant after `now` at that time of day; the delay is positive and at most one day |
| `HideTime.HideExample` | MMM-WasteReminder.js:264-269 | "10:00" set at 09:00 hides at 10:00 the same day; set at 11:00 it hides at 10:00 the next day |
| `Calendar.SelectWasteType` | MMM-WasteReminder.js:180-195 | the scan's selector: a result is non-empty and is the waste type of an in-window event; `SelectIsFirstTrigger`: the first triggering event in list order, None exactly when no event triggers |
| `Calendar.SelectIsFirstTrigger` | MMM-WasteReminder.js:180-195 | the applied waste type is that of the first event in list order that is in the window and matches; nothing is applied exactly when no event does |
| `Calendar.SelectIgnoresOutOfWindow` | MMM-WasteReminder.js:183-184 | dropping every event outside `[now, triggerTime]` leaves the selection unchanged, so such events never trigger |
| `Config.Defaults` | MMM-WasteReminder.js:13-72 | the `defaults` block; every waste type a default keyword maps to has an entry in the default `wasteTypes`, so a default calendar match is always displayable |
| `View.Render` | MMM-WasteReminder.js:106-139 | a payload appears exactly when the state is truthy, not "off", and a key of `wasteTypes`; its icon is that entry's icon; the label appears exactly when `showText` is set |
| `Scheduler.InvAtMostOneTimer` | MMM-WasteReminder.js:237-252 | under the invariant at most one timer is pending |
| `Scheduler.ClearHide` | MMM-WasteReminder.js:237-241 | the timer `hideTimer` referred to is no longer pending and the field is null |
| `Scheduler.HideDeadline` | MMM-WasteReminder.js:250-262 | a hide deadline exists exactly when the value is not "off", `autoHideNextDayAt` is truthy and parses; the deadline is after `now` |
| `Scheduler.ArmHide` | MMM-WasteReminder.js:258-281 | when the setting parses, one timer is armed at the scheduled hide instant under a fresh handle that `hideTimer` now refers to; when it does not, nothing changes |
| `Scheduler.SetStep` | MMM-WasteReminder.js:234-253 | after `setWasteType(w)` the state is `w`; the previous timer is gone; exactly one timer, at the hide deadline, is pending when one is due, else none |
| `Scheduler.SetTwiceArmsOnce` | MMM-WasteReminder.js:234-253 | two calls with the same value leave that value and one timer for the same instant, never two |
| `Scheduler.FireStep` | MMM-WasteReminder.js:277-280 | before its deadline the timer changes nothing; when it fires the state becomes "off", no timer is armed, and the display is empty |
| `Scheduler.StopStep` | MMM-WasteReminder.js:312-315 | `stop` cancels the pending timer and leaves both fields as they were |
| `Scheduler.StoppedNeverFires` | MMM-WasteReminder.js:312-315 | after `stop` the hide timer never fires |
| `Scheduler.CalendarStep` | MMM-WasteReminder.js:170-196 | with the calendar disabled nothing changes; otherwise the first in-window matching event in list order is always applied, by exactly one `setWasteType`, and nothing changes exactly when no event triggers |
| `Scheduler.RunKeepsOneTimer` | MMM-WasteReminder.js:237-252 | after any sequence of set, calendar, timer and stop callbacks at most one hide timer is pending |
| `Scheduler.DefaultYellowScenario` | MMM-WasteReminder.js:184-191 | with the defaults, a "Gelbe Tonne" event two hours ahead sets "wasteYellow", shows the yellow icon without a label and arms one timer |
| `Scheduler.GelbeTonneIsYellow` | MMM-WasteReminder.js:206-208 | with the default keyword table, the title "Gelbe Tonne" maps to "wasteYellow" |
| `Reminder.WasteReminder.constructor` | MMM-WasteReminder.js:74-81 | the module starts with no waste type, no timer handle and no pending timer |
| `Reminder.WasteReminder.SetWasteType` | MMM-WasteReminder.js:234-253 | the new fields are `SetStep` of the old ones, and the one-timer invariant is kept |
| `Reminder.WasteReminder.ScheduleAutoHide` | MMM-WasteReminder.js:258-281 | the new fields are `ArmHide` of the old ones: the timer is armed at `now` plus the computed delay |
| `Reminder.WasteReminder.FireHideTimer` | MMM-WasteReminder.js:277-280 | the new fields are `FireStep` of the old ones |
| `Reminder.WasteReminder.ProcessCalendarEvents` | MMM-WasteReminder.js:170-196 | the scan with its `break` ends in `CalendarStep` of the old fields |
| `Reminder.WasteReminder.Stop` | MMM-WasteReminder.js:312-315 | the new fields are `StopStep` of the old ones |

## Left out

- `node_helper.js`: it wraps the MQTT client library and socket notifications. That is I/O with no decision logic of its own. An MQTT state message reaches the model as a `SetWasteType` call.
- `start`'s routing by `dataSource`, `startCalendarMonitoring`'s 30-minute polling, `socketNotificationReceived`, `notificationReceived`, `sendNotification` and `sendSocketNotification`: these are host-framework messaging. `stop`'s `clearInterval` of the polling handle is left out with them.
- The DOM built by `getDom` (elements, class names, `this.file`, icon size), `getScripts`, `getStyles`, `updateDom` and the animation speed: these are presentation. Only the payload decision is modelled.
- `log` and `Log`: logging has no effect on state.
- Clocks are parameters: every operation takes `now`. `parseHideTime` reads its own `new Date()`, and the model uses the same `now` as `scheduleAutoHide`. Likewise `processCalendarEvents` reads the clock at line 173, and the model passes that same `now` through `setWasteType` to `scheduleAutoHide`, which in the code reads its own clock at line 259 (`Reminder.WasteReminder.ProcessCalendarEvents` hands its `now` to `SetWasteType`). The milliseconds between those reads are not modelled.
- `Date` semantics: local time zones and daylight-saving shifts are not modelled. A day is a fixed 86 400 000 ms, and midnight is a multiple of that.
- `Text.LowerChar`: lower-cases only ASCII and the Latin-1 capitals (U+00C0..U+00DE except U+00D7), not all of Unicode.
- `Calendar.CalendarEvent`: `startDate` is a millisecond count. An unparsable date (`NaN`, which never lies in the window) is not modelled.
- `Config.Config`: `calendarTriggerBefore` is a whole number of hours. Fractional hours are not modelled.
- `Config.Config`: the waste type table is a Dafny map. Object-prototype keys such as "toString", which JavaScript would also find, are not modelled.
- The host's timer table ignores the `setTimeout` delay limit of 2^31-1 ms. Delays here are at most about four days, far below that limit.

# Reminder triggers — a Dafny model

This project models the parts of a small Android reminder application that
decide *when* a reminder goes off. The application has two independent
pollers.

* **ReminderService** (`service/main.py`) is the background service.
  Every poll does the following:
  1. It reads the stored reminder records and turns each into a normalised
     reminder. Missing fields get defaults. If any record is malformed, the
     whole load yields the empty list.
  2. It skips the poll when the minute of day has not changed since the
     previous poll.
  3. It triggers every enabled reminder whose weekday list contains today and
     whose hour and minute equal now, unless that reminder's key (position,
     `HHMM`, date) is already in the triggered set.
  4. It adds each triggered key to the set, and empties the set when the poll
     falls at 00:00.

  The sound picked for a notification or alarm is modelled as well: silent,
  the default alarm, or a custom URI.
* **ReminderApp** (`main.py`) is the foreground app.
  * Adding a reminder turns a 12-hour time plus AM/PM into a 24-hour time.
    It requires non-blank text and a chosen ringtone.
  * A one-second tick starts every reminder whose time equals the current
    minute and that has not played yet, marking it played. At 00:00 the tick
    marks every reminder unplayed.
  * Playing a sound remembers the reminder being played. Snooze moves that
    reminder five minutes later, wrapping past midnight, and marks it
    unplayed.

The wall clock and the file contents enter as parameters: an `Instant`
(a day ordinal plus a time of day) and the decoded list of stored records.
The Python built-ins the code relies on are modelled on text in module
`PyText`: `str.strip`, `str.split`, `int()` and zero-padded formatting.

Modules:

* `Options` is an option type.
* `Clock` covers times of day, minute-of-day arithmetic with wrap-around,
  and weekdays.
* `PyText` holds the text built-ins.
* `Service` covers record conversion, the due set, the triggered-key set and
  the `ReminderService` class.
* `App` covers 12/24-hour conversion, the tick, snooze, the `ReminderApp`
  class, and the corrected once-per-day tick.

Two points of the code a reader might not expect, both modelled as
written:

* the service keys triggers by list position and clears its set only on a
  poll at 00:00;
* the app keeps one `played` flag per reminder with no date, and snooze
  rewrites the reminder's stored time for good.

## Model

| member | source | states |
|---|---|---|
| Clock.MinuteOfDay | service/main.py:185 | the minute of day `hour*60+minute` lies in 0..1439 and is 0 exactly at 00:00 |
| Clock.FromMinuteOfDayInverts | service/main.py:185 | a valid time is recovered from its minute of day, so comparing minutes of day is comparing times |
| Clock.MinuteOfDayInjective | service/main.py:187 | two valid times with the same minute of day are equal, so the service's minute guard skips exactly a repeated time of day |
| Clock.Weekday | service/main.py:191 | `date.weekday()` lies in 0..6, with the first proleptic day (ordinal 1) a Monday (0) |
| Clock.AddMinutes | main.py:163-164 | adding minutes to a time of day gives a valid time whose minute of day is the sum modulo 1440, the date part being dropped by `.time()` |
| Clock.AddMinutesWithinHour | main.py:163-164 | when the minute stays below 60 the hour is kept and the minutes add |
| Clock.AddMinutesCarry | main.py:163-164 | when the minute passes 59 within the day the hour goes up by one |
| Clock.AddMinutesWrap | main.py:163-164 | past 23:59 the result wraps to the next day's small hours, for example 23:58 plus 5 is 00:03 |
| PyText.Strip | main.py:79 | the stripped text is no longer than the input and neither starts nor ends with whitespace; the whitespace set is that of `str.strip()` (space, `\t`–`\r`, `\x1c`–`\x1f`) or the smaller one `int()` trims (space, `\t`–`\r`) |
| PyText.StripOfPadded | main.py:79 | the strip of whitespace, then a text that neither starts nor ends with whitespace, then whitespace, is exactly that text |
| PyText.StripDecomposes | main.py:79 | every string is its strip with whitespace before and after it, so the strip only removes whitespace from the two ends |
| PyText.StripStartOfPadded | main.py:79 | `lstrip` drops exactly the leading whitespace in front of a non-space character |
| PyText.StripEndOfPadded | main.py:79 | `rstrip` drops exactly the trailing whitespace after a non-space character |
| PyText.StripStartRemoves | main.py:79 | what `lstrip` removes is a whitespace prefix |
| PyText.StripEndRemoves | main.py:79 | what `rstrip` removes is a whitespace suffix |
| PyText.StripEmptyIffBlank | main.py:79-90 | the stripped text is empty exactly when the input is all whitespace, so `if text` rejects exactly blank input |
| PyText.StripIdempotent | main.py:79 | stripping twice equals stripping once |
| PyText.StripUnchanged | main.py:79 | text without surrounding whitespace is left as it is |
| PyText.Split | service/main.py:49 | `split(':')` yields one more part than there are colons |
| PyText.SplitWithoutSeparator | service/main.py:49 | text without a colon splits into itself alone |
| PyText.SplitAround | service/main.py:49 | `a:b` with colon-free `a`, `b` splits into exactly `[a, b]` |
| PyText.ParseUnsigned | service/main.py:49 | a digit run is accepted exactly when it is digits with single underscores between digits |
| PyText.RemoveUnderscoresOfDigits | service/main.py:49 | dropping underscores from plain digits changes nothing |
| PyText.DigitsValueOfDecimal | service/main.py:49 | reading back the decimal digits of `n` gives `n` |
| PyText.DigitsValueLeadingZero | service/main.py:49 | a leading zero does not change the value of a digit run |
| PyText.ParseUnsignedOfDigits | service/main.py:49 | a plain digit run parses to its value |
| PyText.ParseIntOfDecimal | service/main.py:49 | `int()` of the decimal digits of `n` is `n` |
| PyText.ParseIntOfNegated | service/main.py:49 | `int()` of a minus sign and the digits of `n` is `-n` |
| PyText.ParseIntOfIntToString | service/main.py:49 | `int(str(i)) == i` for every integer |
| PyText.ParseIntOfPaddedDigit | service/main.py:49 | `int()` of a zero-padded single digit is that digit |
| PyText.ParseIntOfTwoDigits | service/main.py:49 | `int()` of the `%02d` rendering of `i` is `i` |
| PyText.ParseIntIgnoresPadding | service/main.py:49 | surrounding space and `\t`–`\r` do not change what `int()` returns |
| PyText.ParseIntRejectsSeparator | service/main.py:49 | a number followed by one of `\x1c`–`\x1f` is rejected by `int()`, although `str.strip()` would remove that character, so a stored time such as `"9:0\x1f"` fails |
| PyText.ParseIntOfBlank | service/main.py:49 | `int()` rejects empty text and text made only of space and `\t`–`\r` |
| PyText.Decimal | service/main.py:205 | the decimal rendering of a natural number is a non-empty digit run |
| Service.NoColonInNumber | service/main.py:49 | zero-padded numbers contain no colon |
| Service.ParseTimeOfDecimal | service/main.py:49 | `str(H) + ":" + str(M)` parses back to `(H, M)` for all integers `H`, `M` |
| Service.ParseTimeOfTwoDigits | service/main.py:49 | `"HH:MM"` written with `%02d` parses back to `(HH, MM)`, a round trip |
| Service.ConvertItem | service/main.py:48-58 | a record converts exactly when it has text, a time and a time of the form `int:int`; text, hour, minute and URI are carried over; `enabled` is false only when stored false; days default to all seven weekdays and ringtone to the default sound |
| Service.LoadReminders | service/main.py:47-63 | when every record converts, the result lists the converted reminders in order, one per record; when one record fails, the result is empty |
| Service.SoundFor | service/main.py:88-94 | silent exactly for "Vibrate Only"; a custom URI exactly when the sound is not vibrate-only and the stored URI is non-empty and not "SYSTEM_DEFAULT", that URI being played; the default alarm otherwise (the same rule chooses the player source at service/main.py:132-146) |
| Service.Due | service/main.py:197-215 | the reminders triggered by one poll form a strictly increasing list of positions |
| Service.DueMember | service/main.py:197-207 | a position is triggered exactly when it is in range, its reminder is enabled, lists today's weekday, equals now's hour and minute, and its key is not yet in the triggered set |
| Service.DueKeyMember | service/main.py:205-215 | the keys added by a poll are exactly the keys of the triggered positions |
| Service.SkippedNeverFires | service/main.py:198-202 | a disabled reminder, or one whose weekdays leave out today, is never triggered |
| Service.DefaultDaysEveryWeekday | service/main.py:55 | the default weekday list contains every weekday |
| Service.FiresOnlyAtItsMinute | service/main.py:204 | a triggered reminder's hour and minute are now's |
| Service.AtMostOncePerKey | service/main.py:205-215 | once a reminder has been triggered on a date, no later poll that keeps the triggered set triggers it again on that date |
| Service.ReminderService.constructor | service/main.py:35-36 | a new service has an empty triggered set and no last minute (-1) |
| Service.ReminderService.CheckReminders | service/main.py:181-219 | at a repeated minute nothing triggers and the set is unchanged; otherwise the triggered positions are exactly the due ones, their keys are added, the set empties at 00:00 and only grows otherwise, and the last minute becomes now's |
| App.To24Hour | main.py:84-87 | a 12-hour hour with AM/PM becomes an hour in 0..23, before noon exactly for AM, equal modulo 12 |
| App.To12Hour | main.py:101 | `%I %p` renders an hour in 0..23 as 1..12 with AM exactly before noon |
| App.To12HourOfTo24Hour | main.py:84-87 | rendering a converted time gives back the chosen hour and AM/PM |
| App.To24HourOfTo12Hour | main.py:84-87 | converting a rendered hour gives back the 24-hour hour |
| App.To24HourInjective | main.py:84-87 | different 12-hour selections give different 24-hour hours |
| App.TickedPlayed | main.py:113-121 | after a tick a reminder is played exactly when it was played or strikes now, and at 00:00 it is unplayed |
| App.Snoozed | main.py:162-166 | snooze leaves the reminder unplayed, five minutes later modulo a day, and otherwise unchanged |
| App.SnoozedStrikesLater | main.py:162-166 | a snoozed reminder strikes at its old time plus five minutes and not at its old time |
| App.ReminderApp.constructor | main.py:19-43 | a new app has no reminders, empty text, no ringtone and no current reminder |
| App.ReminderApp.AddReminder | main.py:78-109 | a reminder is added exactly when the stripped text is non-blank and a ringtone is chosen; it holds the stripped text, the 24-hour time, the ringtone, unplayed and recurring; then the text and the ringtone are cleared; otherwise nothing changes |
| App.ReminderApp.CheckReminders | main.py:111-121 | every reminder becomes its ticked self; the started positions are exactly the ones striking now, in list order; nothing else changes |
| App.ReminderApp.PlaySound | main.py:123-124 | the played reminder becomes the current one |
| App.ReminderApp.SnoozeAlarm | main.py:155-166 | with no current reminder nothing changes; otherwise just that reminder is replaced by its snoozed self |
| App.MidnightReminderRefires | main.py:111-121 | a 00:00 reminder strikes on the first tick at 00:00 and again on every later tick in that minute |
| App.TickedOnceIdempotent | main.py:111-121 | with the reset done once per day, a second tick in the same minute changes nothing |
| App.TickedOnceDailyReset | main.py:119-121 | on the first tick at 00:00 the corrected tick still resets the day: exactly the 00:00 reminders start, played or not before, and only they end up played |
| App.TickedOnceAgreesOffMidnight | main.py:111-121 | outside 00:00 the corrected tick is the tick as written |

## Left out

- Android side effects: the notification builder, vibration, the media player, the wake lock and waking the screen. These are foreign calls. Only the choice of sound is modelled (`Service.SoundFor`).
- Reading `reminders.json` (service/main.py:43-46). The decoded record list is a parameter. A missing file or unreadable JSON means an empty list, which the caller passes in.
- Stored values of the wrong JSON type are not modelled: a null `enabled` or `days`, a non-dict record, and a non-string or null `text`. The source loads such a `text` as it is; the model's text is always a string. A non-string `time` counts as a failed record, as `split` raises on it. Neither are exceptions such as a `TypeError` halfway through a poll's loop.
- `datetime.now()` and `date.today()`: the current instant is a parameter.
- The service's run loop, the 30-second sleep and the `print` logging.
- Kivy widgets, labels, popups, the file chooser and `Clock.schedule_interval`. The chosen ringtone path is a field set by the caller.
- `stop_alarm`, and the loading and stopping of the sound in `play_sound` and `snooze_alarm`. These are audio I/O.
- The thread that `check_reminders` starts for `play_sound`. `App.ReminderApp.CheckReminders` returns the positions it would start, in order. Interleaving with that thread is not modelled.
- `service/alarm_receiver.py` and the Java broadcast receivers are not part of this model.
- PyText: `str.strip` and `int()` are modelled on ASCII text only. Non-ASCII whitespace (which both trim) and non-ASCII decimal digits (which `int()` accepts) are not modelled.
- PyText.ParseUnsigned, PyText.ParseIntOfIntToString: no limit on the number of digits. Python 3.11 and later refuse to convert more than 4300 digits in `int()` and `str()`, raising `ValueError`.
- PyText.ParseInt: has no contract of its own. Its meaning is stated by `PyText.ParseUnsigned`, `PyText.ParseIntOfIntToString`, `PyText.ParseIntOfTwoDigits`, `PyText.ParseIntIgnoresPadding`, `PyText.ParseIntOfBlank` and `PyText.ParseIntRejectsSeparator`.
- Service.ParseTime: has no contract of its own. Its meaning is stated by `Service.ConvertItem`, `Service.ParseTimeOfDecimal` and `Service.ParseTimeOfTwoDigits`.
- Service.Due: the key string `"{idx}_{HHMM}_{date}"` is modelled as a tuple of position, hour, minute and date ordinal. The string rendering is left out: `%02d` of a valid hour or minute is injective.
- Service.Matches, Service.Fires: specification predicates for the filters at service/main.py:198-207, without contracts of their own. Their meaning is stated by `Service.DueMember`, `Service.SkippedNeverFires` and `Service.FiresOnlyAtItsMinute`.
- Service.ReminderService.CheckReminders: the new reminder list is a parameter, read before the minute guard instead of after it. Reading has no effect on the service's state. The guard compares minute of day only, as the source does, so a poll at the same time on a later day with no poll in between is skipped.
- App.Struck, App.Ticked: specification functions for one reminder's step of the tick at main.py:111-121, without contracts of their own. Their meaning is stated by `App.TickedPlayed`, and `App.ReminderApp.CheckReminders` is proved against them.
- App.TickedOnce, App.ResetOnce, App.StrikesOnce: the corrected tick, without contracts of their own. Their meaning is stated by `App.TickedOnceIdempotent`, `App.TickedOnceDailyReset` and `App.TickedOnceAgreesOffMidnight`.
- App.ReminderApp.PlaySound: the current reminder is held as a position in the list, not as an aliased dictionary. The list is only ever appended to, so the position keeps naming the same reminder.
- App.ReminderApp.AddReminder: the hour and minute come from spinners whose values are 1..12 and 0..59. The precondition states that range instead of modelling `int()` of spinner text.

## Findings

| source | as written | input that shows it | evidently intended | confidence | as-written member | corrected member |
|---|---|---|---|---|---|---|
| main.py:111-121 | the tick starts a striking reminder and then, at 00:00, marks every reminder unplayed again | a reminder set for 12:00 AM (00:00) with the one-second tick: the first tick at 00:00 starts it and resets it, the next tick in the same minute starts it again, about sixty times | a daily reminder plays once a day, with the reset done once per day | not executed | App.MidnightReminderRefires | App.TickedOnce, proved by App.TickedOnceIdempotent and App.TickedOnceDailyReset |

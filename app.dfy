/** The foreground app's poller (`main.py`, class `ReminderApp`): adding a
    reminder from the 12-hour pickers, the once-a-second check with its per
    reminder `played` flag and midnight reset, and the five-minute snooze.
    Widgets, audio and threads are left to the caller: a check returns the
    indices of the reminders whose sound it starts. */
module App {
  import opened Options
  import opened Clock
  import opened PyText

  datatype Meridiem = AM | PM

  /** The hour the pickers give (1 to 12 with AM or PM) on the 24-hour clock:
      the same hour modulo 12, in the morning half exactly for AM. */
  function To24Hour(hour: int, ampm: Meridiem): (h: int)
    requires 1 <= hour <= 12
    ensures 0 <= h < 24
    ensures h < 12 <==> ampm == AM
    ensures h % 12 == hour % 12
  {
    match ampm
    case PM => if hour != 12 then hour + 12 else hour
    case AM => if hour == 12 then 0 else hour
  }

  /** `strftime('%I %p')`, which the reminder's label uses to show the hour again. */
  function To12Hour(h: int): (r: (int, Meridiem))
    requires 0 <= h < 24
    ensures 1 <= r.0 <= 12
    ensures r.1 == AM <==> h < 12
    ensures r.0 % 12 == h % 12
  {
    (if h % 12 == 0 then 12 else h % 12, if h < 12 then AM else PM)
  }

  /** The label shows the hour the user picked. */
  lemma To12HourOfTo24Hour(hour: int, ampm: Meridiem)
    requires 1 <= hour <= 12
    ensures To12Hour(To24Hour(hour, ampm)) == (hour, ampm)
  {
  }

  /** Every hour of the day can be picked, and only one way. */
  lemma To24HourOfTo12Hour(h: int)
    requires 0 <= h < 24
    ensures To24Hour(To12Hour(h).0, To12Hour(h).1) == h
  {
  }

  lemma To24HourInjective(hour1: int, ampm1: Meridiem, hour2: int, ampm2: Meridiem)
    requires 1 <= hour1 <= 12 && 1 <= hour2 <= 12
    requires To24Hour(hour1, ampm1) == To24Hour(hour2, ampm2)
    ensures hour1 == hour2 && ampm1 == ampm2
  {
    To12HourOfTo24Hour(hour1, ampm1);
    To12HourOfTo24Hour(hour2, ampm2);
  }

  /** One reminder dictionary of `self.reminders`. */
  datatype AppReminder = AppReminder(
    text: string,
    time: Time,
    ringtone: string,
    played: bool,
    recurring: bool)

  /** A reminder whose sound the check starts at `now`. */
  predicate Strikes(r: AppReminder, now: Time) {
    r.time == now && !r.played
  }

  /** The first loop of the check: a reminder that strikes is marked played. */
  function Struck(r: AppReminder, now: Time): AppReminder {
    if Strikes(r, now) then r.(played := true) else r
  }

  /** A reminder after one whole check at `now`, as `main.py` writes it: the
      match loop, then at 00:00 the reset loop. */
  function Ticked(r: AppReminder, now: Time): AppReminder
    requires ValidTime(now)
  {
    if IsMidnight(now) then Struck(r, now).(played := false) else Struck(r, now)
  }

  /** A check touches nothing but the `played` flag; after a check at 00:00 the
      flag is down, and otherwise it is up exactly when it was up already or the
      reminder's time is now. */
  lemma TickedPlayed(r: AppReminder, now: Time)
    requires ValidTime(now)
    ensures Ticked(r, now) == r.(played := Ticked(r, now).played)
    ensures IsMidnight(now) ==> !Ticked(r, now).played
    ensures !IsMidnight(now) ==> Ticked(r, now).played == (r.played || r.time == now)
  {
  }

  /** Minutes added by the snooze button. */
  const SnoozeMinutes: nat := 5

  /** The current reminder after `snooze_alarm`: its time moves five minutes on,
      wrapping past midnight, and it may play again. */
  function Snoozed(r: AppReminder): (s: AppReminder)
    requires ValidTime(r.time)
    ensures ValidTime(s.time) && !s.played
    ensures MinuteOfDay(s.time) == (MinuteOfDay(r.time) + SnoozeMinutes) % MinutesPerDay
    ensures s == r.(time := s.time, played := false)
  {
    r.(time := AddMinutes(r.time, SnoozeMinutes), played := false)
  }

  /** A snoozed reminder sounds again at the check five minutes later, never at its old time. */
  lemma SnoozedStrikesLater(r: AppReminder)
    requires ValidTime(r.time)
    ensures Strikes(Snoozed(r), AddMinutes(r.time, SnoozeMinutes))
    ensures !Strikes(Snoozed(r), r.time)
  {
  }

  /** The app's state beyond its widgets: the reminders, the text box, the chosen
      ringtone and the reminder whose sound played last (an index into the list,
      which only ever grows). */
  class ReminderApp {
    var reminders: seq<AppReminder>
    var textInput: string
    var ringtonePath: Option<string>
    var current: Option<nat>

    ghost predicate Valid()
      reads this
    {
      && (forall i :: 0 <= i < |reminders| ==> ValidTime(reminders[i].time))
      && (current.Some? ==> current.value < |reminders|)
    }

    /** `build`: no reminders, an empty text box, no ringtone, nothing playing. */
    constructor ()
      ensures Valid()
      ensures reminders == [] && textInput == "" && ringtonePath == None && current == None
    {
      reminders := [];
      textInput := "";
      ringtonePath := None;
      current := None;
    }

    /** `add_reminder` with the pickers at `hour`:`minute` `ampm`. It appends one
        unplayed, recurring reminder and clears the text box and the ringtone
        exactly when the stripped text is non-empty and a ringtone is chosen;
        otherwise nothing changes. */
    method AddReminder(hour: int, minute: int, ampm: Meridiem) returns (added: bool)
      requires Valid()
      requires 1 <= hour <= 12 && 0 <= minute < 60
      modifies this
      ensures Valid()
      ensures added <==> Strip(StrSpaces, old(textInput)) != [] && old(ringtonePath).Some? && old(ringtonePath).value != ""
      ensures added ==>
        && reminders == old(reminders) + [AppReminder(Strip(StrSpaces, old(textInput)), Time(To24Hour(hour, ampm), minute),
                                                       old(ringtonePath).value, false, true)]
        && textInput == "" && ringtonePath == None
      ensures !added ==>
        reminders == old(reminders) && textInput == old(textInput) && ringtonePath == old(ringtonePath)
      ensures current == old(current)
    {
      var text := Strip(StrSpaces, textInput);
      var h := hour;
      if ampm == PM && h != 12 {
        h := h + 12;
      } else if ampm == AM && h == 12 {
        h := 0;
      }
      var reminderTime := Time(h, minute);
      added := text != [] && ringtonePath.Some? && ringtonePath.value != "";
      if added {
        reminders := reminders + [AppReminder(text, reminderTime, ringtonePath.value, false, true)];
        textInput := "";
        ringtonePath := None;
      }
    }

    /** `check_reminders` at `now`, already truncated to the minute. Returns the
        reminders whose sound it starts, in list order: exactly those at `now`
        not yet played. Each reminder ends as `Ticked` says. */
    method CheckReminders(now: Time) returns (fired: seq<nat>)
      requires Valid() && ValidTime(now)
      modifies this
      ensures Valid()
      ensures |reminders| == |old(reminders)|
      ensures forall i :: 0 <= i < |reminders| ==> reminders[i] == Ticked(old(reminders)[i], now)
      ensures forall k :: 0 <= k < |fired| ==> fired[k] < |reminders| && Strikes(old(reminders)[fired[k]], now)
      ensures forall i :: 0 <= i < |reminders| && Strikes(old(reminders)[i], now) ==> i in fired
      ensures forall k, l :: 0 <= k < l < |fired| ==> fired[k] < fired[l]
      ensures textInput == old(textInput) && ringtonePath == old(ringtonePath) && current == old(current)
    {
      fired := [];
      var before := reminders;
      var rs := before;
      var i := 0;
      while i < |rs|
        invariant 0 <= i <= |rs| == |before|
        invariant forall k :: 0 <= k < |rs| ==> rs[k] == if k < i then Struck(before[k], now) else before[k]
        invariant forall k :: 0 <= k < |fired| ==> fired[k] < i && Strikes(before[fired[k]], now)
        invariant forall k :: 0 <= k < i && Strikes(before[k], now) ==> k in fired
        invariant forall k, l :: 0 <= k < l < |fired| ==> fired[k] < fired[l]
      {
        var reminder := rs[i];
        if reminder.time == now && !reminder.played {
          fired := fired + [i];
          rs := rs[i := reminder.(played := true)];
        }
        i := i + 1;
      }
      if now.hour == 0 && now.minute == 0 {
        var j := 0;
        while j < |rs|
          invariant 0 <= j <= |rs| == |before|
          invariant forall k :: 0 <= k < |rs| ==> rs[k] == if k < j then Ticked(before[k], now) else Struck(before[k], now)
        {
          rs := rs[j := rs[j].(played := false)];
          j := j + 1;
        }
      }
      reminders := rs;
    }

    /** The one effect of `play_sound` on the state: the reminder becomes the current one. */
    method PlaySound(i: nat)
      requires Valid() && i < |reminders|
      modifies this`current
      ensures Valid()
      ensures current == Some(i)
    {
      current := Some(i);
    }

    /** `snooze_alarm`: the current reminder, if any, becomes `Snoozed`; every
        other reminder and the current index stay as they were. */
    method SnoozeAlarm()
      requires Valid()
      modifies this`reminders
      ensures Valid()
      ensures |reminders| == |old(reminders)|
      ensures old(current).None? ==> reminders == old(reminders)
      ensures old(current).Some? ==>
        reminders == old(reminders)[current.value := Snoozed(old(reminders)[current.value])]
    {
      if current.Some? {
        var idx := current.value;
        var r := reminders[idx];
        var snoozeTime := AddMinutes(r.time, SnoozeMinutes);
        reminders := reminders[idx := r.(time := snoozeTime, played := false)];
      }
    }
  }

  /** As written, a check at 00:00 marks a 00:00 reminder played and then the
      reset loop lowers the flag again, so the next check in that same minute
      starts it once more: the app polls every second, so it sounds on every tick
      of the minute. */
  lemma MidnightReminderRefires(r: AppReminder)
    requires r.time == Time(0, 0) && !r.played
    ensures Strikes(r, Time(0, 0))
    ensures Strikes(Ticked(r, Time(0, 0)), Time(0, 0))
    ensures Ticked(Ticked(r, Time(0, 0)), Time(0, 0)) == Ticked(r, Time(0, 0))
  {
  }

  /** The check as evidently intended: the daily reset runs once, at the first
      check of minute 00:00 (`lastMinute` is the minute of day of the check
      before), and before the match loop. */
  function TickedOnce(r: AppReminder, now: Time, lastMinute: int): AppReminder
    requires ValidTime(now)
  {
    Struck(ResetOnce(r, now, lastMinute), now)
  }

  function ResetOnce(r: AppReminder, now: Time, lastMinute: int): AppReminder
    requires ValidTime(now)
  {
    if IsMidnight(now) && lastMinute != 0 then r.(played := false) else r
  }

  /** Whether the corrected check starts the reminder's sound. */
  predicate StrikesOnce(r: AppReminder, now: Time, lastMinute: int)
    requires ValidTime(now)
  {
    Strikes(ResetOnce(r, now, lastMinute), now)
  }

  /** With the correction, a second check in the same minute, 00:00 included,
      starts nothing and changes nothing. */
  lemma TickedOnceIdempotent(r: AppReminder, now: Time, lastMinute: int)
    requires ValidTime(now)
    ensures !StrikesOnce(TickedOnce(r, now, lastMinute), now, MinuteOfDay(now))
    ensures TickedOnce(TickedOnce(r, now, lastMinute), now, MinuteOfDay(now)) == TickedOnce(r, now, lastMinute)
  {
  }

  /** With the correction, the first check of 00:00 starts a 00:00 reminder even if
      it played the day before, and leaves every other reminder unplayed. */
  lemma TickedOnceDailyReset(r: AppReminder, lastMinute: int)
    requires lastMinute != 0
    ensures StrikesOnce(r, Time(0, 0), lastMinute) <==> r.time == Time(0, 0)
    ensures TickedOnce(r, Time(0, 0), lastMinute).played <==> r.time == Time(0, 0)
  {
  }

  /** Away from midnight the correction changes nothing. */
  lemma TickedOnceAgreesOffMidnight(r: AppReminder, now: Time, lastMinute: int)
    requires ValidTime(now) && !IsMidnight(now)
    ensures StrikesOnce(r, now, lastMinute) == Strikes(r, now)
    ensures TickedOnce(r, now, lastMinute) == Ticked(r, now)
  {
  }
}

/** The background service's poller (`service/main.py`, class `ReminderService`):
    the conversion of stored records, the per-minute guard, the filters on
    enabled / weekday / time, the dedup set cleared at midnight, and the sound a
    fired reminder asks for. Android calls are the caller's business: a check
    returns the indices of the reminders it fires. */
module Service {
  import opened Options
  import opened Clock
  import opened PyText

  const DefaultRingtone: string := "Default System Sound"
  const VibrateOnly: string := "Vibrate Only"
  const SystemDefault: string := "SYSTEM_DEFAULT"

  /** `list(range(7))`, every weekday from Monday (0) to Sunday (6). */
  const AllWeekdays: seq<int> := [0, 1, 2, 3, 4, 5, 6]

  /** One decoded record of reminders.json; None marks a key that is absent
      (for `time`, also a value that is not a string, on which `split` fails). */
  datatype StoredItem = StoredItem(
    text: Option<string>,
    time: Option<string>,
    enabled: Option<bool>,
    days: Option<seq<int>>,
    ringtone: Option<string>,
    ringtoneUri: Option<string>)

  /** The dictionary `load_reminders` builds for each record. The hour and
      minute are whatever `int()` read; nothing checks their range. */
  datatype Reminder = Reminder(
    text: string,
    hour: int,
    minute: int,
    enabled: bool,
    days: seq<int>,
    ringtone: string,
    ringtoneUri: Option<string>)

  /** `h, m = map(int, time.split(':'))`: exactly one colon, two integers. */
  function ParseTime(s: string): (r: Option<(int, int)>)
  {
    var parts := Split(s, ':');
    if |parts| != 2 then None
    else
      match (ParseInt(parts[0]), ParseInt(parts[1]))
      case (Some(h), Some(m)) => Some((h, m))
      case _ => None
  }

  lemma NoColonInNumber(i: int)
    ensures ':' !in IntToString(i) && ':' !in TwoDigits(i)
  {
    var n: nat := if i < 0 then -i else i;
    var d := Decimal(n);
    assert forall k :: 0 <= k < |d| ==> d[k] != ':';
    if 0 <= i < 10 {
      assert TwoDigits(i) == "0" + d;
    }
  }

  /** A time written as `str(h) + ":" + str(m)` reads back as `(h, m)`. */
  lemma ParseTimeOfDecimal(h: int, m: int)
    ensures ParseTime(IntToString(h) + ":" + IntToString(m)) == Some((h, m))
  {
    NoColonInNumber(h);
    NoColonInNumber(m);
    SplitAround(IntToString(h), IntToString(m), ':');
    ParseIntOfIntToString(h);
    ParseIntOfIntToString(m);
  }

  /** A time written as `"%02d:%02d" % (h, m)` reads back as `(h, m)`. */
  lemma ParseTimeOfTwoDigits(h: int, m: int)
    ensures ParseTime(TwoDigits(h) + ":" + TwoDigits(m)) == Some((h, m))
  {
    NoColonInNumber(h);
    NoColonInNumber(m);
    SplitAround(TwoDigits(h), TwoDigits(m), ':');
    ParseIntOfTwoDigits(h);
    ParseIntOfTwoDigits(m);
  }

  /** The conversion of one stored record. It fails (the source raises) when
      `text` or `time` is missing or `time` is not two integers around one colon;
      otherwise stored values are kept and absent ones take their defaults. */
  function ConvertItem(item: StoredItem): (r: Option<Reminder>)
    ensures r.Some? <==> item.text.Some? && item.time.Some? && ParseTime(item.time.value).Some?
    ensures r.Some? ==>
      && r.value.text == item.text.value
      && Some((r.value.hour, r.value.minute)) == ParseTime(item.time.value)
      && r.value.ringtoneUri == item.ringtoneUri
    ensures r.Some? ==> r.value.enabled == (item.enabled != Some(false))
    ensures r.Some? && item.days.Some? ==> r.value.days == item.days.value
    ensures r.Some? && item.days.None? ==> r.value.days == AllWeekdays
    ensures r.Some? && item.ringtone.Some? ==> r.value.ringtone == item.ringtone.value
    ensures r.Some? && item.ringtone.None? ==> r.value.ringtone == DefaultRingtone
  {
    if item.time.None? then None
    else
      match ParseTime(item.time.value)
      case None => None
      case Some((h, m)) =>
        if item.text.None? then None
        else
          Some(Reminder(
            item.text.value, h, m,
            item.enabled.GetOr(true),
            item.days.GetOr(AllWeekdays),
            item.ringtone.GetOr(DefaultRingtone),
            item.ringtoneUri))
  }

  /** `load_reminders` after the file has been read and decoded: one reminder
      per record, in order, or no reminders at all as soon as one record does
      not convert (the source's `except` returns `[]`). */
  method LoadReminders(items: seq<StoredItem>) returns (reminders: seq<Reminder>)
    ensures (forall i :: 0 <= i < |items| ==> ConvertItem(items[i]).Some?) ==>
      |reminders| == |items| && forall i :: 0 <= i < |items| ==> ConvertItem(items[i]) == Some(reminders[i])
    ensures (exists i :: 0 <= i < |items| && ConvertItem(items[i]).None?) ==> reminders == []
  {
    reminders := [];
    var i := 0;
    while i < |items|
      invariant 0 <= i <= |items|
      invariant |reminders| == i
      invariant forall k :: 0 <= k < i ==> ConvertItem(items[k]) == Some(reminders[k])
    {
      var r := ConvertItem(items[i]);
      if r.None? {
        assert ConvertItem(items[i]).None?;
        return [];
      }
      reminders := reminders + [r.value];
      i := i + 1;
    }
  }

  /** What a fired reminder sounds like. */
  datatype Sound = Silent | DefaultAlarm | CustomUri(uri: string)

  /** The sound rule of `show_notification` and `play_alarm`: "Vibrate Only"
      plays nothing; otherwise a set ringtone URI other than "SYSTEM_DEFAULT" is
      played; otherwise the system's default alarm. An empty URI counts as unset. */
  function SoundFor(r: Reminder): (s: Sound)
    ensures s == Silent <==> r.ringtone == VibrateOnly
    ensures s.CustomUri? <==>
      r.ringtone != VibrateOnly && r.ringtoneUri.Some? && r.ringtoneUri.value != "" && r.ringtoneUri.value != SystemDefault
    ensures s.CustomUri? ==> r.ringtoneUri == Some(s.uri)
  {
    if r.ringtone == VibrateOnly then Silent
    else
      match r.ringtoneUri
      case Some(uri) =>
        if uri != "" && uri != SystemDefault then CustomUri(uri) else DefaultAlarm
      case None => DefaultAlarm
  }

  /** The dedup key `f"{idx}_{HH}{MM}_{date}"`, kept as the tuple it encodes. */
  datatype Key = Key(index: nat, hour: int, minute: int, date: int)

  /** The key of reminder `i` fired at `now`: a firing reminder's hour and
      minute are now's. */
  function KeyAt(i: nat, now: Instant): Key {
    Key(i, now.time.hour, now.time.minute, now.date)
  }

  /** The three filters of the loop: enabled, scheduled today, due this minute. */
  predicate Matches(r: Reminder, now: Instant)
    requires ValidInstant(now)
  {
    r.enabled && Weekday(now.date) in r.days && r.hour == now.time.hour && r.minute == now.time.minute
  }

  /** Reminder `i` fires at `now` when it matches and its key is not yet in `done`. */
  predicate Fires(reminders: seq<Reminder>, i: nat, now: Instant, done: set<Key>)
    requires ValidInstant(now) && i < |reminders|
  {
    Matches(reminders[i], now) && KeyAt(i, now) !in done
  }

  /** The indices one pass fires, in list order, given the keys already in `done`. */
  function Due(reminders: seq<Reminder>, now: Instant, done: set<Key>): (due: seq<nat>)
    requires ValidInstant(now)
    ensures forall k :: 0 <= k < |due| ==> due[k] < |reminders|
    ensures forall k, l :: 0 <= k < l < |due| ==> due[k] < due[l]
  {
    if reminders == [] then []
    else
      var n := |reminders| - 1;
      Due(reminders[..n], now, done) + (if Fires(reminders, n, now, done) then [n] else [])
  }

  /** The keys of the reminders fired at `now`. */
  function KeysOf(fired: seq<nat>, now: Instant): set<Key> {
    set i | i in fired :: KeyAt(i, now)
  }

  /** Extending the list by one reminder extends the pass by at most that reminder. */
  lemma DueStep(reminders: seq<Reminder>, n: nat, now: Instant, done: set<Key>)
    requires ValidInstant(now) && n < |reminders|
    ensures Due(reminders[..n + 1], now, done) ==
      Due(reminders[..n], now, done) + (if Fires(reminders, n, now, done) then [n] else [])
  {
    var p := reminders[..n + 1];
    assert p[..n] == reminders[..n];
    assert p[n] == reminders[n];
  }

  lemma KeysOfAppend(fired: seq<nat>, i: nat, now: Instant)
    ensures KeysOf(fired + [i], now) == KeysOf(fired, now) + {KeyAt(i, now)}
  {
  }

  /** Keys are told apart by their index, so a pass never meets a later reminder's key. */
  lemma KeyNotAmongEarlier(fired: seq<nat>, i: nat, now: Instant)
    requires forall k :: 0 <= k < |fired| ==> fired[k] < i
    ensures KeyAt(i, now) !in KeysOf(fired, now)
  {
  }

  /** A reminder is fired by a pass exactly when it matches and its key is new. */
  lemma {:induction false} DueMember(reminders: seq<Reminder>, now: Instant, done: set<Key>, i: nat)
    requires ValidInstant(now)
    ensures i in Due(reminders, now, done) <==> i < |reminders| && Fires(reminders, i, now, done)
  {
    if reminders != [] {
      var n := |reminders| - 1;
      DueMember(reminders[..n], now, done, i);
      if i < n {
        assert reminders[..n][i] == reminders[i];
      }
    }
  }

  /** A pass adds the key of reminder `i` exactly when it fires reminder `i`. */
  lemma DueKeyMember(reminders: seq<Reminder>, now: Instant, done: set<Key>, i: nat)
    requires ValidInstant(now)
    ensures KeyAt(i, now) in KeysOf(Due(reminders, now, done), now) <==> i < |reminders| && Fires(reminders, i, now, done)
  {
    DueMember(reminders, now, done, i);
  }

  /** A disabled reminder, or one not scheduled on today's weekday, never fires
      and never adds its key. */
  lemma SkippedNeverFires(reminders: seq<Reminder>, now: Instant, done: set<Key>, i: nat)
    requires ValidInstant(now) && i < |reminders|
    requires !reminders[i].enabled || Weekday(now.date) !in reminders[i].days
    ensures i !in Due(reminders, now, done)
    ensures KeyAt(i, now) !in KeysOf(Due(reminders, now, done), now)
  {
    DueKeyMember(reminders, now, done, i);
    DueMember(reminders, now, done, i);
  }

  /** The default `days` schedules a reminder on every weekday, so a record
      without `days` is skipped only when disabled or off its minute. */
  lemma DefaultDaysEveryWeekday(now: Instant)
    requires ValidInstant(now)
    ensures Weekday(now.date) in AllWeekdays
  {
    var d := Weekday(now.date);
    assert AllWeekdays[d] == d;
  }

  /** A reminder fires only in the minute its hour and minute name; in particular
      one whose stored hour or minute is out of range never fires. */
  lemma FiresOnlyAtItsMinute(reminders: seq<Reminder>, now: Instant, done: set<Key>, i: nat)
    requires ValidInstant(now)
    requires i in Due(reminders, now, done)
    ensures i < |reminders| && reminders[i].hour == now.time.hour && reminders[i].minute == now.time.minute
    ensures 0 <= reminders[i].hour < 24 && 0 <= reminders[i].minute < 60
  {
    DueMember(reminders, now, done, i);
  }

  /** At most once per key: once a pass has fired reminder `i` and recorded its
      key, no later pass with that key recorded fires `i` again under the same
      key, whatever list it reads. */
  lemma AtMostOncePerKey(
    reminders: seq<Reminder>, now: Instant, done: set<Key>,
    later: seq<Reminder>, when: Instant, laterDone: set<Key>, i: nat)
    requires ValidInstant(now) && ValidInstant(when)
    requires i in Due(reminders, now, done)
    requires done + KeysOf(Due(reminders, now, done), now) <= laterDone
    requires KeyAt(i, when) == KeyAt(i, now)
    ensures i !in Due(later, when, laterDone)
  {
    DueKeyMember(reminders, now, done, i);
    DueMember(reminders, now, done, i);
    DueMember(later, when, laterDone, i);
  }

  /** The poller's state: the dedup keys fired so far and the minute of day of the
      last check that got past the guard (-1 before the first). */
  class ReminderService {
    var triggered: set<Key>
    var lastCheckMinute: int

    /** The guard is -1 or a minute of the day, and a check at 00:00 always
        leaves the set empty. */
    ghost predicate Valid()
      reads this
    {
      -1 <= lastCheckMinute < MinutesPerDay && (lastCheckMinute == 0 ==> triggered == {})
    }

    constructor ()
      ensures Valid()
      ensures triggered == {} && lastCheckMinute == -1
    {
      triggered := {};
      lastCheckMinute := -1;
    }

    /** `check_reminders` at `now`, over the reminders the file holds. A second
        call in the same minute returns at once; otherwise the guard moves to
        this minute, every matching reminder whose key is new fires and has its
        key recorded, and at 00:00 the set is emptied after the pass. */
    method CheckReminders(now: Instant, reminders: seq<Reminder>) returns (fired: seq<nat>)
      requires Valid() && ValidInstant(now)
      modifies this
      ensures Valid()
      ensures lastCheckMinute == MinuteOfDay(now.time)
      ensures MinuteOfDay(now.time) == old(lastCheckMinute) ==>
        fired == [] && triggered == old(triggered)
      ensures MinuteOfDay(now.time) != old(lastCheckMinute) ==>
        && fired == Due(reminders, now, old(triggered))
        && triggered == if IsMidnight(now.time) then {} else old(triggered) + KeysOf(fired, now)
      ensures IsMidnight(now.time) ==> triggered == {}
      ensures !IsMidnight(now.time) ==> old(triggered) <= triggered
    {
      var currentMinute := now.time.hour * 60 + now.time.minute;
      if currentMinute == lastCheckMinute {
        return [];
      }
      lastCheckMinute := currentMinute;
      var currentDay := Weekday(now.date);
      fired := [];
      ghost var done := triggered;
      var idx := 0;
      while idx < |reminders|
        invariant 0 <= idx <= |reminders|
        invariant lastCheckMinute == currentMinute
        invariant fired == Due(reminders[..idx], now, done)
        invariant triggered == done + KeysOf(fired, now)
      {
        DueStep(reminders, idx, now, done);
        var r := reminders[idx];
        if r.enabled && currentDay in r.days && r.hour == now.time.hour && r.minute == now.time.minute {
          var key := Key(idx, r.hour, r.minute, now.date);
          KeyNotAmongEarlier(fired, idx, now);
          if key !in triggered {
            KeysOfAppend(fired, idx, now);
            fired := fired + [idx];
            triggered := triggered + {key};
          }
        }
        idx := idx + 1;
      }
      assert reminders[..idx] == reminders;
      if now.time.hour == 0 && now.time.minute == 0 {
        triggered := {};
      }
    }
  }
}

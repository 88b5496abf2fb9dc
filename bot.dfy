/**
 * The computational side of the administrator's chat commands: who may
 * command, which numbers a parsed command may carry, how a weekday word turns
 * into the next such date, and the two handlers that drive the slot store
 * (building a week of hours and booking a run of hours).
 *
 * Dates are abstract day numbers: day `d` falls on weekday `d % 7`, with 0 a
 * Sunday as in JavaScript's `getDay`, and the calendar key of a day is given
 * by the caller as `dateKeyOf`.
 */
module Bot {
  import opened Wrappers
  import opened JsText
  import opened Types
  import opened ScheduleSpec
  import opened ScheduleProofs
  import opened Schedule

  // ---- Access ----

  /**
   * `isAdmin(chatId)`: with no administrator configured (unset, or a value
   * JavaScript finds falsy such as 0 or NaN, all `None` or `Some(0)` here)
   * every chat may command; otherwise only the administrator's chat.
   */
  function IsAdmin(chatId: int, adminId: Option<int>): (r: bool)
    ensures adminId.None? || adminId.value == 0 ==> r
    ensures adminId.Some? && adminId.value != 0 ==> (r <==> chatId == adminId.value)
  {
    match adminId
    case None => true
    case Some(a) => a == 0 || chatId == a
  }

  // ---- Command parsing, after the pattern has extracted the fields ----

  datatype Week = ThisWeek | NextWeek

  datatype ScheduleCommand = ScheduleCommand(week: Week, startHour: int, endHour: int)

  /**
   * The range check of `parseScheduleCommand`: the word `эту` ("this") picks
   * the current week and any other the next one; the hours are accepted only
   * when the first lies in a day and the second after it, at most midnight.
   */
  function ParseScheduleCommand(weekWord: string, startHour: int, endHour: int): (r: Option<ScheduleCommand>)
    ensures r.Some? <==> 0 <= startHour < 24 && startHour < endHour <= 24
    ensures r.Some? ==> r.value.startHour == startHour && r.value.endHour == endHour
    ensures r.Some? ==> (r.value.week == ThisWeek <==> weekWord == "эту")
  {
    if startHour < 0 || startHour >= 24 || endHour <= startHour || endHour > 24 then None
    else Some(ScheduleCommand(if weekWord == "эту" then ThisWeek else NextWeek, startHour, endHour))
  }

  datatype BookingCommand = BookingCommand(dayName: string, hour: int, minutes: int, duration: int)

  /**
   * The range check of `parseBookingCommand`: a booking starts on a whole
   * hour of the day and lasts at least one hour.
   */
  function ParseBookingCommand(dayName: string, hour: int, minutes: int, duration: int): (r: Option<BookingCommand>)
    ensures r.Some? <==> 0 <= hour < 24 && minutes == 0 && 1 <= duration
    ensures r.Some? ==> r.value == BookingCommand(dayName, hour, minutes, duration)
  {
    if hour < 0 || hour >= 24 || minutes != 0 || duration < 1 then None
    else Some(BookingCommand(dayName, hour, minutes, duration))
  }

  // ---- Weekdays ----

  function Weekday(day: int): (w: int)
    ensures 0 <= w < 7
  {
    day % 7
  }

  /** Moving `k` days on from `day` moves its weekday on by `k`. */
  lemma WeekdayShift(day: int, k: int)
    ensures Weekday(day + k) == Weekday(Weekday(day) + k)
  {
    var q := day / 7;
    assert day == 7 * q + Weekday(day);
    assert day + k == 7 * q + (Weekday(day) + k);
  }

  const WeekdaysFull: seq<string> :=
    ["воскресенье", "понедельник", "вторник", "среда", "четверг", "пятница", "суббота"]

  /**
   * The `dayMap` table: the grammatical forms of the weekday names the
   * command understands, each with its weekday.
   */
  function DayForm(word: string): (r: Option<int>)
    ensures r.Some? ==> 0 <= r.value < 7
  {
    match word
    case "понедельник" => Some(1) case "понедельника" => Some(1) case "понедельнику" => Some(1) case "понедельником" => Some(1)
    case "вторник" => Some(2) case "вторника" => Some(2) case "вторнику" => Some(2) case "вторником" => Some(2)
    case "среда" => Some(3) case "среды" => Some(3) case "среде" => Some(3) case "средой" => Some(3)
    case "четверг" => Some(4) case "четверга" => Some(4) case "четвергу" => Some(4) case "четвергом" => Some(4)
    case "пятница" => Some(5) case "пятницы" => Some(5) case "пятнице" => Some(5) case "пятницей" => Some(5) case "пятницу" => Some(5)
    case "суббота" => Some(6) case "субботы" => Some(6) case "субботе" => Some(6) case "субботой" => Some(6) case "субботу" => Some(6)
    case "воскресенье" => Some(0) case "воскресенья" => Some(0) case "воскресенью" => Some(0) case "воскресеньем" => Some(0)
    case _ => None
  }

  /** The table agrees with the list of full day names: each full name maps to its own position. */
  lemma DayFormsAgree()
    ensures forall i :: 0 <= i < |WeekdaysFull| ==> DayForm(WeekdaysFull[i]) == Some(i)
  {
    assert DayForm(WeekdaysFull[0]) == Some(0);
    assert DayForm(WeekdaysFull[1]) == Some(1);
    assert DayForm(WeekdaysFull[2]) == Some(2);
    assert DayForm(WeekdaysFull[3]) == Some(3);
    assert DayForm(WeekdaysFull[4]) == Some(4);
    assert DayForm(WeekdaysFull[5]) == Some(5);
    assert DayForm(WeekdaysFull[6]) == Some(6);
  }

  /** `findIndex((d) => d.startsWith(word))` over `names[from..]`, as a position in `names`. */
  function FirstWithPrefix(names: seq<string>, word: string, from: nat): (r: Option<nat>)
    requires from <= |names|
    ensures r.Some? ==> from <= r.value < |names| && word <= names[r.value]
    ensures r.Some? ==> forall j :: from <= j < r.value ==> !(word <= names[j])
    ensures r.None? ==> forall j :: from <= j < |names| ==> !(word <= names[j])
    decreases |names| - from
  {
    if from == |names| then None
    else if word <= names[from] then Some(from)
    else FirstWithPrefix(names, word, from + 1)
  }

  /**
   * The weekday a day word names: its entry in the table of forms, or else
   * the first full day name (Sunday first) that begins with it, or none.
   */
  function ResolveWeekday(word: string): (r: Option<int>)
    ensures r.Some? ==> 0 <= r.value < 7
    ensures DayForm(word).Some? ==> r == DayForm(word)
    ensures DayForm(word).None? ==>
              (r.None? <==> forall i :: 0 <= i < 7 ==> !(word <= WeekdaysFull[i]))
    ensures DayForm(word).None? && r.Some? ==>
              word <= WeekdaysFull[r.value] && forall j :: 0 <= j < r.value ==> !(word <= WeekdaysFull[j])
  {
    if DayForm(word).Some? then DayForm(word)
    else FirstWithPrefix(WeekdaysFull, word, 0)
  }

  /**
   * The `daysUntil` offset of `getNextWeekday`: the first day strictly after
   * today that falls on the target weekday is between one and seven days
   * away, a whole week when the target is today's own weekday.
   */
  function DaysUntil(target: int, current: int): (r: int)
    requires 0 <= target < 7 && 0 <= current < 7
    ensures 1 <= r <= 7
    ensures Weekday(current + r) == target
    ensures forall d :: current < d < current + r ==> Weekday(d) != target
    ensures r == 7 <==> target == current
  {
    var d := target - current;
    if d <= 0 then d + 7 else d
  }

  /**
   * The date arithmetic of `getNextWeekday`: the first day strictly after
   * `today` that falls on weekday `target`, at most a week ahead.
   */
  function NextOn(today: int, target: int): (r: int)
    requires 0 <= target < 7
    ensures today < r <= today + 7 && Weekday(r) == target
    ensures forall d :: today < d < r ==> Weekday(d) != target
  {
    var current := Weekday(today);
    var r := today + DaysUntil(target, current);
    WeekdayShift(today, r - today);
    assert forall d :: today < d < r ==> Weekday(d) != target by {
      forall d | today < d < r ensures Weekday(d) != target {
        WeekdayShift(today, d - today);
        assert current < current + (d - today) < current + (r - today);
      }
    }
    r
  }

  /** `getNextWeekday(word)` from day `today`: the next day after today on the weekday the word names. */
  function NextWeekday(today: int, word: string): (r: Option<int>)
    ensures r.None? <==> ResolveWeekday(word).None?
    ensures r.Some? ==> today < r.value <= today + 7 && Weekday(r.value) == ResolveWeekday(word).value
    ensures r.Some? ==> forall d :: today < d < r.value ==> Weekday(d) != ResolveWeekday(word).value
  {
    match ResolveWeekday(word)
    case None => None
    case Some(target) => Some(NextOn(today, target))
  }

  // ---- The accusative forms ----

  /**
   * The forms a booking command uses after `в` ("on"): the accusative of each
   * weekday name, Sunday first.
   */
  const WeekdaysAccusative: seq<string> :=
    ["воскресенье", "понедельник", "вторник", "среду", "четверг", "пятницу", "субботу"]

  /**
   * As written, the table lacks `среду`, the accusative of Wednesday, and no
   * full day name begins with it; so "в среду бронь ..." names no weekday,
   * while every other accusative finds its day.
   */
  lemma WednesdayAccusativeUnresolved(today: int)
    ensures NextWeekday(today, WeekdaysAccusative[3]).None?
    ensures forall i :: 0 <= i < 7 && i != 3 ==> NextWeekday(today, WeekdaysAccusative[i]) == Some(NextOn(today, i))
  {
    var w := WeekdaysAccusative[3];
    assert DayForm(w).None?;
    assert w[4] != WeekdaysFull[3][4];
    forall i | 0 <= i < 7 ensures !(w <= WeekdaysFull[i]) {
      if i != 3 {
        assert w[0] != WeekdaysFull[i][0] || w[1] != WeekdaysFull[i][1] || |WeekdaysFull[i]| < |w|;
      }
    }
    assert DayForm(WeekdaysAccusative[0]) == Some(0);
    assert DayForm(WeekdaysAccusative[1]) == Some(1);
    assert DayForm(WeekdaysAccusative[2]) == Some(2);
    assert DayForm(WeekdaysAccusative[4]) == Some(4);
    assert DayForm(WeekdaysAccusative[5]) == Some(5);
    assert DayForm(WeekdaysAccusative[6]) == Some(6);
  }

  /** The table of forms with the missing accusative `среду` added. */
  function DayFormCorrected(word: string): (r: Option<int>)
    ensures r.Some? ==> 0 <= r.value < 7
    ensures word != "среду" ==> r == DayForm(word)
  {
    if word == "среду" then Some(3) else DayForm(word)
  }

  /** `ResolveWeekday` over the corrected table. */
  function ResolveWeekdayCorrected(word: string): (r: Option<int>)
    ensures r.Some? ==> 0 <= r.value < 7
    ensures DayFormCorrected(word).Some? ==> r == DayFormCorrected(word)
    ensures DayFormCorrected(word).None? ==> r == ResolveWeekday(word)
  {
    if DayFormCorrected(word).Some? then DayFormCorrected(word)
    else FirstWithPrefix(WeekdaysFull, word, 0)
  }

  /** `NextWeekday` over the corrected table. */
  function NextWeekdayCorrected(today: int, word: string): (r: Option<int>)
    ensures r.None? <==> ResolveWeekdayCorrected(word).None?
    ensures r.Some? ==> today < r.value <= today + 7 && Weekday(r.value) == ResolveWeekdayCorrected(word).value
    ensures r.Some? ==> forall d :: today < d < r.value ==> Weekday(d) != ResolveWeekdayCorrected(word).value
  {
    match ResolveWeekdayCorrected(word)
    case None => None
    case Some(target) => Some(NextOn(today, target))
  }

  /**
   * With the correction every accusative form finds its own weekday, and every
   * word the table already knew resolves as before.
   */
  lemma AccusativesResolve(today: int)
    ensures forall i :: 0 <= i < 7 ==> NextWeekdayCorrected(today, WeekdaysAccusative[i]) == Some(NextOn(today, i))
    ensures forall w :: w != "среду" ==> NextWeekdayCorrected(today, w) == NextWeekday(today, w)
  {
    assert DayFormCorrected(WeekdaysAccusative[0]) == Some(0);
    assert DayFormCorrected(WeekdaysAccusative[1]) == Some(1);
    assert DayFormCorrected(WeekdaysAccusative[2]) == Some(2);
    assert DayFormCorrected(WeekdaysAccusative[3]) == Some(3);
    assert DayFormCorrected(WeekdaysAccusative[4]) == Some(4);
    assert DayFormCorrected(WeekdaysAccusative[5]) == Some(5);
    assert DayFormCorrected(WeekdaysAccusative[6]) == Some(6);
  }

  // ---- The week builder ----

  /** The days of `[base, base + n)` that are not Sundays, in order. */
  function WorkDays(base: int, n: nat): seq<int>
  {
    if n == 0 then []
    else WorkDays(base, n - 1) + (if Weekday(base + (n - 1)) == 0 then [] else [base + (n - 1)])
  }

  /** The store after `addDaySlots` for each day of `WorkDays(base, n)`, in order. */
  function BuildWeek(m: Buckets, dateKeyOf: int -> string, base: int, n: nat, start: int, end: int): Buckets
  {
    if n == 0 then m
    else
      var m1 := BuildWeek(m, dateKeyOf, base, n - 1, start, end);
      if Weekday(base + (n - 1)) == 0 then m1 else AddHours(m1, dateKeyOf(base + (n - 1)), start, end)
  }

  lemma WorkDaysStep(base: int, i: nat)
    ensures WorkDays(base, i + 1) == WorkDays(base, i) + (if Weekday(base + i) == 0 then [] else [base + i])
  {
  }

  lemma BuildWeekSkip(m: Buckets, dateKeyOf: int -> string, base: int, i: nat, start: int, end: int)
    requires Weekday(base + i) == 0
    ensures BuildWeek(m, dateKeyOf, base, i + 1, start, end) == BuildWeek(m, dateKeyOf, base, i, start, end)
  {
  }

  lemma BuildWeekFill(m: Buckets, dateKeyOf: int -> string, base: int, i: nat, start: int, end: int)
    requires Weekday(base + i) != 0
    ensures BuildWeek(m, dateKeyOf, base, i + 1, start, end) ==
              AddHours(BuildWeek(m, dateKeyOf, base, i, start, end), dateKeyOf(base + i), start, end)
  {
  }

  /** The days `WorkDays` lists are exactly the non-Sundays of the range. */
  lemma {:induction false} WorkDaysMembers(base: int, n: nat)
    ensures forall d :: d in WorkDays(base, n) <==> base <= d < base + n && Weekday(d) != 0
  {
    if n > 0 {
      WorkDaysMembers(base, n - 1);
      WorkDaysStep(base, n - 1);
    }
  }

  /** Any seven consecutive days hold exactly one Sunday, so six working days. */
  lemma OneSundayAWeek(base: int)
    ensures |WorkDays(base, 7)| == 6
  {
    var sunday := (7 - Weekday(base)) % 7;
    forall d | base <= d < base + 7 ensures Weekday(d) == 0 <==> d == base + sunday {
      WeekdayShift(base, d - base);
    }
    WorkDaysStep(base, 0);
    WorkDaysStep(base, 1);
    WorkDaysStep(base, 2);
    WorkDaysStep(base, 3);
    WorkDaysStep(base, 4);
    WorkDaysStep(base, 5);
    WorkDaysStep(base, 6);
  }

  /** An hour the week builder covers: some working day's hour of `[start, end)`. */
  ghost predicate IsWeekHour(dt: string, dateKeyOf: int -> string, base: int, n: nat, start: int, end: int)
  {
    exists d :: base <= d < base + n && Weekday(d) != 0 && IsHourOf(dt, dateKeyOf(d), start, end)
  }

  lemma IsWeekHourStep(dt: string, dateKeyOf: int -> string, base: int, i: nat, start: int, end: int)
    ensures IsWeekHour(dt, dateKeyOf, base, i + 1, start, end) <==>
              IsWeekHour(dt, dateKeyOf, base, i, start, end) ||
              (Weekday(base + i) != 0 && IsHourOf(dt, dateKeyOf(base + i), start, end))
  {
    if IsWeekHour(dt, dateKeyOf, base, i + 1, start, end) && !IsWeekHour(dt, dateKeyOf, base, i, start, end) {
      var d :| base <= d < base + (i + 1) && Weekday(d) != 0 && IsHourOf(dt, dateKeyOf(d), start, end);
      assert d == base + i;
    }
  }

  lemma {:induction false} BuildWeekWellFormed(m: Buckets, dateKeyOf: int -> string, base: int, n: nat, start: int, end: int)
    requires WellFormed(m)
    ensures WellFormed(BuildWeek(m, dateKeyOf, base, n, start, end))
  {
    if n > 0 {
      var i := n - 1;
      BuildWeekWellFormed(m, dateKeyOf, base, i, start, end);
      if Weekday(base + i) != 0 {
        BuildWeekFill(m, dateKeyOf, base, i, start, end);
        AddHoursWellFormed(BuildWeek(m, dateKeyOf, base, i, start, end), dateKeyOf(base + i), start, end);
      } else {
        BuildWeekSkip(m, dateKeyOf, base, i, start, end);
      }
    }
  }

  /**
   * After the week builder every covered hour holds a one-hour available slot
   * that keeps the note it had before; every other datetime is as it was.
   */
  lemma {:induction false} BuildWeekFind(m: Buckets, dateKeyOf: int -> string, base: int, n: nat, start: int, end: int, dt: string)
    requires WellFormed(m)
    ensures Find(BuildWeek(m, dateKeyOf, base, n, start, end), dt) ==
              if IsWeekHour(dt, dateKeyOf, base, n, start, end) then Some(Slot(dt, 1, Available, NoteOf(Find(m, dt))))
              else Find(m, dt)
  {
    if n > 0 {
      var i := n - 1;
      BuildWeekFind(m, dateKeyOf, base, i, start, end, dt);
      IsWeekHourStep(dt, dateKeyOf, base, i, start, end);
      var m1 := BuildWeek(m, dateKeyOf, base, i, start, end);
      if Weekday(base + i) != 0 {
        BuildWeekFill(m, dateKeyOf, base, i, start, end);
        BuildWeekWellFormed(m, dateKeyOf, base, i, start, end);
        AddHoursFind(m1, dateKeyOf(base + i), start, end, dt);
      } else {
        BuildWeekSkip(m, dateKeyOf, base, i, start, end);
      }
    }
  }

  /** The running total the week builder reports after `n` filled days of `hours` hours each. */
  function Total(n: nat, hours: int): int
  {
    if n == 0 then 0 else Total(n - 1, hours) + hours
  }

  lemma {:induction false} TotalIsProduct(n: nat, hours: int)
    ensures Total(n, hours) == n * hours
  {
    if n > 0 {
      TotalIsProduct(n - 1, hours);
      assert n * hours == (n - 1) * hours + hours;
    }
  }

  /** The first day of the week a schedule command fills: today, or a week later for the next week. */
  function WeekStart(today: int, week: Week): (base: int)
    ensures base == today || base == today + 7
    ensures week == NextWeek <==> base == today + 7
  {
    if week == NextWeek then today + 7 else today
  }

  /**
   * `handleScheduleCommand`: for each of the seven days from the week's
   * first, Sundays skipped, fills the day with the command's hours and adds
   * their number to the reported total. It returns the days it filled.
   */
  method HandleScheduleCommand(store: SlotStore, cmd: ScheduleCommand, today: int, dateKeyOf: int -> string)
    returns (totalAdded: int, daysAdded: seq<int>)
    requires store.Valid()
    modifies store
    ensures store.Valid()
    ensures var base := WeekStart(today, cmd.week);
            store.buckets == BuildWeek(old(store.buckets), dateKeyOf, base, 7, cmd.startHour, cmd.endHour) &&
            daysAdded == WorkDays(base, 7) &&
            (forall d :: d in daysAdded <==> base <= d < base + 7 && Weekday(d) != 0)
    ensures |daysAdded| == 6
    ensures totalAdded == 6 * (cmd.endHour - cmd.startHour)
  {
    var base := WeekStart(today, cmd.week);
    var hours := cmd.endHour - cmd.startHour;
    ghost var m0 := store.buckets;
    totalAdded := 0;
    daysAdded := [];
    for i := 0 to 7
      invariant store.Valid()
      invariant store.buckets == BuildWeek(m0, dateKeyOf, base, i, cmd.startHour, cmd.endHour)
      invariant daysAdded == WorkDays(base, i)
      invariant totalAdded == Total(|daysAdded|, hours)
    {
      WorkDaysStep(base, i);
      var d := base + i;
      if Weekday(d) == 0 {
        BuildWeekSkip(m0, dateKeyOf, base, i, cmd.startHour, cmd.endHour);
        continue;
      }
      BuildWeekFill(m0, dateKeyOf, base, i, cmd.startHour, cmd.endHour);
      var dateKey := dateKeyOf(d);
      var _ := store.AddDaySlots(dateKey, cmd.startHour, cmd.endHour);
      totalAdded := totalAdded + hours;
      daysAdded := daysAdded + [d];
    }
    OneSundayAWeek(base);
    WorkDaysMembers(base, 7);
    TotalIsProduct(6, hours);
  }

  // ---- The booking command ----

  datatype BookingOutcome =
    | UnknownDay
    | NothingBooked(day: int)
    | BookedHours(day: int, count: nat)

  const BookingNote := "Бронь"

  /**
   * `handleBookingCommand`, with the day word resolved through the corrected
   * table (so `среду` names Wednesday): an unrecognised day word changes
   * nothing; otherwise the hours `[hour, hour + duration)` of the next such day are
   * marked booked with the note "Бронь", and the command reports failure
   * exactly when none of those hours had a slot.
   */
  method HandleBookingCommand(store: SlotStore, cmd: BookingCommand, today: int, dateKeyOf: int -> string)
    returns (outcome: BookingOutcome)
    requires store.Valid()
    modifies store
    ensures store.Valid()
    ensures NextWeekdayCorrected(today, cmd.dayName).None? ==> outcome == UnknownDay && store.buckets == old(store.buckets)
    ensures NextWeekdayCorrected(today, cmd.dayName).Some? ==>
              var day := NextWeekdayCorrected(today, cmd.dayName).value;
              var key := dateKeyOf(day);
              var end := cmd.hour + cmd.duration;
              !outcome.UnknownDay? && outcome.day == day &&
              store.buckets == BookHours(old(store.buckets), key, cmd.hour, end, Some(BookingNote)).0 &&
              (outcome.NothingBooked? <==>
                 forall h :: cmd.hour <= h < end ==> Find(old(store.buckets), HourDateTime(key, h)).None?) &&
              (outcome.BookedHours? ==>
                 outcome.count == |HoursWithSlot(old(store.buckets), key, cmd.hour, end)| &&
                 outcome.count <= cmd.duration)
  {
    var target := NextWeekdayCorrected(today, cmd.dayName);
    if target.None? {
      return UnknownDay;
    }
    var day := target.value;
    var dateKey := dateKeyOf(day);
    ghost var m0 := store.buckets;
    BookHoursNothingBooked(m0, dateKey, cmd.hour, cmd.hour + cmd.duration, Some(BookingNote));
    var count := store.BookRange(dateKey, cmd.hour, cmd.duration, Some(BookingNote));
    assert count == 0 <==>
           forall h :: cmd.hour <= h < cmd.hour + cmd.duration ==> Find(m0, HourDateTime(dateKey, h)).None?;
    if count == 0 {
      return NothingBooked(day);
    }
    return BookedHours(day, count);
  }
}

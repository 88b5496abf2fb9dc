/**
 * The in-memory schedule of `backend/src/services/schedule.ts`: one map from
 * date key ("YYYY-MM-DD") to the slots of that day, which every exported
 * function reads or updates in place. Each operation here is proved to leave
 * exactly the state given by its value semantics in module ScheduleSpec, and
 * module ScheduleProofs says what those states mean.
 */
module Schedule {
  import opened Wrappers
  import opened JsText
  import opened Types
  import opened ScheduleSpec
  import opened ScheduleProofs

  /** One entry of `getAllSlots()`. */
  datatype DaySlots = DaySlots(dateKey: string, slots: seq<Slot>)

  class SlotStore {
    /** The module-level `schedule` map. */
    var buckets: Buckets

    ghost predicate Valid()
      reads this
    {
      WellFormed(buckets)
    }

    constructor()
      ensures Valid() && buckets == map[]
    {
      buckets := map[];
    }

    /** `getSlotsForDate(dateKey)`: the day's slots, ascending, or none. */
    function SlotsForDate(dateKey: string): (r: seq<Slot>)
      reads this
      requires Valid()
      ensures r == [] <==> dateKey !in buckets
      ensures SortedByDateTime(r)
      ensures forall x :: x in r <==> DateKeyOf(x.datetime) == dateKey && Find(buckets, x.datetime) == Some(x)
    {
      var r := Bucket(buckets, dateKey);
      forall x: Slot | DateKeyOf(x.datetime) == dateKey && Find(buckets, x.datetime) == Some(x) ensures x in r {
        FindSpec(buckets, x.datetime, x);
      }
      forall x | x in r ensures DateKeyOf(x.datetime) == dateKey && Find(buckets, x.datetime) == Some(x) {
        var j :| 0 <= j < |r| && r[j] == x;
        FindSpec(buckets, x.datetime, x);
      }
      r
    }

    /** `getSlotsForDateFull(dateKey)`: a copy of the day's slots with all four fields. */
    function SlotsForDateFull(dateKey: string): (r: seq<Slot>)
      reads this
      requires Valid()
      ensures r == SlotsForDate(dateKey)
    {
      var s := Bucket(buckets, dateKey);
      seq(|s|, i requires 0 <= i < |s| => Slot(s[i].datetime, s[i].duration, s[i].status, s[i].note))
    }

    /** `getAllSlots()`: every day with a copy of its slots, in ascending date order. */
    method AllSlots() returns (days: seq<DaySlots>)
      ensures |days| == |buckets|
      ensures forall i, j :: 0 <= i < j < |days| ==> Less(days[i].dateKey, days[j].dateKey)
      ensures forall i :: 0 <= i < |days| ==> days[i].dateKey in buckets && days[i].slots == buckets[days[i].dateKey]
      ensures forall k :: k in buckets ==> exists i :: 0 <= i < |days| && days[i].dateKey == k
    {
      var keys := SortKeys(buckets.Keys);
      days := [];
      for i := 0 to |keys|
        invariant |days| == i
        invariant forall j :: 0 <= j < i ==> days[j] == DaySlots(keys[j], buckets[keys[j]])
      {
        days := days + [DaySlots(keys[i], buckets[keys[i]])];
      }
      forall k | k in buckets ensures exists i :: 0 <= i < |days| && days[i].dateKey == k {
        var i :| 0 <= i < |keys| && keys[i] == k;
        assert days[i].dateKey == k;
      }
    }

    /**
     * `addSlot(datetime, duration, status, note)`: updates the slot already at
     * `datetime` (its status and duration, and its note when one is given), or
     * inserts a new slot in datetime order; returns the slot now stored there.
     */
    method AddSlot(datetime: string, duration: int := 1, status: SlotStatus := Available, note: Option<string> := None)
      returns (slot: Slot)
      requires Valid()
      modifies this
      ensures Valid()
      ensures buckets == Upsert(old(buckets), datetime, duration, status, note)
      ensures slot == Upserted(Find(old(buckets), datetime), datetime, duration, status, note)
      ensures Find(buckets, datetime) == Some(slot)
    {
      UpsertFind(buckets, datetime, duration, status, note, datetime);
      var dateKey := DateKeyOf(datetime);
      var slots := Bucket(buckets, dateKey);
      match IndexOf(slots, datetime) {
        case Some(i) =>
          slot := Upserted(Some(slots[i]), datetime, duration, status, note);
          buckets := buckets[dateKey := slots[i := slot]];
        case None =>
          slot := Upserted(None, datetime, duration, status, note);
          buckets := buckets[dateKey := InsertSlot(slots, slot)];
      }
    }

    /** `removeSlot(datetime)`: removes the slot at `datetime`, and its day when that empties it. */
    method RemoveSlot(datetime: string) returns (removed: bool)
      requires Valid()
      modifies this
      ensures Valid()
      ensures (buckets, removed) == Remove(old(buckets), datetime)
      ensures removed == Find(old(buckets), datetime).Some?
      ensures Find(buckets, datetime).None?
    {
      RemoveWellFormed(buckets, datetime);
      RemoveFind(buckets, datetime, datetime);
      var dateKey := DateKeyOf(datetime);
      if dateKey !in buckets {
        return false;
      }
      var slots := buckets[dateKey];
      match IndexOf(slots, datetime) {
        case None =>
          return false;
        case Some(idx) =>
          slots := slots[..idx] + slots[idx + 1..];
          if slots == [] {
            buckets := buckets - {dateKey};
          } else {
            buckets := buckets[dateKey := slots];
          }
          return true;
      }
    }

    /**
     * `setSlotStatus(datetime, status, note)`: sets the status (and the note
     * when one is given) of the slot at `datetime`; `None` when there is none.
     */
    method SetSlotStatus(datetime: string, status: SlotStatus, note: Option<string>) returns (slot: Option<Slot>)
      requires Valid()
      modifies this
      ensures Valid()
      ensures buckets == SetStatus(old(buckets), datetime, status, note).0
      ensures slot == SetStatus(old(buckets), datetime, status, note).1
      ensures slot == if Find(old(buckets), datetime).Some?
                      then Some(Restatus(Find(old(buckets), datetime).value, status, note)) else None
      ensures buckets.Keys == old(buckets).Keys
    {
      SetStatusFind(buckets, datetime, status, note, datetime);
      var dateKey := DateKeyOf(datetime);
      if dateKey !in buckets {
        return None;
      }
      var slots := buckets[dateKey];
      match IndexOf(slots, datetime) {
        case None =>
          return None;
        case Some(i) =>
          var x := Restatus(slots[i], status, note);
          buckets := buckets[dateKey := slots[i := x]];
          return Some(x);
      }
    }

    /**
     * `addDaySlots(dateKey, startHour, endHour)`: one one-hour available slot
     * per hour of `[startHour, endHour)`, each returned as stored.
     */
    method AddDaySlots(dateKey: string, startHour: int, endHour: int) returns (added: seq<Slot>)
      requires Valid()
      modifies this
      ensures Valid()
      ensures buckets == AddHours(old(buckets), dateKey, startHour, endHour)
      ensures added == AddedHours(old(buckets), dateKey, startHour, endHour)
    {
      ghost var m0 := buckets;
      added := [];
      var h := startHour;
      while h < endHour
        invariant startHour <= h && (h <= endHour || h == startHour)
        invariant buckets == AddHours(m0, dateKey, startHour, h)
        invariant added == AddedHours(m0, dateKey, startHour, h)
        decreases endHour - h
      {
        AddHoursWellFormed(m0, dateKey, startHour, h);
        AddHoursNext(m0, dateKey, startHour, h);
        var slot := AddSlot(HourDateTime(dateKey, h), 1);
        AddedHoursNext(m0, dateKey, startHour, h, slot);
        added := added + [slot];
        h := h + 1;
      }
      AddHoursWellFormed(m0, dateKey, startHour, h);
    }

    /**
     * `bookRange(dateKey, startHour, hours, note)`: books every hour of
     * `[startHour, startHour + hours)` that has a slot, and counts them.
     */
    method BookRange(dateKey: string, startHour: int, hours: int, note: Option<string>) returns (count: nat)
      requires Valid()
      modifies this
      ensures Valid()
      ensures buckets == BookHours(old(buckets), dateKey, startHour, startHour + hours, note).0
      ensures count == BookHours(old(buckets), dateKey, startHour, startHour + hours, note).1
      ensures count == |HoursWithSlot(old(buckets), dateKey, startHour, startHour + hours)|
    {
      ghost var m0 := buckets;
      BookHoursCount(m0, dateKey, startHour, startHour + hours, note);
      count := 0;
      var h := startHour;
      while h < startHour + hours
        invariant startHour <= h && (h <= startHour + hours || h == startHour)
        invariant Valid()
        invariant buckets == BookHours(m0, dateKey, startHour, h, note).0
        invariant count == BookHours(m0, dateKey, startHour, h, note).1
        decreases startHour + hours - h
      {
        var dt := HourDateTime(dateKey, h);
        ghost var before := buckets;
        var slot := SetSlotStatus(dt, Booked, note);
        BookHoursNext(m0, dateKey, startHour, h, note, before, count, buckets, slot);
        if slot.Some? {
          count := count + 1;
        }
        h := h + 1;
      }
      if hours <= 0 {
        BookHoursEmpty(m0, dateKey, startHour, startHour + hours, note);
      }
    }

    /** `clearDay(dateKey)`: drops the whole day and returns how many slots it had. */
    method ClearDay(dateKey: string) returns (count: nat)
      requires Valid()
      modifies this
      ensures Valid()
      ensures buckets == old(buckets) - {dateKey}
      ensures count == |Bucket(old(buckets), dateKey)|
    {
      if dateKey !in buckets {
        return 0;
      }
      count := |buckets[dateKey]|;
      DropBucket(buckets, dateKey);
      buckets := buckets - {dateKey};
    }

    /** The days on or after `today` (date keys compare as strings). */
    ghost function Upcoming(today: string): set<string>
      reads this
    {
      set k | k in buckets && !Less(k, today)
    }

    /**
     * `getScheduledDays(limit)`: the days on or after `today`, ascending, cut
     * by `slice(0, limit)` — so the earliest such days.
     */
    method ScheduledDays(limit: int, today: string) returns (days: seq<string>)
      ensures StrictlySorted(days)
      ensures forall k :: k in days ==> k in Upcoming(today)
      ensures |days| == SliceEnd(|Upcoming(today)|, limit)
      ensures forall k, d :: k in Upcoming(today) && k !in days && d in days ==> Less(d, k)
    {
      var sorted := SortKeys(set k | k in buckets && !Less(k, today));
      days := sorted[..SliceEnd(|sorted|, limit)];
      forall k | k in days ensures k in Upcoming(today) {
        var i :| 0 <= i < |days| && days[i] == k;
        assert sorted[i] == k;
      }
      forall k, d | k in Upcoming(today) && k !in days && d in days ensures Less(d, k) {
        assert k in sorted;
        var j :| 0 <= j < |sorted| && sorted[j] == k;
        var i :| 0 <= i < |days| && days[i] == d;
        assert sorted[i] == d;
      }
    }

    /** `getAvailableDateKeys()`: the days with an available slot after `now`, ascending. */
    method AvailableDateKeys(now: string) returns (keys: seq<string>)
      ensures StrictlySorted(keys)
      ensures forall k :: k in keys <==> k in buckets && HasUpcomingAvailable(buckets[k], now)
    {
      var result: set<string> := {};
      var rest := buckets.Keys;
      while rest != {}
        invariant rest <= buckets.Keys
        invariant forall k :: k in result <==> k in buckets && k !in rest && HasUpcomingAvailable(buckets[k], now)
        decreases rest
      {
        var dateKey :| dateKey in rest;
        var slots := buckets[dateKey];
        var i := 0;
        while i < |slots|
          invariant i <= |slots|
          invariant forall j :: 0 <= j < i ==> !(slots[j].status == Available && Less(now, slots[j].datetime))
        {
          if slots[i].status == Available && Less(now, slots[i].datetime) {
            result := result + {dateKey};
            break;
          }
          i := i + 1;
        }
        rest := rest - {dateKey};
      }
      keys := SortKeys(result);
    }

    /** `getStats()`: the slots not before `now`, counted in total and by status. */
    method GetStats(now: string) returns (st: Stats)
      ensures st == StatsOver(buckets, buckets.Keys, now)
    {
      st := Stats(0, 0, 0, 0);
      var rest := buckets.Keys;
      PlusZero(StatsOver(buckets, rest, now));
      while rest != {}
        invariant rest <= buckets.Keys
        invariant Plus(st, StatsOver(buckets, rest, now)) == StatsOver(buckets, buckets.Keys, now)
        decreases rest
      {
        var dateKey :| dateKey in rest;
        var before := st;
        st := CountSlots(buckets[dateKey], now, st);
        StatsOverPick(buckets, rest, dateKey, now);
        PlusAssoc(before, BucketStats(buckets[dateKey], now), StatsOver(buckets, rest - {dateKey}, now));
        rest := rest - {dateKey};
      }
      PlusZero(st);
    }
  }

  /**
   * The inner loop of `getStats()` over one day: every slot not before `now`
   * adds one to `total` and one to the counter of its status.
   */
  method CountSlots(slots: seq<Slot>, now: string, counters: Stats) returns (st: Stats)
    ensures st == Plus(counters, BucketStats(slots, now))
  {
    var total, available, booked, blocked := counters.total, counters.available, counters.booked, counters.blocked;
    PlusZero(counters);
    for i := 0 to |slots|
      invariant Stats(total, available, booked, blocked) == Plus(counters, BucketStats(slots[..i], now))
    {
      BucketStatsNext(slots, i, now);
      PlusAssoc(counters, BucketStats(slots[..i], now), Contribution(slots[i], now));
      if Less(slots[i].datetime, now) {
        PlusZero(Stats(total, available, booked, blocked));
        continue;
      }
      total := total + 1;
      match slots[i].status {
        case Available => available := available + 1;
        case Booked => booked := booked + 1;
        case Blocked => blocked := blocked + 1;
      }
    }
    assert slots[..|slots|] == slots;
    st := Stats(total, available, booked, blocked);
  }
}

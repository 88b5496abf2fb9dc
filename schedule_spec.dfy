/**
 * The schedule as a value: a map from date key to the slots of that day, and
 * each store operation as a function from the old map to the new one. The
 * class `Schedule.SlotStore` performs these operations in place and is proved
 * to produce exactly these values.
 */
module ScheduleSpec {
  import opened Wrappers
  import opened JsText
  import opened Types

  type Buckets = map<string, seq<Slot>>

  // ---- Shape of the store ----

  predicate SortedByDateTime(s: seq<Slot>)
  {
    forall i, j :: 0 <= i < j < |s| ==> Less(s[i].datetime, s[j].datetime)
  }

  /** A bucket is non-empty, strictly ascending by datetime, and holds only its own day. */
  ghost predicate BucketOk(key: string, s: seq<Slot>)
  {
    && s != []
    && SortedByDateTime(s)
    && forall i :: 0 <= i < |s| ==> DateKeyOf(s[i].datetime) == key
  }

  ghost predicate WellFormed(m: Buckets)
  {
    forall key :: key in m ==> BucketOk(key, m[key])
  }

  /** `schedule.get(dateKey) || []`. */
  function Bucket(m: Buckets, key: string): seq<Slot>
  {
    if key in m then m[key] else []
  }

  /** No slot of `s` is at `dt`. */
  predicate Absent(s: seq<Slot>, dt: string)
  {
    forall j :: 0 <= j < |s| ==> s[j].datetime != dt
  }

  /** `slots.findIndex((s) => s.datetime === dt)`, with `None` for -1. */
  function IndexOf(s: seq<Slot>, dt: string): (r: Option<nat>)
    ensures r.Some? ==> r.value < |s| && s[r.value].datetime == dt
    ensures r.Some? ==> forall j :: 0 <= j < r.value ==> s[j].datetime != dt
    ensures r.None? <==> Absent(s, dt)
  {
    if s == [] then None
    else if s[0].datetime == dt then Some(0)
    else match IndexOf(s[1..], dt)
      case None => None
      case Some(i) => Some(i + 1)
  }

  /** `slots.find((s) => s.datetime === dt)`. */
  function FindIn(s: seq<Slot>, dt: string): Option<Slot>
  {
    match IndexOf(s, dt)
    case None => None
    case Some(i) => Some(s[i])
  }

  /** The slot stored at `dt`, looked up the way every operation does: in bucket `DateKeyOf(dt)`. */
  function Find(m: Buckets, dt: string): Option<Slot>
  {
    FindIn(Bucket(m, DateKeyOf(dt)), dt)
  }

  /** `if (note !== undefined) slot.note = note`. */
  function Amend(current: Option<string>, given: Option<string>): Option<string>
  {
    if given.Some? then given else current
  }

  function NoteOf(found: Option<Slot>): Option<string>
  {
    if found.Some? then found.value.note else None
  }

  /** The bucket after `slots.push(x)` and the sort by datetime. */
  function InsertSlot(s: seq<Slot>, x: Slot): seq<Slot>
  {
    if s == [] then [x]
    else if Less(x.datetime, s[0].datetime) then [x] + s
    else [s[0]] + InsertSlot(s[1..], x)
  }

  /** Push-and-sort adds exactly `x` to the bucket. */
  lemma {:induction false} InsertSlotMembers(s: seq<Slot>, x: Slot)
    ensures multiset(InsertSlot(s, x)) == multiset(s) + multiset{x}
    ensures |InsertSlot(s, x)| == |s| + 1
    ensures forall y :: y in InsertSlot(s, x) <==> y in s || y == x
  {
    if s != [] && !Less(x.datetime, s[0].datetime) {
      InsertSlotMembers(s[1..], x);
      assert s == [s[0]] + s[1..];
    }
  }

  /** Push-and-sort keeps an ascending bucket without a slot at `x`'s datetime ascending. */
  lemma {:induction false} InsertSlotSorted(s: seq<Slot>, x: Slot)
    requires SortedByDateTime(s) && Absent(s, x.datetime)
    ensures SortedByDateTime(InsertSlot(s, x))
  {
    if s == [] {
    } else if Less(x.datetime, s[0].datetime) {
      forall j | 0 < j < |s| ensures Less(x.datetime, s[j].datetime) {
        LessTransitive(x.datetime, s[0].datetime, s[j].datetime);
      }
    } else {
      var t := InsertSlot(s[1..], x);
      InsertSlotSorted(s[1..], x);
      InsertSlotMembers(s[1..], x);
      LessTotal(x.datetime, s[0].datetime);
      forall y | y in t ensures Less(s[0].datetime, y.datetime) {
        if y != x {
          var j :| 0 <= j < |s[1..]| && s[1..][j] == y;
          assert s[j + 1] == y;
        }
      }
    }
  }

  // ---- Store operations as functions ----

  /** The slot `addSlot` leaves at its datetime: the old one updated, or a new one. */
  function Upserted(found: Option<Slot>, dt: string, duration: int, status: SlotStatus, note: Option<string>): Slot
  {
    match found
    case Some(x) => x.(status := status, duration := duration, note := Amend(x.note, note))
    case None => Slot(dt, duration, status, note)
  }

  /** The slot `setSlotStatus` leaves: new status, note only when given, all else kept. */
  function Restatus(x: Slot, status: SlotStatus, note: Option<string>): Slot
  {
    x.(status := status, note := Amend(x.note, note))
  }

  /** `addSlot(datetime, duration, status, note)`: update in place, or insert in order. */
  function Upsert(m: Buckets, dt: string, duration: int, status: SlotStatus, note: Option<string>): Buckets
  {
    var key := DateKeyOf(dt);
    var b := Bucket(m, key);
    match IndexOf(b, dt)
    case Some(i) => m[key := b[i := Upserted(Some(b[i]), dt, duration, status, note)]]
    case None => m[key := InsertSlot(b, Upserted(None, dt, duration, status, note))]
  }

  /** `removeSlot(datetime)`: the new map and whether a slot was removed. */
  function Remove(m: Buckets, dt: string): (Buckets, bool)
  {
    var key := DateKeyOf(dt);
    if key !in m then (m, false)
    else match IndexOf(m[key], dt)
      case None => (m, false)
      case Some(i) =>
        var rest := m[key][..i] + m[key][i + 1..];
        (if rest == [] then m - {key} else m[key := rest], true)
  }

  /** `setSlotStatus(datetime, status, note)`: the new map and the slot found, if any. */
  function SetStatus(m: Buckets, dt: string, status: SlotStatus, note: Option<string>): (Buckets, Option<Slot>)
  {
    var key := DateKeyOf(dt);
    if key !in m then (m, None)
    else match IndexOf(m[key], dt)
      case None => (m, None)
      case Some(i) =>
        var x := Restatus(m[key][i], status, note);
        (m[key := m[key][i := x]], Some(x))
  }

  /** `addDaySlots(dateKey, start, end)`: one default upsert per hour of `[start, end)`, in order. */
  function AddHours(m: Buckets, dateKey: string, start: int, end: int): Buckets
    decreases end - start
  {
    if end <= start then m
    else Upsert(AddHours(m, dateKey, start, end - 1), HourDateTime(dateKey, end - 1), 1, Available, None)
  }

  /**
   * `bookRange(dateKey, start, hours, note)` with `end = start + hours`: the
   * new map and the number of hours of `[start, end)` that had a slot.
   */
  function BookHours(m: Buckets, dateKey: string, start: int, end: int, note: Option<string>): (Buckets, nat)
    decreases end - start
  {
    if end <= start then (m, 0)
    else
      var before := BookHours(m, dateKey, start, end - 1, note);
      var step := SetStatus(before.0, HourDateTime(dateKey, end - 1), Booked, note);
      (step.0, if step.1.Some? then before.1 + 1 else before.1)
  }

  /** `dt` is the datetime of one of the hours `[start, end)` of `dateKey`. */
  ghost predicate IsHourOf(dt: string, dateKey: string, start: int, end: int)
  {
    exists h :: start <= h < end && dt == HourDateTime(dateKey, h)
  }

  // ---- Statistics ----

  datatype Stats = Stats(total: nat, available: nat, booked: nat, blocked: nat)

  function Plus(a: Stats, b: Stats): Stats
  {
    Stats(a.total + b.total, a.available + b.available, a.booked + b.booked, a.blocked + b.blocked)
  }

  /** What one slot adds to the counters of `getStats`. */
  function Contribution(x: Slot, now: string): Stats
  {
    if Less(x.datetime, now) then Stats(0, 0, 0, 0)
    else match x.status
      case Available => Stats(1, 1, 0, 0)
      case Booked => Stats(1, 0, 1, 0)
      case Blocked => Stats(1, 0, 0, 1)
  }

  function BucketStats(s: seq<Slot>, now: string): (st: Stats)
    ensures st.total == st.available + st.booked + st.blocked
  {
    if s == [] then Stats(0, 0, 0, 0)
    else Plus(BucketStats(s[..|s| - 1], now), Contribution(s[|s| - 1], now))
  }

  /** The counters summed over the buckets of `keys`, in whatever order. */
  ghost function StatsOver(m: Buckets, keys: set<string>, now: string): (st: Stats)
    requires keys <= m.Keys
    ensures st.total == st.available + st.booked + st.blocked
    decreases keys
  {
    if keys == {} then Stats(0, 0, 0, 0)
    else
      var k := Pick(keys);
      Plus(BucketStats(m[k], now), StatsOver(m, keys - {k}, now))
  }

  /** Some element of a non-empty set; which one is left open. */
  ghost function Pick(keys: set<string>): (k: string)
    requires keys != {}
    ensures k in keys
  {
    var k :| k in keys; k
  }

  /** The day has an `available` slot strictly after `now`. */
  ghost predicate HasUpcomingAvailable(s: seq<Slot>, now: string)
  {
    exists i :: 0 <= i < |s| && s[i].status == Available && Less(now, s[i].datetime)
  }
}

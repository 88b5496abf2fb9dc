/**
 * What the store operations guarantee, proved on their value semantics
 * (module ScheduleSpec): the shape of the store is kept, each operation
 * touches exactly the slots it names, and the bulk operations and the
 * statistics mean what their callers take them to mean.
 */
module ScheduleProofs {
  import opened Wrappers
  import opened JsText
  import opened Types
  import opened ScheduleSpec

  // ---- One bucket ----

  /** In a strictly ascending bucket, a slot is found at its own index. */
  lemma SortedIndexOf(s: seq<Slot>, j: nat)
    requires SortedByDateTime(s) && j < |s|
    ensures IndexOf(s, s[j].datetime) == Some(j)
  {
    var r := IndexOf(s, s[j].datetime);
    assert r.Some?;
    if r.value < j {
      LessIrreflexive(s[j].datetime);
    }
  }

  /** In a strictly ascending bucket, looking up `dt` yields exactly the slot that carries it. */
  lemma FindInSpec(b: seq<Slot>, dt: string, x: Slot)
    requires SortedByDateTime(b)
    ensures FindIn(b, dt) == Some(x) <==> x.datetime == dt && x in b
  {
    if x.datetime == dt && x in b {
      var j :| 0 <= j < |b| && b[j] == x;
      SortedIndexOf(b, j);
    }
  }

  /** Two ascending buckets holding the same slots at `dt` agree on the lookup of `dt`. */
  lemma FindInAgree(b: seq<Slot>, b': seq<Slot>, dt: string)
    requires SortedByDateTime(b) && SortedByDateTime(b')
    requires forall z: Slot :: z.datetime == dt ==> (z in b <==> z in b')
    ensures FindIn(b, dt) == FindIn(b', dt)
  {
    match FindIn(b, dt)
    case Some(z) =>
      FindInSpec(b, dt, z);
      FindInSpec(b', dt, z);
    case None =>
      if FindIn(b', dt).Some? {
        var z := FindIn(b', dt).value;
        FindInSpec(b', dt, z);
        FindInSpec(b, dt, z);
      }
  }

  /** The lookup depends only on the datetimes of the bucket. */
  lemma {:induction false} IndexOfSameDates(b: seq<Slot>, b': seq<Slot>, dt: string)
    requires |b| == |b'| && forall j :: 0 <= j < |b| ==> b[j].datetime == b'[j].datetime
    ensures IndexOf(b, dt) == IndexOf(b', dt)
  {
    if b != [] {
      IndexOfSameDates(b[1..], b'[1..], dt);
    }
  }

  /** Replacing a slot by one with the same datetime keeps the bucket's shape and changes only that slot. */
  lemma ReplaceBucket(key: string, b: seq<Slot>, i: nat, y: Slot, dt: string)
    requires BucketOk(key, b) && i < |b| && y.datetime == b[i].datetime
    ensures BucketOk(key, b[i := y])
    ensures FindIn(b[i := y], dt) == if dt == y.datetime then Some(y) else FindIn(b, dt)
  {
    var b' := b[i := y];
    assert forall j :: 0 <= j < |b| ==> b'[j].datetime == b[j].datetime;
    IndexOfSameDates(b, b', dt);
    SortedIndexOf(b, i);
    match IndexOf(b, dt)
    case None =>
    case Some(j) =>
      if j == i {
        assert dt == y.datetime;
      } else {
        assert b'[j] == b[j];
        if dt == y.datetime { SortedIndexOf(b, i); }
      }
  }

  /** Inserting a slot at a new datetime of the bucket's day keeps the shape and adds only that slot. */
  lemma InsertBucket(key: string, b: seq<Slot>, x: Slot, dt: string)
    requires b == [] || BucketOk(key, b)
    requires Absent(b, x.datetime) && DateKeyOf(x.datetime) == key
    ensures BucketOk(key, InsertSlot(b, x))
    ensures FindIn(InsertSlot(b, x), dt) == if dt == x.datetime then Some(x) else FindIn(b, dt)
  {
    var r := InsertSlot(b, x);
    InsertSlotMembers(b, x);
    if b != [] { InsertSlotSorted(b, x); }
    forall j | 0 <= j < |r| ensures DateKeyOf(r[j].datetime) == key {
      assert r[j] in r;
      if r[j] != x {
        var p :| 0 <= p < |b| && b[p] == r[j];
      }
    }
    assert BucketOk(key, r);
    if dt == x.datetime {
      FindInSpec(r, dt, x);
    } else {
      FindInAgree(b, r, dt);
    }
  }

  /** Every slot left after removing index `i` of an ascending bucket is an old slot at another datetime. */
  lemma RemoveBucketMembers(b: seq<Slot>, i: nat)
    requires SortedByDateTime(b) && i < |b|
    ensures forall z :: z in b[..i] + b[i + 1..] <==> z in b && z.datetime != b[i].datetime
  {
    var rest := b[..i] + b[i + 1..];
    forall z | z in rest ensures z in b && z.datetime != b[i].datetime {
      var p :| 0 <= p < |rest| && rest[p] == z;
      var p' := if p < i then p else p + 1;
      assert rest[p] == b[p'];
      if p' < i {
        LessAsymmetric(b[p'].datetime, b[i].datetime);
      } else {
        LessAsymmetric(b[i].datetime, b[p'].datetime);
      }
    }
    forall z | z in b && z.datetime != b[i].datetime ensures z in rest {
      var p :| 0 <= p < |b| && b[p] == z;
      if p < i { assert rest[p] == z; } else { assert rest[p - 1] == z; }
    }
  }

  /** Removing index `i` keeps the bucket ascending and on its day. */
  lemma RemoveBucketOk(key: string, b: seq<Slot>, i: nat)
    requires BucketOk(key, b) && i < |b|
    ensures var rest := b[..i] + b[i + 1..];
            && |rest| == |b| - 1
            && (rest != [] ==> BucketOk(key, rest))
  {
    var rest := b[..i] + b[i + 1..];
    forall p, q | 0 <= p < q < |rest| ensures Less(rest[p].datetime, rest[q].datetime) {
      var p', q' := if p < i then p else p + 1, if q < i then q else q + 1;
      assert rest[p] == b[p'] && rest[q] == b[q'];
    }
    forall p | 0 <= p < |rest| ensures DateKeyOf(rest[p].datetime) == key {
      assert rest[p] == b[if p < i then p else p + 1];
    }
  }

  /** Removing index `i` removes only the slot at that datetime. */
  lemma RemoveBucketFind(b: seq<Slot>, i: nat, dt: string)
    requires SortedByDateTime(b) && i < |b|
    ensures var rest := b[..i] + b[i + 1..];
            FindIn(rest, dt) == if dt == b[i].datetime then None else FindIn(b, dt)
  {
    var rest := b[..i] + b[i + 1..];
    forall p, q | 0 <= p < q < |rest| ensures Less(rest[p].datetime, rest[q].datetime) {
      var p', q' := if p < i then p else p + 1, if q < i then q else q + 1;
      assert rest[p] == b[p'] && rest[q] == b[q'];
    }
    RemoveBucketMembers(b, i);
    if dt == b[i].datetime {
      if FindIn(rest, dt).Some? {
        FindInSpec(rest, dt, FindIn(rest, dt).value);
      }
    } else {
      FindInAgree(b, rest, dt);
    }
  }

  // ---- The whole store ----

  lemma SetBucket(m: Buckets, key: string, b: seq<Slot>)
    requires WellFormed(m) && BucketOk(key, b)
    ensures WellFormed(m[key := b])
  {
  }

  lemma DropBucket(m: Buckets, key: string)
    requires WellFormed(m)
    ensures WellFormed(m - {key})
  {
  }

  /** `Find` returns exactly the slot of the right bucket that carries the datetime. */
  lemma FindSpec(m: Buckets, dt: string, x: Slot)
    requires WellFormed(m)
    ensures Find(m, dt) == Some(x) <==> x.datetime == dt && x in Bucket(m, DateKeyOf(dt))
  {
    var key := DateKeyOf(dt);
    if key in m {
      FindInSpec(m[key], dt, x);
    }
  }

  // ---- addSlot ----

  /**
   * `addSlot(dt, ...)` keeps the shape of the store; afterwards the slot at
   * `dt` is the upserted one (status and duration overwritten, note only when
   * given), and every other datetime is looked up exactly as before.
   */
  lemma UpsertFind(m: Buckets, dt: string, duration: int, status: SlotStatus, note: Option<string>, other: string)
    requires WellFormed(m)
    ensures WellFormed(Upsert(m, dt, duration, status, note))
    ensures Find(Upsert(m, dt, duration, status, note), other) ==
              if other == dt then Some(Upserted(Find(m, dt), dt, duration, status, note)) else Find(m, other)
  {
    var key := DateKeyOf(dt);
    var b := Bucket(m, key);
    var m' := Upsert(m, dt, duration, status, note);
    match IndexOf(b, dt)
    case Some(i) =>
      var y := b[i].(status := status, duration := duration, note := Amend(b[i].note, note));
      ReplaceBucket(key, b, i, y, other);
      SetBucket(m, key, b[i := y]);
      assert m' == m[key := b[i := y]];
    case None =>
      var x := Slot(dt, duration, status, note);
      InsertBucket(key, b, x, other);
      SetBucket(m, key, InsertSlot(b, x));
      assert m' == m[key := InsertSlot(b, x)];
  }

  lemma UpsertWellFormed(m: Buckets, dt: string, duration: int, status: SlotStatus, note: Option<string>)
    requires WellFormed(m)
    ensures WellFormed(Upsert(m, dt, duration, status, note))
  {
    UpsertFind(m, dt, duration, status, note, dt);
  }

  /** `addSlot` adds one slot to its day when the datetime is new, and none when it exists. */
  lemma UpsertSize(m: Buckets, dt: string, duration: int, status: SlotStatus, note: Option<string>)
    requires WellFormed(m)
    ensures var m' := Upsert(m, dt, duration, status, note);
            && m'.Keys == m.Keys + {DateKeyOf(dt)}
            && |Bucket(m', DateKeyOf(dt))| == |Bucket(m, DateKeyOf(dt))| + (if Find(m, dt).None? then 1 else 0)
            && forall k :: k in m && k != DateKeyOf(dt) ==> m'[k] == m[k]
  {
    var b := Bucket(m, DateKeyOf(dt));
    if IndexOf(b, dt).None? {
      InsertSlotMembers(b, Slot(dt, duration, status, note));
    }
  }

  /** Upserting what is already there, with no note, changes nothing. */
  lemma UpsertNoChange(m: Buckets, dt: string, duration: int, status: SlotStatus)
    requires WellFormed(m)
    requires Find(m, dt).Some? && Find(m, dt).value.duration == duration && Find(m, dt).value.status == status
    ensures Upsert(m, dt, duration, status, None) == m
  {
    var key := DateKeyOf(dt);
    var b := Bucket(m, key);
    var i := IndexOf(b, dt).value;
    assert b[i := b[i]] == b;
  }

  // ---- removeSlot ----

  /**
   * `removeSlot(dt)` keeps the shape of the store (deleting a day left empty),
   * reports whether a slot was at `dt`, and the day loses exactly that slot.
   */
  lemma RemoveWellFormed(m: Buckets, dt: string)
    requires WellFormed(m)
    ensures WellFormed(Remove(m, dt).0)
    ensures Remove(m, dt).1 == Find(m, dt).Some?
    ensures |Bucket(Remove(m, dt).0, DateKeyOf(dt))| == |Bucket(m, DateKeyOf(dt))| - (if Remove(m, dt).1 then 1 else 0)
  {
    var key := DateKeyOf(dt);
    if key in m && IndexOf(m[key], dt).Some? {
      var b := m[key];
      var i := IndexOf(b, dt).value;
      var rest := b[..i] + b[i + 1..];
      RemoveBucketOk(key, b, i);
      if rest == [] {
        DropBucket(m, key);
        assert Remove(m, dt).0 == m - {key};
      } else {
        SetBucket(m, key, rest);
        assert Remove(m, dt).0 == m[key := rest];
      }
    }
  }

  /** After `removeSlot(dt)` no slot is at `dt`, and every other datetime is looked up as before. */
  lemma RemoveFind(m: Buckets, dt: string, other: string)
    requires WellFormed(m)
    ensures Find(Remove(m, dt).0, other) == if other == dt then None else Find(m, other)
  {
    var key := DateKeyOf(dt);
    if key in m && IndexOf(m[key], dt).Some? {
      var b := m[key];
      var i := IndexOf(b, dt).value;
      var rest := b[..i] + b[i + 1..];
      RemoveBucketFind(b, i, other);
      if rest == [] {
        assert Remove(m, dt).0 == m - {key};
      } else {
        assert Remove(m, dt).0 == m[key := rest];
      }
    }
  }

  // ---- setSlotStatus ----

  /**
   * `setSlotStatus(dt, status, note)` returns the updated slot exactly when one
   * is at `dt`; it changes only that slot's status (and note when one is given),
   * creates and removes nothing, and keeps the shape of the store.
   */
  lemma SetStatusFind(m: Buckets, dt: string, status: SlotStatus, note: Option<string>, other: string)
    requires WellFormed(m)
    ensures WellFormed(SetStatus(m, dt, status, note).0)
    ensures SetStatus(m, dt, status, note).1 ==
              if Find(m, dt).Some? then Some(Restatus(Find(m, dt).value, status, note)) else None
    ensures Find(SetStatus(m, dt, status, note).0, other) ==
              if other == dt && Find(m, dt).Some? then Some(Restatus(Find(m, dt).value, status, note))
              else Find(m, other)
    ensures SetStatus(m, dt, status, note).0.Keys == m.Keys
  {
    var key := DateKeyOf(dt);
    if key in m && IndexOf(m[key], dt).Some? {
      var b := m[key];
      var i := IndexOf(b, dt).value;
      var y := Restatus(b[i], status, note);
      ReplaceBucket(key, b, i, y, other);
      SetBucket(m, key, b[i := y]);
      assert SetStatus(m, dt, status, note).0 == m[key := b[i := y]];
    }
  }

  // ---- addDaySlots ----

  lemma {:induction false} AddHoursWellFormed(m: Buckets, dateKey: string, start: int, end: int)
    requires WellFormed(m)
    ensures WellFormed(AddHours(m, dateKey, start, end))
    decreases end - start
  {
    if end > start {
      AddHoursWellFormed(m, dateKey, start, end - 1);
      UpsertWellFormed(AddHours(m, dateKey, start, end - 1), HourDateTime(dateKey, end - 1), 1, Available, None);
    }
  }

  lemma FoundAt(m: Buckets, dt: string)
    requires Find(m, dt).Some?
    ensures Find(m, dt).value.datetime == dt
  {
  }

  /**
   * After `addDaySlots(dateKey, start, end)` each hour of `[start, end)` holds
   * a one-hour `available` slot that keeps the note it had (a booked hour is
   * reset to available), and every other datetime is looked up as before.
   */
  lemma {:induction false} AddHoursFind(m: Buckets, dateKey: string, start: int, end: int, dt: string)
    requires WellFormed(m)
    ensures Find(AddHours(m, dateKey, start, end), dt) ==
              if IsHourOf(dt, dateKey, start, end) then Some(Slot(dt, 1, Available, NoteOf(Find(m, dt))))
              else Find(m, dt)
    decreases end - start
  {
    if end > start {
      var m1 := AddHours(m, dateKey, start, end - 1);
      var last := HourDateTime(dateKey, end - 1);
      AddHoursWellFormed(m, dateKey, start, end - 1);
      UpsertFind(m1, last, 1, Available, None, dt);
      IsHourOfStep(dt, dateKey, start, end);
      AddHoursFind(m, dateKey, start, end - 1, dt);
      if dt == last && Find(m, dt).Some? {
        FoundAt(m, dt);
      }
    }
  }

  lemma IsHourOfStep(dt: string, dateKey: string, start: int, end: int)
    requires start < end
    ensures IsHourOf(dt, dateKey, start, end) <==>
              IsHourOf(dt, dateKey, start, end - 1) || dt == HourDateTime(dateKey, end - 1)
  {
  }

  /**
   * The slot `addDaySlots` receives back for hour `h`, after the hours before
   * it: one hour, available, keeping the note the store had at that datetime.
   */
  lemma AddHoursUpserted(m: Buckets, dateKey: string, start: int, h: int)
    requires WellFormed(m)
    ensures var dt := HourDateTime(dateKey, h);
            Upserted(Find(AddHours(m, dateKey, start, h), dt), dt, 1, Available, None) ==
              Slot(dt, 1, Available, NoteOf(Find(m, dt)))
  {
    var dt := HourDateTime(dateKey, h);
    AddHoursFind(m, dateKey, start, h, dt);
    if Find(m, dt).Some? {
      FoundAt(m, dt);
    }
  }

  /** The slots `addDaySlots` returns: one per hour, one hour long, available, keeping the old note. */
  function AddedHours(m: Buckets, dateKey: string, start: int, end: int): (r: seq<Slot>)
    ensures |r| == if end <= start then 0 else end - start
    decreases end - start
  {
    if end <= start then []
    else
      var dt := HourDateTime(dateKey, end - 1);
      AddedHours(m, dateKey, start, end - 1) + [Slot(dt, 1, Available, NoteOf(Find(m, dt)))]
  }

  /**
   * The `i`-th slot `addDaySlots` returns is hour `start + i`: one hour long,
   * available, with the note the store had there.
   */
  lemma {:induction false} AddedHoursAt(m: Buckets, dateKey: string, start: int, end: int, i: nat)
    requires i < |AddedHours(m, dateKey, start, end)|
    ensures var dt := HourDateTime(dateKey, start + i);
            AddedHours(m, dateKey, start, end)[i] == Slot(dt, 1, Available, NoteOf(Find(m, dt)))
    decreases end - start
  {
    var prefix := AddedHours(m, dateKey, start, end - 1);
    if i < |prefix| {
      AddedHoursAt(m, dateKey, start, end - 1, i);
      assert AddedHours(m, dateKey, start, end)[i] == prefix[i];
    } else {
      assert start + i == end - 1;
    }
  }

  /** One more hour of `addDaySlots`: the slot stored for hour `h` is appended to the returned slots. */
  lemma AddedHoursNext(m: Buckets, dateKey: string, start: int, h: int, slot: Slot)
    requires WellFormed(m) && start <= h
    requires slot == Upserted(Find(AddHours(m, dateKey, start, h), HourDateTime(dateKey, h)), HourDateTime(dateKey, h), 1, Available, None)
    ensures AddedHours(m, dateKey, start, h) + [slot] == AddedHours(m, dateKey, start, h + 1)
  {
    AddHoursUpserted(m, dateKey, start, h);
  }

  /** One more hour of `addDaySlots`. */
  lemma AddHoursNext(m: Buckets, dateKey: string, start: int, h: int)
    requires start <= h
    ensures AddHours(m, dateKey, start, h + 1) == Upsert(AddHours(m, dateKey, start, h), HourDateTime(dateKey, h), 1, Available, None)
  {
  }

  /** A store whose hours `[start, end)` are all one-hour and available is left as it is. */
  ghost predicate Settled(m: Buckets, dt: string)
  {
    Find(m, dt).Some? && Find(m, dt).value.status == Available && Find(m, dt).value.duration == 1
  }

  lemma {:induction false} AddHoursSettled(m: Buckets, dateKey: string, start: int, end: int)
    requires WellFormed(m)
    requires forall h :: start <= h < end ==> Settled(m, HourDateTime(dateKey, h))
    ensures AddHours(m, dateKey, start, end) == m
    decreases end - start
  {
    if end > start {
      AddHoursSettled(m, dateKey, start, end - 1);
      assert Settled(m, HourDateTime(dateKey, end - 1));
      UpsertNoChange(m, HourDateTime(dateKey, end - 1), 1, Available);
    }
  }

  /** Running `addDaySlots` twice with the same arguments leaves the state of running it once. */
  lemma AddHoursIdempotent(m: Buckets, dateKey: string, start: int, end: int)
    requires WellFormed(m)
    ensures AddHours(AddHours(m, dateKey, start, end), dateKey, start, end) == AddHours(m, dateKey, start, end)
  {
    var m' := AddHours(m, dateKey, start, end);
    AddHoursWellFormed(m, dateKey, start, end);
    forall h | start <= h < end ensures Settled(m', HourDateTime(dateKey, h)) {
      AddHoursFind(m, dateKey, start, end, HourDateTime(dateKey, h));
    }
    AddHoursSettled(m', dateKey, start, end);
  }

  /** The slots `addDaySlots` creates on a day that had none: one per hour, in order. */
  function DefaultHours(dateKey: string, start: int, end: int): (r: seq<Slot>)
    ensures |r| == if end <= start then 0 else end - start
    ensures forall i :: 0 <= i < |r| ==> r[i] == Slot(HourDateTime(dateKey, start + i), 1, Available, None)
    decreases end - start
  {
    if end <= start then [] else DefaultHours(dateKey, start, end - 1) + [Slot(HourDateTime(dateKey, end - 1), 1, Available, None)]
  }

  /** Inserting a slot later than every slot of the bucket appends it. */
  lemma {:induction false} InsertSlotLast(s: seq<Slot>, x: Slot)
    requires forall j :: 0 <= j < |s| ==> Less(s[j].datetime, x.datetime)
    ensures InsertSlot(s, x) == s + [x]
  {
    if s != [] {
      LessAsymmetric(s[0].datetime, x.datetime);
      InsertSlotLast(s[1..], x);
      assert s == [s[0]] + s[1..];
    }
  }

  /** Adding a slot later than every slot of its day appends it to the day. */
  lemma UpsertAppend(m: Buckets, key: string, x: Slot)
    requires DateKeyOf(x.datetime) == key
    requires forall y :: y in Bucket(m, key) ==> Less(y.datetime, x.datetime)
    ensures Bucket(Upsert(m, x.datetime, x.duration, x.status, x.note), key) == Bucket(m, key) + [x]
  {
    var b := Bucket(m, key);
    forall j | 0 <= j < |b| ensures b[j].datetime != x.datetime && Less(b[j].datetime, x.datetime) {
      assert b[j] in b;
      LessAsymmetric(b[j].datetime, x.datetime);
    }
    assert IndexOf(b, x.datetime).None?;
    InsertSlotLast(b, x);
  }

  /** Every default hour before `end - 1` sorts before hour `end - 1`. */
  lemma DefaultHoursBefore(dateKey: string, start: int, end: int)
    requires 0 <= start < end <= 100
    ensures forall y :: y in DefaultHours(dateKey, start, end - 1) ==> Less(y.datetime, HourDateTime(dateKey, end - 1))
  {
    var b := DefaultHours(dateKey, start, end - 1);
    forall y | y in b ensures Less(y.datetime, HourDateTime(dateKey, end - 1)) {
      var j :| 0 <= j < |b| && b[j] == y;
      HourDateTimeOrdered(dateKey, start + j, end - 1);
    }
  }

  /**
   * On a day with no slots, `addDaySlots(dateKey, start, end)` for hours within
   * 0..99 leaves exactly the hours `start, ..., end - 1`, all available, ascending.
   */
  lemma {:induction false} AddHoursFreshDay(m: Buckets, dateKey: string, start: int, end: int)
    requires 'T' !in dateKey && dateKey !in m
    requires 0 <= start && end <= 100
    ensures Bucket(AddHours(m, dateKey, start, end), dateKey) == DefaultHours(dateKey, start, end)
    decreases end - start
  {
    if end > start {
      var m1 := AddHours(m, dateKey, start, end - 1);
      AddHoursFreshDay(m, dateKey, start, end - 1);
      var x := Slot(HourDateTime(dateKey, end - 1), 1, Available, None);
      HourDateTimeKey(dateKey, end - 1);
      DefaultHoursBefore(dateKey, start, end);
      UpsertAppend(m1, dateKey, x);
    }
  }

  // ---- bookRange ----

  /** One step of `bookRange`: the last hour of the range is booked after the others. */
  lemma BookHoursLast(m: Buckets, dateKey: string, start: int, end: int, note: Option<string>)
    requires start < end
    ensures BookHours(m, dateKey, start, end, note).0 ==
              SetStatus(BookHours(m, dateKey, start, end - 1, note).0, HourDateTime(dateKey, end - 1), Booked, note).0
    ensures BookHours(m, dateKey, start, end, note).1 ==
              BookHours(m, dateKey, start, end - 1, note).1 +
              (if SetStatus(BookHours(m, dateKey, start, end - 1, note).0, HourDateTime(dateKey, end - 1), Booked, note).1.Some?
               then 1 else 0)
  {
  }

  /** One more hour of `bookRange`. */
  lemma BookHoursNext(m: Buckets, dateKey: string, start: int, h: int, note: Option<string>,
                      before: Buckets, count: nat, after: Buckets, found: Option<Slot>)
    requires start <= h
    requires before == BookHours(m, dateKey, start, h, note).0 && count == BookHours(m, dateKey, start, h, note).1
    requires after == SetStatus(before, HourDateTime(dateKey, h), Booked, note).0
    requires found == SetStatus(before, HourDateTime(dateKey, h), Booked, note).1
    ensures BookHours(m, dateKey, start, h + 1, note).0 == after
    ensures BookHours(m, dateKey, start, h + 1, note).1 == if found.Some? then count + 1 else count
  {
    var end := h + 1;
    assert end - 1 == h;
    BookHoursLast(m, dateKey, start, end, note);
  }

  lemma BookHoursEmpty(m: Buckets, dateKey: string, start: int, end: int, note: Option<string>)
    requires end <= start
    ensures BookHours(m, dateKey, start, end, note) == BookHours(m, dateKey, start, start, note) == (m, 0)
  {
  }

  lemma {:induction false} BookHoursWellFormed(m: Buckets, dateKey: string, start: int, end: int, note: Option<string>)
    requires WellFormed(m)
    ensures WellFormed(BookHours(m, dateKey, start, end, note).0)
    decreases end - start
  {
    if start < end {
      BookHoursWellFormed(m, dateKey, start, end - 1, note);
      var m1 := BookHours(m, dateKey, start, end - 1, note).0;
      BookHoursLast(m, dateKey, start, end, note);
      SetStatusFind(m1, HourDateTime(dateKey, end - 1), Booked, note, "");
    }
  }

  /** How one booking step composes with the bookings before it, for one looked-up slot. */
  lemma RestatusCompose(before: Option<Slot>, mid: Option<Slot>, after: Option<Slot>, note: Option<string>,
                        was: bool, isLast: bool)
    requires mid == if was && before.Some? then Some(Restatus(before.value, Booked, note)) else before
    requires after == if isLast && mid.Some? then Some(Restatus(mid.value, Booked, note)) else mid
    ensures after == if (was || isLast) && before.Some? then Some(Restatus(before.value, Booked, note)) else before
  {
  }

  /**
   * After `bookRange` over the hours `[start, end)` every hour of the range
   * that had a slot is booked (note set when given); nothing is created, and
   * every other slot is unchanged.
   */
  lemma {:induction false} BookHoursFind(m: Buckets, dateKey: string, start: int, end: int, note: Option<string>, dt: string)
    requires WellFormed(m)
    ensures Find(BookHours(m, dateKey, start, end, note).0, dt) ==
              if IsHourOf(dt, dateKey, start, end) && Find(m, dt).Some?
              then Some(Restatus(Find(m, dt).value, Booked, note))
              else Find(m, dt)
    decreases end - start
  {
    if start < end {
      var m1 := BookHours(m, dateKey, start, end - 1, note).0;
      var last := HourDateTime(dateKey, end - 1);
      BookHoursLast(m, dateKey, start, end, note);
      BookHoursWellFormed(m, dateKey, start, end - 1, note);
      SetStatusFind(m1, last, Booked, note, dt);
      IsHourOfStep(dt, dateKey, start, end);
      BookHoursFind(m, dateKey, start, end - 1, note, dt);
      RestatusCompose(Find(m, dt), Find(m1, dt), Find(SetStatus(m1, last, Booked, note).0, dt), note,
                      IsHourOf(dt, dateKey, start, end - 1), dt == last);
    }
  }

  /** The hours of `[start, end)` that have a slot on `dateKey`. */
  ghost function HoursWithSlot(m: Buckets, dateKey: string, start: int, end: int): set<int>
  {
    set h | start <= h < end && Find(m, HourDateTime(dateKey, h)).Some?
  }

  lemma HoursWithSlotStep(m: Buckets, dateKey: string, start: int, end: int)
    requires start < end
    ensures end - 1 !in HoursWithSlot(m, dateKey, start, end - 1)
    ensures HoursWithSlot(m, dateKey, start, end) ==
              HoursWithSlot(m, dateKey, start, end - 1) +
              (if Find(m, HourDateTime(dateKey, end - 1)).Some? then {end - 1} else {})
  {
  }

  /** `bookRange` returns the number of hours of the range that already had a slot. */
  lemma {:induction false} BookHoursCount(m: Buckets, dateKey: string, start: int, end: int, note: Option<string>)
    requires WellFormed(m)
    ensures BookHours(m, dateKey, start, end, note).1 == |HoursWithSlot(m, dateKey, start, end)|
    decreases end - start
  {
    if end <= start {
      assert HoursWithSlot(m, dateKey, start, end) == {};
    } else {
      var m1 := BookHours(m, dateKey, start, end - 1, note).0;
      var last := HourDateTime(dateKey, end - 1);
      BookHoursLast(m, dateKey, start, end, note);
      BookHoursCount(m, dateKey, start, end - 1, note);
      BookHoursWellFormed(m, dateKey, start, end - 1, note);
      BookHoursFind(m, dateKey, start, end - 1, note, last);
      SetStatusFind(m1, last, Booked, note, last);
      HoursWithSlotStep(m, dateKey, start, end);
    }
  }

  lemma {:induction false} HoursWithSlotBound(m: Buckets, dateKey: string, start: int, end: int)
    ensures |HoursWithSlot(m, dateKey, start, end)| <= if end < start then 0 else end - start
    decreases end - start
  {
    if end <= start {
      assert HoursWithSlot(m, dateKey, start, end) == {};
    } else {
      HoursWithSlotBound(m, dateKey, start, end - 1);
      HoursWithSlotStep(m, dateKey, start, end);
    }
  }

  /** The count is at most the number of hours asked for, and is 0 exactly when no hour had a slot. */
  lemma BookHoursNothingBooked(m: Buckets, dateKey: string, start: int, end: int, note: Option<string>)
    requires WellFormed(m)
    ensures BookHours(m, dateKey, start, end, note).1 <= if end < start then 0 else end - start
    ensures BookHours(m, dateKey, start, end, note).1 == 0 <==>
              forall h :: start <= h < end ==> Find(m, HourDateTime(dateKey, h)).None?
  {
    BookHoursCount(m, dateKey, start, end, note);
    HoursWithSlotBound(m, dateKey, start, end);
    var s := HoursWithSlot(m, dateKey, start, end);
    if |s| == 0 {
      forall h | start <= h < end ensures Find(m, HourDateTime(dateKey, h)).None? {
        assert h !in s;
      }
    } else {
      var h :| h in s;
      assert Find(m, HourDateTime(dateKey, h)).Some?;
    }
  }

  // ---- getStats ----

  lemma PlusSwap(a: Stats, b: Stats, c: Stats)
    ensures Plus(a, Plus(b, c)) == Plus(b, Plus(a, c))
  {
  }

  /** The counters do not depend on the order in which the days are visited. */
  lemma {:induction false} StatsOverPick(m: Buckets, keys: set<string>, k: string, now: string)
    requires keys <= m.Keys && k in keys
    ensures StatsOver(m, keys, now) == Plus(BucketStats(m[k], now), StatsOver(m, keys - {k}, now))
    decreases keys
  {
    var k' := Pick(keys);
    if k' != k {
      var rest := keys - {k'} - {k};
      assert keys - {k} - {k'} == rest;
      StatsOverPick(m, keys - {k'}, k, now);
      StatsOverPick(m, keys - {k}, k', now);
      PlusSwap(BucketStats(m[k'], now), BucketStats(m[k], now), StatsOver(m, rest, now));
    }
  }

  lemma PlusZero(a: Stats)
    ensures Plus(Stats(0, 0, 0, 0), a) == a && Plus(a, Stats(0, 0, 0, 0)) == a
  {
  }

  lemma PlusAssoc(a: Stats, b: Stats, c: Stats)
    ensures Plus(Plus(a, b), c) == Plus(a, Plus(b, c))
  {
  }

  /** The statistics of a prefix one slot longer. */
  lemma BucketStatsNext(s: seq<Slot>, i: nat, now: string)
    requires i < |s|
    ensures BucketStats(s[..i + 1], now) == Plus(BucketStats(s[..i], now), Contribution(s[i], now))
  {
    assert s[..i + 1][..i] == s[..i];
  }

  /** Indices of the slots counted in one counter: not before `now`, and of the status asked for. */
  ghost function Counted(s: seq<Slot>, now: string, status: Option<SlotStatus>): set<int>
  {
    set i | 0 <= i < |s| && !Less(s[i].datetime, now) && (status.None? || s[i].status == status.value)
  }

  lemma CountedStep(s: seq<Slot>, now: string, status: Option<SlotStatus>)
    requires s != []
    ensures var n := |s| - 1;
            var x := s[n];
            Counted(s, now, status) ==
              Counted(s[..n], now, status) +
              (if !Less(x.datetime, now) && (status.None? || x.status == status.value) then {n} else {})
  {
  }

  /**
   * The statistics of a day count exactly its slots that are not before `now`:
   * all of them in `total`, and by status in the other three counters.
   */
  lemma {:induction false} BucketStatsCounts(s: seq<Slot>, now: string)
    ensures BucketStats(s, now) == Stats(
              |Counted(s, now, None)|,
              |Counted(s, now, Some(Available))|,
              |Counted(s, now, Some(Booked))|,
              |Counted(s, now, Some(Blocked))|)
  {
    BucketStatsCount(s, now, None);
    BucketStatsCount(s, now, Some(Available));
    BucketStatsCount(s, now, Some(Booked));
    BucketStatsCount(s, now, Some(Blocked));
  }

  /** The counter of `st` that counts `status`; `None` selects the total. */
  function Counter(st: Stats, status: Option<SlotStatus>): nat
  {
    match status
    case None => st.total
    case Some(Available) => st.available
    case Some(Booked) => st.booked
    case Some(Blocked) => st.blocked
  }

  lemma CounterPlus(a: Stats, b: Stats, status: Option<SlotStatus>)
    ensures Counter(Plus(a, b), status) == Counter(a, status) + Counter(b, status)
  {
  }

  /** A slot adds one to a counter exactly when that counter counts it. */
  lemma ContributionCounter(x: Slot, now: string, status: Option<SlotStatus>)
    ensures Counter(Contribution(x, now), status) ==
              if !Less(x.datetime, now) && (status.None? || x.status == status.value) then 1 else 0
  {
  }

  lemma {:induction false} BucketStatsCount(s: seq<Slot>, now: string, status: Option<SlotStatus>)
    ensures Counter(BucketStats(s, now), status) == |Counted(s, now, status)|
  {
    if s == [] {
      assert Counted(s, now, status) == {};
    } else {
      var n := |s| - 1;
      var x := s[n];
      var before := BucketStats(s[..n], now);
      BucketStatsCount(s[..n], now, status);
      CountedStep(s, now, status);
      assert BucketStats(s, now) == Plus(before, Contribution(x, now));
      CounterPlus(before, Contribution(x, now), status);
      ContributionCounter(x, now, status);
      if !Less(x.datetime, now) && (status.None? || x.status == status.value) {
        assert n !in Counted(s[..n], now, status);
      }
    }
  }
}

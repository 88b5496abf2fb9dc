/**
 * The reservation routes: an in-memory ledger of guest reservations whose
 * create and cancel handlers mirror their effect into the slot store, and the
 * day-timeline route that reads the store. Each handler returns the outcome
 * the route would send (created, ok, bad request, not found) instead of
 * writing an HTTP response.
 */
module Api {
  import opened Wrappers
  import opened JsText
  import opened Types
  import opened ScheduleSpec
  import opened ScheduleProofs
  import opened Schedule

  datatype Response =
    | Created(reservation: Reservation)
    | Ok(reservation: Reservation)
    | BadRequest(error: string)
    | NotFound(error: string)

  const MissingFieldsError := "name и date обязательны"
  const NotFoundError := "Не найдено"
  const DateParamError := "Параметр date обязателен (YYYY-MM-DD)"

  /** A request field that JavaScript finds truthy: present and not the empty string. */
  predicate Filled(field: Option<string>)
  {
    field.Some? && field.value != ""
  }

  /** Every id was handed out by the counter, and ids grow strictly in list order. */
  predicate IdsIncreasing(rs: seq<Reservation>, nextId: int)
  {
    (forall i :: 0 <= i < |rs| ==> 1 <= rs[i].id < nextId) &&
    (forall i, j :: 0 <= i < j < |rs| ==> rs[i].id < rs[j].id)
  }

  /** `findIndex((r) => r.id === id)`: the first position holding `id`, if any. */
  function IndexOfId(rs: seq<Reservation>, id: int): (r: Option<nat>)
    ensures r.None? <==> forall j :: 0 <= j < |rs| ==> rs[j].id != id
    ensures r.Some? ==> r.value < |rs| && rs[r.value].id == id
    ensures r.Some? ==> forall j :: 0 <= j < r.value ==> rs[j].id != id
  {
    if rs == [] then None
    else if rs[0].id == id then Some(0)
    else match IndexOfId(rs[1..], id)
      case None => None
      case Some(i) => Some(i + 1)
  }

  /** Ids are unique in a well-kept ledger, so a lookup finds the one position holding that id. */
  lemma IndexOfIdUnique(rs: seq<Reservation>, nextId: int, i: nat)
    requires IdsIncreasing(rs, nextId)
    requires i < |rs|
    ensures IndexOfId(rs, rs[i].id) == Some(i)
  {
  }

  /** Appending a reservation that takes the counter's id keeps the ledger well kept and findable. */
  lemma AppendNewest(rs: seq<Reservation>, nextId: int, r: Reservation)
    requires IdsIncreasing(rs, nextId)
    requires r.id == nextId && 1 <= nextId
    ensures IdsIncreasing(rs + [r], nextId + 1)
    ensures IndexOfId(rs + [r], nextId) == Some(|rs|)
  {
    var rs' := rs + [r];
    assert rs'[|rs|] == r;
    IndexOfIdUnique(rs', nextId + 1, |rs|);
  }

  /** The reservation a valid create request appends, with the handler's defaults. */
  function NewReservation(id: int, name: string, date: string, body: CreateReservationBody, createdAt: string): (r: Reservation)
    ensures r.id == id && r.name == name && r.date == date && r.status == Confirmed && r.createdAt == createdAt
    ensures r.guests == (if body.guests.Some? then body.guests.value else 1)
    ensures r.comment == (if body.comment.Some? then body.comment.value else "")
  {
    Reservation(id, name, date,
                match body.guests { case Some(g) => g case None => 1 },
                match body.comment { case Some(c) => c case None => "" },
                Confirmed, createdAt)
  }

  /** The slot a booking or cancellation puts at `date`, when the store has one there. */
  function Mirrored(found: Option<Slot>, status: SlotStatus, note: Option<string>): Option<Slot>
  {
    if found.Some? then Some(Restatus(found.value, status, note)) else None
  }

  /**
   * The ledger: the reservations in creation order and the id counter. It
   * shares the slot store with the rest of the server.
   */
  class Ledger {
    var reservations: seq<Reservation>
    var nextId: int
    const store: SlotStore

    ghost predicate Valid()
      reads this, store
    {
      store.Valid() && 1 <= nextId && IdsIncreasing(reservations, nextId)
    }

    constructor(store: SlotStore)
      requires store.Valid()
      ensures Valid()
      ensures this.store == store && reservations == [] && nextId == 1
    {
      this.store := store;
      reservations := [];
      nextId := 1;
    }

    /**
     * `POST /reservations`: a request without a name or a date is refused and
     * nothing changes; otherwise the reservation takes the next id, the slot at
     * `date` (if any) becomes booked under the guest's name, and the
     * reservation is appended whether or not such a slot exists.
     */
    method Create(body: CreateReservationBody, createdAt: string) returns (resp: Response)
      requires Valid()
      modifies this, store
      ensures Valid()
      ensures !Filled(body.name) || !Filled(body.date) ==>
                resp == BadRequest(MissingFieldsError) &&
                reservations == old(reservations) && nextId == old(nextId) &&
                store.buckets == old(store.buckets)
      ensures Filled(body.name) && Filled(body.date) ==>
                var r := NewReservation(old(nextId), body.name.value, body.date.value, body, createdAt);
                resp == Created(r) &&
                reservations == old(reservations) + [r] && nextId == old(nextId) + 1 &&
                store.buckets == SetStatus(old(store.buckets), body.date.value, Booked, body.name).0 &&
                Find(store.buckets, body.date.value) ==
                  Mirrored(Find(old(store.buckets), body.date.value), Booked, body.name) &&
                GetById(r.id) == Ok(r)
    {
      if !Filled(body.name) || !Filled(body.date) {
        return BadRequest(MissingFieldsError);
      }
      var name, date := body.name.value, body.date.value;
      var r := NewReservation(nextId, name, date, body, createdAt);
      nextId := nextId + 1;
      SetStatusFind(store.buckets, date, Booked, Some(name), date);
      var _ := store.SetSlotStatus(date, Booked, Some(name));
      AppendNewest(reservations, r.id, r);
      reservations := reservations + [r];
      return Created(r);
    }

    /** `GET /reservations/:id`: the reservation with that id, or not found; reads only. */
    function GetById(id: int): (resp: Response)
      reads this
      ensures resp.Ok? <==> exists i :: 0 <= i < |reservations| && reservations[i].id == id
      ensures resp.Ok? ==> resp.reservation in reservations && resp.reservation.id == id
      ensures !resp.Ok? ==> resp == NotFound(NotFoundError)
    {
      match IndexOfId(reservations, id)
      case None => NotFound(NotFoundError)
      case Some(i) => Ok(reservations[i])
    }

    /**
     * `DELETE /reservations/:id`: an unknown id changes nothing; otherwise the
     * reservation stays in the ledger marked cancelled, and the slot at its
     * date (if any) becomes available again with its note kept.
     */
    method Cancel(id: int) returns (resp: Response)
      requires Valid()
      modifies this, store
      ensures Valid()
      ensures nextId == old(nextId) && |reservations| == |old(reservations)|
      ensures IndexOfId(old(reservations), id).None? ==>
                resp == NotFound(NotFoundError) &&
                reservations == old(reservations) && store.buckets == old(store.buckets)
      ensures IndexOfId(old(reservations), id).Some? ==>
                var i := IndexOfId(old(reservations), id).value;
                var r := old(reservations)[i].(status := Cancelled);
                resp == Ok(r) &&
                reservations == old(reservations)[i := r] &&
                store.buckets == SetStatus(old(store.buckets), r.date, Available, None).0 &&
                Find(store.buckets, r.date) == Mirrored(Find(old(store.buckets), r.date), Available, None) &&
                GetById(id) == Ok(r)
    {
      match IndexOfId(reservations, id)
      case None =>
        return NotFound(NotFoundError);
      case Some(i) =>
        var r := reservations[i].(status := Cancelled);
        reservations := reservations[i := r];
        IndexOfIdUnique(reservations, nextId, i);
        SetStatusFind(store.buckets, r.date, Available, None, r.date);
        var _ := store.SetSlotStatus(r.date, Available, None);
        return Ok(r);
    }
  }

  datatype DaySlotsResponse =
    | Slots(slots: seq<Slot>)
    | InvalidDate(error: string)

  /**
   * `GET /day-slots?date=…`: a missing date or one not of the form
   * `dddd-dd-dd` is refused before the store is read; otherwise exactly the
   * slots the store holds on that day, in time order, among them every hour
   * slot of that date.
   */
  function DaySlots(store: SlotStore, date: Option<string>): (r: DaySlotsResponse)
    reads store
    requires store.Valid()
    ensures r.InvalidDate? <==> date.None? || !IsDateKeyFormat(date.value)
    ensures r.InvalidDate? ==> r.error == DateParamError
    ensures r.Slots? ==> r.slots == store.SlotsForDate(date.value)
    ensures r.Slots? ==> SortedByDateTime(r.slots)
    ensures r.Slots? ==> forall x :: x in r.slots ==> DateKeyOf(x.datetime) == date.value
    ensures r.Slots? ==> forall h :: Find(store.buckets, HourDateTime(date.value, h)).Some? ==>
                           Find(store.buckets, HourDateTime(date.value, h)).value in r.slots
  {
    if date.None? || !IsDateKeyFormat(date.value) then InvalidDate(DateParamError)
    else
      var r := store.SlotsForDateFull(date.value);
      assert forall h :: Find(store.buckets, HourDateTime(date.value, h)).Some? ==>
                         Find(store.buckets, HourDateTime(date.value, h)).value in r by {
        forall h | Find(store.buckets, HourDateTime(date.value, h)).Some?
          ensures Find(store.buckets, HourDateTime(date.value, h)).value in r
        {
          var dt := HourDateTime(date.value, h);
          DateKeyFormatKey(date.value, h);
          FoundAt(store.buckets, dt);
        }
      }
      Slots(r)
  }
}

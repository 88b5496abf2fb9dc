/** The records of the booking service: slots of the schedule and guest reservations. */
module Types {
  import opened Wrappers

  datatype SlotStatus = Available | Booked | Blocked

  /**
   * One bookable hour. `duration` is in hours; the stored records carry it even
   * though the shared interface declaration omits it.
   */
  datatype Slot = Slot(datetime: string, duration: int, status: SlotStatus, note: Option<string>)

  datatype ReservationStatus = Confirmed | Cancelled

  datatype Reservation = Reservation(
    id: int,
    name: string,
    date: string,
    guests: int,
    comment: string,
    status: ReservationStatus,
    createdAt: string)

  /** The JSON body of a create request; any field may be missing. */
  datatype CreateReservationBody = CreateReservationBody(
    name: Option<string>,
    date: Option<string>,
    guests: Option<int>,
    comment: Option<string>)
}

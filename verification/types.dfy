/** The data model of the booking demo: rooms, guests and bookings are
    identified by numbers, calendar dates are day numbers, and the store is
    the pair of tables the two handlers read and write. */
module BookingTypes {

  type RoomId = nat
  type GuestId = nat
  type BookingId = nat

  /** A calendar date as a day number: day `d + 1` is the date after day `d`. */
  type Day = int

  /** The status column of a booking. `Reserved`, `Pending` and `Canceled`
      are the declared constants (`Pending` is stored as the text "Confirm");
      `Booked` is the value the confirm handler writes, which is none of them. */
  datatype Status = Reserved | Pending | Canceled | Booked

  /** A booking row. The stay occupies the nights `start .. end - 1`: the
      check-out day `end` is not a night of the stay. */
  datatype Booking = Booking(room: RoomId, guest: GuestId, start: Day, end: Day, status: Status)

  /** The fields of a reserve request that the transaction uses. `id` is the
      primary key bound from the request body; 0 means "not given", and the
      store then assigns the next value of its id sequence. */
  datatype Request = Request(id: BookingId, room: RoomId, guest: GuestId, start: Day, end: Day)

  datatype Error =
    | RoomNotAvailable   // the rows found do not number the nights asked for
    | NoRoomsAvailable   // some night in range has no room left
    | DuplicateId        // the booking insert hit an existing primary key
    | NotFound           // confirm: no booking with that id
    | NotReserved        // confirm: the booking is not in the Reserved state

  datatype Result<+T> = Ok(value: T) | Err(error: Error)

  /** The availability table, one entry per (room, date): rooms left that night.
      A map has one value per key, so this representation assumes what the
      table's schema does not enforce, that (room, date) identifies a row. */
  type Ledger = map<(RoomId, Day), nat>

  datatype Store = Store(ledger: Ledger, bookings: map<BookingId, Booking>, nextId: BookingId)

  /** The outcome of one handler: what it answers and the store it leaves. */
  datatype Step<+T> = Step(result: Result<T>, store: Store)
}

/** The two handlers of the booking demo as atomic transitions of the store:
    reserve (one database transaction) and confirm. */
module Reservation {
  import opened BookingTypes
  import opened Availability

  /** The primary key the insert uses: the one from the request, or the next
      value of the store's id sequence when the request leaves it at 0. */
  function AssignedId(s: Store, req: Request): BookingId {
    if req.id == 0 then s.nextId else req.id
  }

  /** The booking row the reserve handler inserts: the request's room, guest
      and dates, with the status overwritten to Reserved. */
  function NewBooking(req: Request): Booking {
    Booking(req.room, req.guest, req.start, req.end, Reserved)
  }

  /** The body of the reserve transaction, run on the transaction's working
      copy of the store: select the rows, check their number, check each has
      a room left, take one room from each, then insert the booking. */
  function ReserveTx(s: Store, req: Request): Result<(BookingId, Store)> {
    match TakeRange(s.ledger, req.room, req.start, req.end)
    case Err(e) => Err(e)
    case Ok(ledger) =>
      var id := AssignedId(s, req);
      if id in s.bookings then Err(DuplicateId)
      else
        var next := if req.id == 0 then s.nextId + 1 else s.nextId;
        Ok((id, Store(ledger, s.bookings[id := NewBooking(req)], next)))
  }

  /** Reserve: the transaction commits its working copy on success and rolls
      everything back on any failure, so a failed reservation leaves both
      tables as they were, even when the failure comes after the ledger was
      updated. The id sequence is outside the transaction: an insert that
      drew its key from the sequence has used that value up, whether or not
      the insert succeeds. */
  function Reserve(s: Store, req: Request): (o: Step<BookingId>)
    ensures o.result.Err? ==> o.store.ledger == s.ledger && o.store.bookings == s.bookings
    ensures o.result == Err(RoomNotAvailable) || o.result == Err(NoRoomsAvailable) ==> o.store == s
    ensures o.result.Ok? || o.result == Err(DuplicateId) ==>
              o.store.nextId == if req.id == 0 then s.nextId + 1 else s.nextId
    ensures o.result == Err(RoomNotAvailable) <==>
              !(req.start <= req.end && Provisioned(s.ledger, req.room, req.start, req.end))
    ensures o.result == Err(NoRoomsAvailable) <==>
              && req.start <= req.end && Provisioned(s.ledger, req.room, req.start, req.end)
              && exists d :: req.start <= d < req.end && s.ledger[(req.room, d)] == 0
    ensures o.result == Err(DuplicateId) <==>
              && req.start <= req.end && Provisioned(s.ledger, req.room, req.start, req.end)
              && RoomLeftEachNight(s.ledger, req.room, req.start, req.end)
              && AssignedId(s, req) in s.bookings
    ensures o.result.Ok? <==>
              && req.start <= req.end && Provisioned(s.ledger, req.room, req.start, req.end)
              && RoomLeftEachNight(s.ledger, req.room, req.start, req.end)
              && AssignedId(s, req) !in s.bookings
    // on success: one room fewer on each night of the stay, nothing else in the ledger changes
    ensures o.result.Ok? ==> o.store.ledger.Keys == s.ledger.Keys
    ensures o.result.Ok? ==> forall k :: k in s.ledger ==>
              o.store.ledger[k] == if k.0 == req.room && req.start <= k.1 < req.end then s.ledger[k] - 1 else s.ledger[k]
    // on success: exactly one new booking, Reserved, for the request; the others untouched
    ensures o.result.Ok? ==> o.result.value == AssignedId(s, req) && o.result.value !in s.bookings
    ensures o.result.Ok? ==> o.store.bookings.Keys == s.bookings.Keys + {o.result.value}
    ensures o.result.Ok? ==> o.store.bookings[o.result.value] == NewBooking(req)
    ensures o.result.Ok? ==> forall id :: id in s.bookings ==> o.store.bookings[id] == s.bookings[id]
  {
    match ReserveTx(s, req)
    case Ok((id, s')) => Step(Ok(id), s')
    case Err(e) =>
      var drawn := e == DuplicateId && req.id == 0;
      Step(Err(e), if drawn then s.(nextId := s.nextId + 1) else s)
  }

  /** Confirm: an unknown id is NotFound, a booking not in the Reserved state
      is refused, and otherwise the booking's status becomes Booked. The
      ledger is not touched: the rooms were taken when the booking was made. */
  function Confirm(s: Store, id: BookingId): (o: Step<Booking>)
    ensures o.result == Err(NotFound) <==> id !in s.bookings
    ensures o.result == Err(NotReserved) <==> id in s.bookings && s.bookings[id].status != Reserved
    ensures o.result.Ok? <==> id in s.bookings && s.bookings[id].status == Reserved
    ensures o.result.Err? ==> o.store == s
    ensures o.result.Ok? ==> o.store.ledger == s.ledger && o.store.nextId == s.nextId
    ensures o.result.Ok? ==> o.store.bookings.Keys == s.bookings.Keys
    ensures o.result.Ok? ==> o.result.value == o.store.bookings[id] && o.result.value.status == Booked
    ensures o.result.Ok? ==> o.result.value == s.bookings[id].(status := Booked)
    ensures o.result.Ok? ==> forall b :: b in s.bookings && b != id ==> o.store.bookings[b] == s.bookings[b]
  {
    if id !in s.bookings then Step(Err(NotFound), s)
    else if s.bookings[id].status != Reserved then Step(Err(NotReserved), s)
    else
      var b := s.bookings[id].(status := Booked);
      Step(Ok(b), s.(bookings := s.bookings[id := b]))
  }

  /** A second confirm of the same booking is refused and changes nothing. */
  lemma ConfirmTwiceRefused(s: Store, id: BookingId)
    requires Confirm(s, id).result.Ok?
    ensures var s' := Confirm(s, id).store;
            Confirm(s', id) == Step(Err(NotReserved), s')
  {
  }

  /** A booking just made by reserve can be confirmed, and confirming it
      leaves the ledger exactly as the reservation left it. */
  lemma ReserveThenConfirm(s: Store, req: Request)
    requires Reserve(s, req).result.Ok?
    ensures var r := Reserve(s, req);
            var c := Confirm(r.store, r.result.value);
            c.result.Ok? && c.store.ledger == r.store.ledger
            && c.result.value == Booking(req.room, req.guest, req.start, req.end, Booked)
  {
  }

  /** A stay of zero nights selects no rows, so it passes both guards and is
      booked without touching the ledger. */
  lemma ZeroNightReservation(s: Store, req: Request)
    requires req.start == req.end && AssignedId(s, req) !in s.bookings
    ensures Reserve(s, req).result.Ok?
    ensures Reserve(s, req).store.ledger == s.ledger
  {
  }

  /** A reversed range never passes the count guard. */
  lemma ReversedRangeRefused(s: Store, req: Request)
    requires req.end < req.start
    ensures Reserve(s, req) == Step(Err(RoomNotAvailable), s)
  {
  }

  /** The check-out day is not a night of the stay: its row, if any, keeps its
      count through a reservation. */
  lemma CheckOutDayUntouched(s: Store, req: Request)
    requires (req.room, req.end) in s.ledger
    ensures var o := Reserve(s, req);
            (req.room, req.end) in o.store.ledger
            && o.store.ledger[(req.room, req.end)] == s.ledger[(req.room, req.end)]
  {
  }

  /** Reserve never takes a room count below zero: an available night keeps a
      count of at least zero, and a night at zero makes the reservation fail. */
  lemma ReserveNeverOverdraws(s: Store, req: Request)
    requires Reserve(s, req).result.Ok?
    ensures forall d :: req.start <= d < req.end ==>
              (req.room, d) in s.ledger && s.ledger[(req.room, d)] >= 1
              && Reserve(s, req).store.ledger[(req.room, d)] + 1 == s.ledger[(req.room, d)]
  {
  }

  /** One room per night on days 1, 2 and 3: a stay from day 1 to day 3 takes
      nights 1 and 2; a second stay from day 1 to day 2 then finds no room;
      a stay from day 3 to day 4 still gets the room of night 3. */
  lemma OneRoomScenario()
    ensures var s0 := Store(map[(7, 1) := 1, (7, 2) := 1, (7, 3) := 1], map[], 1);
            var a := Reserve(s0, Request(0, 7, 100, 1, 3));
            var b := Reserve(a.store, Request(0, 7, 200, 1, 2));
            var c := Reserve(b.store, Request(0, 7, 200, 3, 4));
            && a.result == Ok(1)
            && a.store.ledger[(7, 1)] == 0 && a.store.ledger[(7, 2)] == 0 && a.store.ledger[(7, 3)] == 1
            && b == Step(Err(NoRoomsAvailable), a.store)
            && c.result == Ok(2)
            && c.store.ledger[(7, 3)] == 0
  {
    var s0 := Store(map[(7, 1) := 1, (7, 2) := 1, (7, 3) := 1], map[], 1);
    assert s0.ledger.Keys == {(7, 1), (7, 2), (7, 3)};
    assert Provisioned(s0.ledger, 7, 1, 3);
    assert RoomLeftEachNight(s0.ledger, 7, 1, 3);
    var a := Reserve(s0, Request(0, 7, 100, 1, 3));
    assert a.result.Ok?;
    var l := a.store.ledger;
    assert l.Keys == {(7, 1), (7, 2), (7, 3)};
    assert l[(7, 1)] == 0 && l[(7, 2)] == 0 && l[(7, 3)] == 1;
    assert a.store.nextId == 2;
    assert Provisioned(l, 7, 1, 2);
    var b := Reserve(a.store, Request(0, 7, 200, 1, 2));
    assert b.result == Err(NoRoomsAvailable);
    assert Provisioned(l, 7, 3, 4);
    assert RoomLeftEachNight(l, 7, 3, 4);
    assert 2 !in a.store.bookings;
  }

  /** An automatic id that collides with an explicitly inserted booking is
      used up, so retrying the same request tries the next id: with booking 1
      already present, the first zero-night reservation fails on the key and
      the retry is booked as 2. */
  lemma RetryAfterIdCollision()
    ensures var b := Booking(7, 1, 5, 5, Booked);
            var s0 := Store(map[], map[1 := b], 1);
            var req := Request(0, 7, 2, 5, 5);
            var first := Reserve(s0, req);
            && first == Step(Err(DuplicateId), s0.(nextId := 2))
            && Reserve(first.store, req).result == Ok(2)
  {
    var b := Booking(7, 1, 5, 5, Booked);
    var s0 := Store(map[], map[1 := b], 1);
    var req := Request(0, 7, 2, 5, 5);
    assert Provisioned(s0.ledger, 7, 5, 5);
    var first := Reserve(s0, req);
    assert first.result == Err(DuplicateId);
  }
}

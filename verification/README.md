# Room reservation core of the booking demo, in Dafny

The demo service books hotel rooms night by night. An availability table has one
row per room and date, holding the number of rooms left that night. A booking
table holds the stays. Two handlers change them:

- **reserve** runs one database transaction over the stay `[start, end)`. The
  check-out day `end` is not a night of the stay. The transaction selects the
  room's availability rows dated from `start` to `end - 1`. It fails unless
  there are as many rows as nights. It fails if any of those rows has no room
  left. Otherwise it takes one room from each row and inserts the booking with
  status `Reserved`. Any failure rolls the whole transaction back.
- **confirm** looks a booking up by id. An unknown id is refused as not found.
  A booking whose status is not `Reserved` is refused. Otherwise the booking's
  status becomes `Booked`, and the availability table is not touched.

The model is functional. A `Store` holds the ledger (a `map<(RoomId, Day), nat>`
of rooms left), the bookings (a `map<BookingId, Booking>`) and the next value
of the booking id sequence. `Reserve` and `Confirm` are pure functions that
return a `Step`: the handler's result (`Ok` or an `Error`) and the store it
leaves behind. Dates are whole day numbers.

Modules:

- `BookingTypes` (`types.dfy`): statuses, bookings, requests, errors, the store.
- `Availability` (`availability.dfy`): the ledger step of the reserve
  transaction (`TakeRange`) and the row-count guard.
- `Reservation` (`reservation.dfy`): `Reserve` (the whole transaction, with
  rollback) and `Confirm`, with lemmas relating them.
- `Capacity` (`capacity.dfy`): an accounting invariant kept by every sequence of
  reserve and confirm calls: rooms left plus bookings holding a night equals the
  rooms provisioned. It implies that no night is ever overbooked.
- `RowTable` (`rows.dfy`): the availability table as the schema declares it, a
  list of rows in which (room, date) need not be unique. It holds the ledger
  step as written on rows, and its agreement with the keyed ledger when
  (room, date) is unique.

The keyed ledger assumes one row per (room, date). The schema at
`demo/main.go:84-91` does not enforce this. `RowTable` shows what happens
without it (see Findings).

The code has no `start < end` check. A zero-night request selects no rows,
passes both guards and is booked without touching the ledger. A reversed
request fails the count guard, because the row count cannot be negative.

## Model

| member | source | states |
|---|---|---|
| Availability.TakeRange | demo/main.go:138-169 | The ledger step fails with the "room not available" error exactly when the range is reversed or some night in `[start, end)` has no row. It fails with "no rooms available" exactly when every night has a row but one of them is at zero. Otherwise every row of the room on a night of the stay loses exactly one room, and every other row (including the check-out day) keeps its count. |
| Availability.CountMatchesIffProvisioned | demo/main.go:140-151 | Comparing the number of selected rows with `end - start` is the same as asking that the range is not reversed and every night of the stay has a row. |
| Availability.SelectedAreNights | demo/main.go:141-145 | The query "dated between `start` and `end - 1`" selects exactly the nights of the half-open stay `[start, end)` that have a row. |
| Reservation.Reserve | demo/main.go:137-178 | A failed reserve leaves both tables unchanged, even when the insert fails after the ledger was updated. A failure in the guards leaves the whole store unchanged. An insert that drew its key from the id sequence advances the sequence, whether it succeeds or hits a duplicate key. The error is "room not available" iff a night lacks a row or the range is reversed. It is "no rooms available" iff the nights are covered but one is at zero. It is a duplicate id iff the guards pass but the primary key exists. On success, each night of the stay loses one room and nothing else in the ledger changes. Exactly one booking is added, under a fresh id, with the request's room, guest and dates and status `Reserved`, and every existing booking is unchanged. |
| Reservation.Confirm | demo/main.go:188-208 | An unknown id gives NotFound and a booking not in `Reserved` is refused; both change nothing. Otherwise only that booking changes, its status becoming `Booked`, and the ledger, the other bookings and the id sequence are unchanged. |
| Reservation.RetryAfterIdCollision | demo/main.go:171-175 | With booking 1 already present and the sequence at 1, an automatic-id reservation fails on the duplicate key but uses up id 1, so the same request retried is booked as 2. |
| Reservation.ConfirmTwiceRefused | demo/main.go:197-205 | After a successful confirm, confirming the same booking again is refused and changes nothing. |
| Reservation.ReserveThenConfirm | demo/main.go:172-175 | A booking just reserved can be confirmed. Confirming leaves the ledger as the reservation left it, and the booking reads back with the request's room, guest and dates and status `Booked`. |
| Reservation.ZeroNightReservation | demo/main.go:140-151 | A request with `end == start` and a free id is booked with the ledger unchanged. |
| Reservation.ReversedRangeRefused | demo/main.go:149-151 | A request with `end < start` is refused as "room not available", with no change. |
| Reservation.CheckOutDayUntouched | demo/main.go:141-144 | The row of the check-out day keeps its count through any reserve call. |
| Reservation.ReserveNeverOverdraws | demo/main.go:153-167 | When a reservation succeeds, every night of the stay had a row with at least one room, and that row now has exactly one fewer. |
| Reservation.OneRoomScenario | demo/main.go:137-178 | With one room on nights 1-3: a stay from 1 to 3 succeeds and empties nights 1 and 2. A later stay from 1 to 2 fails with "no rooms available" and changes nothing. A stay from 3 to 4 still succeeds. |
| Capacity.ReserveKeepsAccounts | demo/main.go:137-178 | Reserve keeps the invariant: each provisioned night's rooms left plus the bookings holding it equals the rooms provisioned, and every booked night was provisioned. |
| Capacity.ConfirmKeepsAccounts | demo/main.go:197-205 | Confirm keeps the same invariant, since changing a status neither frees nor takes a room. |
| Capacity.RunKeepsAccounts | demo/main.go:137-208 | Every sequence of reserve and confirm calls keeps the invariant. |
| Capacity.NoOverbooking | demo/main.go:149-169 | From a freshly provisioned store with no bookings, after any sequence of calls, the bookings holding a night never outnumber the rooms provisioned for it. A night with no row is held by no booking. |
| RowTable.ReserveRows | demo/main.go:143-169 | The ledger step as written, on a table where (room, date) need not be unique. It fails with "room not available" exactly when the number of matching positions in the table, each copy of a duplicate counted, differs from `end - start`. It fails with "no rooms available" exactly when the count matches and some matching row is at zero. On success, every matching row had a room and now has one fewer, and every other row is unchanged. |
| RowTable.TakeOneRows | demo/main.go:159-169 | The update keeps every row in place with the same room and date. Each row matching the query has one room fewer, and every other row keeps its count. |
| RowTable.NoRoomInSelected | demo/main.go:153-157 | Some returned row has no room left exactly when some row of the table matching the query has none. |
| RowTable.SelectMembers | demo/main.go:143-145 | Every row the query returns is a row of the table for the room dated from `start` to `end - 1`, and every such row of the table is returned. |
| RowTable.SelectLength | demo/main.go:143-149 | The query returns as many rows as there are matching positions in the table, so each copy of a duplicated row is counted. This is the number the guard compares with `end - start`. |
| RowTable.SelectLengthFrom | demo/main.go:143-145 | For any suffix of the table, the rows the query returns from it number the matching positions from that point on. |
| RowTable.SelectCount | demo/main.go:143-151 | When (room, date) is unique, the number of rows the query returns equals the number of nights of the stay that have a row. |
| RowTable.EmptyRowIffEmptyDate | demo/main.go:153-157 | When (room, date) is unique, some returned row has no room left exactly when some selected night of the keyed ledger has none. |
| RowTable.TakeOneRowsRefines | demo/main.go:160-169 | Taking one room from every returned row takes one room from every selected (room, date) of the ledger the table stands for, and from nothing else. |
| RowTable.ReserveRowsRefines | demo/main.go:143-169 | When (room, date) is unique, the ledger step on rows and on the keyed ledger agree: the same error, or tables that stand for the same ledger. |
| RowTable.DuplicateRowHidesMissingNight | demo/main.go:143-169 | As written: two rows for night 1 and none for night 2 let a stay from day 1 to day 3 pass the count guard. The reservation then takes both rooms of night 1. |

## Left out

- HTTP plumbing: Gin routing, JSON binding and its 400 error, the HTTP status
  codes, and the stub `/hotels` and `/rooms` routes (`demo/main.go:107-119`,
  `demo/main.go:210`). Errors are the abstract `Error` type.
- Persistence and concurrency: the Postgres connection and `AutoMigrate`
  (`demo/main.go:95-104`), and the `FOR UPDATE` option requested at
  `demo/main.go:143`, which GORM v2 does not apply. Each handler is one atomic
  transition. The confirm handler reads and then saves
  outside any transaction, so two concurrent confirms could both succeed. That
  interleaving is not modelled.
- Storage failures: a failing select (`demo/main.go:145-146`), update
  (`demo/main.go:167-168`) or lookup other than "not found"
  (`demo/main.go:192`). The error from `db.Save` in confirm, which the code
  ignores (`demo/main.go:205`), is also not modelled. The only insert failure
  modelled is a duplicate primary key.
- Time: dates are whole day numbers. The night count computed in floating-point
  hours (`demo/main.go:140`) is exact for whole days, up to the saturation
  described under `Availability.TakeRange` below. Time of day and
  daylight-saving shifts are not modelled.
- Money: `PricePerNight` and `TotalAmount` (`demo/main.go:57`, `demo/main.go:77`).
- `User`, `Hotel` and the `Room` metadata (`demo/main.go:13-60`): CRUD only. A
  room is just a number.
- Booking fields bound from the request other than the id, room, guest and
  dates. The bound status is overwritten with `Reserved` (`demo/main.go:172`)
  and the timestamps carry no logic.
- Availability.TakeRange: compares the row count with `end - start`. The code
  computes the night count from a `time.Duration`, which saturates at about
  292 years (`demo/main.go:140`). For a stay of 106752 nights or more, the code
  compares the row count with 106751 instead. Such a stay, with rows on
  exactly 106751 of its nights, passes the code's guard but fails in the model.
  This is not modelled because the keyed ledger and the capacity accounting
  assume the night count is the length of the stay. Reservation.Reserve
  inherits the same difference. A request that omits `start_date` binds Go's
  zero time (year 1) and falls into this case.
- Reservation.Confirm: takes a numeric booking id. The handler passes the raw
  path text to `db.First` (`demo/main.go:189`, `demo/main.go:192`). GORM uses
  numeric text as the primary key, but treats other text as a raw SQL
  condition: `/bookings/1=1/confirm` selects the booking with the lowest id and
  confirms it if it is `Reserved`, where the model would answer NotFound. The
  model covers numeric ids only, because the outcome of arbitrary SQL text is
  outside the tables modelled here.
- Status values: the column is a string and could hold any text. The model has
  the three declared constants plus `Booked`, the value confirm writes.
- Release, cancellation and expiry: the code has none. The timeout watcher in
  `redis-timeout-callback/main.go` is Redis I/O around an empty callback
  (`redis-timeout-callback/main.go:53-56`). So there is no `Released` state, no
  hold timeout, no release idempotence, no hold-then-release round trip and no
  confirm-versus-expiry race to model. `Canceled` is declared but nothing moves
  a booking into it.

## Findings

| source | as written | input that shows it | evidently intended | confidence | as-written member | corrected member |
|---|---|---|---|---|---|---|
| demo/main.go:84-91 | The availability schema has no unique constraint on (room, date). The guard at `demo/main.go:149` compares the number of selected rows with the number of nights. | Room 7 with two rows dated day 1 and no row for day 2, each with one room; reserve day 1 to day 3. The count is 2 = 2 nights, so the guard passes. Both night-1 rows lose a room, and a booking is made for night 2, which has no inventory. | A reservation succeeds only if every night of the stay has its own row with a room left. | medium, not executed | RowTable.DuplicateRowHidesMissingNight | Availability.CountMatchesIffProvisioned |

The keyed ledger used by `Reservation.Reserve` has one entry per (room, date)
by construction. `Availability.CountMatchesIffProvisioned` proves that its count
guard holds exactly when every night is covered. `RowTable.ReserveRowsRefines`
proves that the code as written behaves the same way whenever (room, date) is
unique.

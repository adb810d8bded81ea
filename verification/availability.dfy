/** The availability ledger as the reserve transaction reads and writes it:
    select the rows of a room for a date range, count them, check each has a
    room left, and take one room from each. */
module Availability {
  import opened BookingTypes

  /** The nights of a stay from `start` to check-out day `end`. */
  function Nights(start: Day, end: Day): set<Day>
    decreases end - start
  {
    if end <= start then {} else Nights(start, end - 1) + {end - 1}
  }

  /** Every night of the stay has a ledger row for the room. */
  predicate Provisioned(l: Ledger, room: RoomId, start: Day, end: Day) {
    forall d :: start <= d < end ==> (room, d) in l
  }

  /** Every night of the stay that has a row has at least one room left. */
  predicate RoomLeftEachNight(l: Ledger, room: RoomId, start: Day, end: Day) {
    forall d :: start <= d < end && (room, d) in l ==> l[(room, d)] >= 1
  }

  /** The dates of the rows the reserve query selects: the room's rows dated
      between the first night and the last night, `end - 1`, both included. */
  function SelectedDates(l: Ledger, room: RoomId, start: Day, end: Day): set<Day> {
    set d | start <= d <= end - 1 && (room, d) in l
  }

  /** One of the room's rows on the given dates has no room left. */
  predicate NoRoomOnSome(l: Ledger, room: RoomId, dates: set<Day>) {
    exists d :: d in dates && (room, d) in l && l[(room, d)] < 1
  }

  /** The row-count guard: as many rows as nights, where the night count is
      `end - start` and may be zero or negative. */
  predicate CountMatches(l: Ledger, room: RoomId, start: Day, end: Day) {
    |SelectedDates(l, room, start, end)| == end - start
  }

  /** Take one room from the room's row on each of the given dates. */
  function TakeOne(l: Ledger, room: RoomId, dates: set<Day>): Ledger
    requires forall k :: k in l && k.0 == room && k.1 in dates ==> l[k] >= 1
  {
    map k | k in l :: if k.0 == room && k.1 in dates then l[k] - 1 else l[k]
  }

  /** The ledger step of the reserve transaction: fail unless the rows
      selected for the stay number its nights, fail if one of them has no room
      left, and otherwise take one room from each. */
  function TakeRange(l: Ledger, room: RoomId, start: Day, end: Day): (r: Result<Ledger>)
    ensures r == Err(RoomNotAvailable) <==> !(start <= end && Provisioned(l, room, start, end))
    ensures r == Err(NoRoomsAvailable) <==>
              && start <= end && Provisioned(l, room, start, end)
              && exists d :: start <= d < end && l[(room, d)] == 0
    ensures r.Ok? <==> start <= end && Provisioned(l, room, start, end) && RoomLeftEachNight(l, room, start, end)
    ensures r.Ok? ==> r.value.Keys == l.Keys
    ensures r.Ok? ==> forall k :: k in l ==>
              r.value[k] == if k.0 == room && start <= k.1 < end then l[k] - 1 else l[k]
  {
    CountMatchesIffProvisioned(l, room, start, end);
    SelectedAreNights(l, room, start, end);
    var dates := SelectedDates(l, room, start, end);
    if !CountMatches(l, room, start, end) then Err(RoomNotAvailable)
    else if NoRoomOnSome(l, room, dates) then Err(NoRoomsAvailable)
    else Ok(TakeOne(l, room, dates))
  }

  /** The nights of a stay are the days from `start` up to, not including, `end`. */
  lemma {:induction false} NightsMembers(start: Day, end: Day)
    ensures forall d :: d in Nights(start, end) <==> start <= d < end
    decreases end - start
  {
    if start < end {
      NightsMembers(start, end - 1);
    }
  }

  /** A stay from `start` to `end` has `end - start` nights. */
  lemma {:induction false} NightsSize(start: Day, end: Day)
    requires start <= end
    ensures |Nights(start, end)| == end - start
    decreases end - start
  {
    if start < end {
      NightsSize(start, end - 1);
      NightsMembers(start, end - 1);
      assert end - 1 !in Nights(start, end - 1);
    }
  }

  /** The count guard holds exactly when the range is not reversed and every
      night of it has a row: a missing night leaves fewer rows than nights. */
  lemma CountMatchesIffProvisioned(l: Ledger, room: RoomId, start: Day, end: Day)
    ensures CountMatches(l, room, start, end) <==> start <= end && Provisioned(l, room, start, end)
  {
    var sel := SelectedDates(l, room, start, end);
    if start <= end {
      var all := Nights(start, end);
      NightsSize(start, end);
      NightsMembers(start, end);
      assert sel <= all;
      var missing := all - sel;
      assert sel + missing == all;
      assert sel * missing == {};
      assert |sel| + |missing| == end - start;
      if Provisioned(l, room, start, end) {
        assert missing == {};
      } else {
        var d :| start <= d < end && (room, d) !in l;
        assert d in missing;
      }
    } else {
      assert sel == {};
    }
  }

  /** The selected dates are the nights of the stay that have a row; in
      particular the check-out day is never among them. */
  lemma SelectedAreNights(l: Ledger, room: RoomId, start: Day, end: Day)
    ensures forall d :: d in SelectedDates(l, room, start, end) <==> start <= d < end && (room, d) in l
  {
  }
}

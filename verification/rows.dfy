/** The availability table as the schema declares it: a list of rows, each
    with its own primary key, and nothing that makes (room, date) unique.
    The ledger step of the reserve transaction is modelled here as written,
    on rows, and related to the keyed ledger of the Availability module. */
module RowTable {
  import opened BookingTypes
  import opened Availability

  /** One availability row. Its primary key is not modelled: a row is
      identified by its position in the table. */
  datatype Row = Row(room: RoomId, date: Day, roomsLeft: nat)

  function Key(r: Row): (RoomId, Day) {
    (r.room, r.date)
  }

  /** The row matches the reserve query: the room, dated between the first
      night and the last night `end - 1`, both included. */
  predicate InRange(r: Row, room: RoomId, start: Day, end: Day) {
    r.room == room && start <= r.date <= end - 1
  }

  /** The rows the reserve query returns, in table order. */
  function Select(t: seq<Row>, room: RoomId, start: Day, end: Day): seq<Row>
    decreases |t|
  {
    if t == [] then []
    else (if InRange(t[0], room, start, end) then [t[0]] else []) + Select(t[1..], room, start, end)
  }

  /** The update: one room fewer in every row the query matched, the same
      rows in the same places, every other row as it was. */
  function TakeOneRows(t: seq<Row>, room: RoomId, start: Day, end: Day): (t': seq<Row>)
    requires forall i :: 0 <= i < |t| && InRange(t[i], room, start, end) ==> t[i].roomsLeft >= 1
    ensures |t'| == |t|
    ensures forall i :: 0 <= i < |t| ==>
              && Key(t'[i]) == Key(t[i])
              && t'[i].roomsLeft + (if InRange(t[i], room, start, end) then 1 else 0) == t[i].roomsLeft
    decreases |t|
  {
    if t == [] then []
    else
      var r := if InRange(t[0], room, start, end) then t[0].(roomsLeft := t[0].roomsLeft - 1) else t[0];
      [r] + TakeOneRows(t[1..], room, start, end)
  }

  /** The ledger step of the reserve transaction on the table as written: the
      number of rows returned, one per matching row of the table, duplicates
      included, is compared with the number of nights, then
      every returned row must have a room left, then each loses one. Nothing
      here needs (room, date) to be unique. */
  function ReserveRows(t: seq<Row>, room: RoomId, start: Day, end: Day): (r: Result<seq<Row>>)
    ensures r == Err(RoomNotAvailable) <==> |Matching(t, room, start, end)| != end - start
    ensures r == Err(NoRoomsAvailable) <==>
              && |Matching(t, room, start, end)| == end - start
              && exists i :: 0 <= i < |t| && InRange(t[i], room, start, end) && t[i].roomsLeft == 0
    ensures r.Ok? ==> forall i :: 0 <= i < |t| && InRange(t[i], room, start, end) ==> t[i].roomsLeft >= 1
    ensures r.Ok? ==> |r.value| == |t|
    ensures r.Ok? ==> forall i :: 0 <= i < |t| ==>
              && Key(r.value[i]) == Key(t[i])
              && r.value[i].roomsLeft == if InRange(t[i], room, start, end) then t[i].roomsLeft - 1 else t[i].roomsLeft
  {
    var sel := Select(t, room, start, end);
    SelectLength(t, room, start, end);
    NoRoomInSelected(t, room, start, end);
    if |sel| != end - start then Err(RoomNotAvailable)
    else if NoRoomInSome(sel) then Err(NoRoomsAvailable)
    else Ok(TakeOneRows(t, room, start, end))
  }

  /** One of the rows has no room left. */
  predicate NoRoomInSome(rows: seq<Row>) {
    exists i :: 0 <= i < |rows| && rows[i].roomsLeft < 1
  }

  /** No two rows share a (room, date). The schema does not declare this. */
  predicate UniqueKeys(t: seq<Row>) {
    forall i, j :: 0 <= i < j < |t| ==> Key(t[i]) != Key(t[j])
  }

  /** The keyed ledger a table stands for, when its (room, date) pairs are unique. */
  function ToLedger(t: seq<Row>): Ledger
    decreases |t|
  {
    if t == [] then map[] else ToLedger(t[1..])[Key(t[0]) := t[0].roomsLeft]
  }

  /** The query returns exactly the rows of the table that match it. */
  lemma {:induction false} SelectMembers(t: seq<Row>, room: RoomId, start: Day, end: Day)
    ensures forall r :: r in Select(t, room, start, end) <==> r in t && InRange(r, room, start, end)
    decreases |t|
  {
    if t != [] {
      SelectMembers(t[1..], room, start, end);
      assert t == [t[0]] + t[1..];
    }
  }

  /** The positions of the table whose rows match the reserve query. */
  function Matching(t: seq<Row>, room: RoomId, start: Day, end: Day): set<int> {
    set i | 0 <= i < |t| && InRange(t[i], room, start, end)
  }

  /** The rows the query returns from the table's suffix `t[k..]` are one per
      matching position from `k` on. */
  lemma {:induction false} SelectLengthFrom(t: seq<Row>, room: RoomId, start: Day, end: Day, k: nat)
    requires k <= |t|
    ensures |Select(t[k..], room, start, end)| == |set i | k <= i < |t| && InRange(t[i], room, start, end)|
    decreases |t| - k
  {
    var here := set i | k <= i < |t| && InRange(t[i], room, start, end);
    if k == |t| {
      assert here == {};
    } else {
      SelectLengthFrom(t, room, start, end, k + 1);
      assert t[k..][1..] == t[k + 1..];
      var later := set i | k + 1 <= i < |t| && InRange(t[i], room, start, end);
      assert here == (if InRange(t[k], room, start, end) then {k} else {}) + later;
    }
  }

  /** The query returns one row for every matching position of the table, so
      a duplicated row is returned once per copy. */
  lemma SelectLength(t: seq<Row>, room: RoomId, start: Day, end: Day)
    ensures |Select(t, room, start, end)| == |Matching(t, room, start, end)|
  {
    SelectLengthFrom(t, room, start, end, 0);
    assert t[0..] == t;
  }

  /** Some row the query returns has no room left exactly when some row of
      the table matching the query has none. */
  lemma NoRoomInSelected(t: seq<Row>, room: RoomId, start: Day, end: Day)
    ensures NoRoomInSome(Select(t, room, start, end))
            <==> exists i :: 0 <= i < |t| && InRange(t[i], room, start, end) && t[i].roomsLeft == 0
  {
    var sel := Select(t, room, start, end);
    SelectMembers(t, room, start, end);
    if NoRoomInSome(sel) {
      var i :| 0 <= i < |sel| && sel[i].roomsLeft < 1;
      assert sel[i] in t;
      var j :| 0 <= j < |t| && t[j] == sel[i];
      assert InRange(t[j], room, start, end) && t[j].roomsLeft == 0;
    }
    if exists i :: 0 <= i < |t| && InRange(t[i], room, start, end) && t[i].roomsLeft == 0 {
      var j :| 0 <= j < |t| && InRange(t[j], room, start, end) && t[j].roomsLeft == 0;
      assert t[j] in sel;
      var i :| 0 <= i < |sel| && sel[i] == t[j];
      assert sel[i].roomsLeft < 1;
    }
  }

  /** The ledger has an entry for exactly the (room, date) pairs of the rows,
      and with unique pairs each entry is its row's count. */
  lemma {:induction false} ToLedgerEntries(t: seq<Row>)
    requires UniqueKeys(t)
    ensures forall k :: k in ToLedger(t) <==> exists i :: 0 <= i < |t| && Key(t[i]) == k
    ensures forall i :: 0 <= i < |t| ==> Key(t[i]) in ToLedger(t) && ToLedger(t)[Key(t[i])] == t[i].roomsLeft
    decreases |t|
  {
    if t != [] {
      ToLedgerEntries(t[1..]);
      forall k | k in ToLedger(t)
        ensures exists i :: 0 <= i < |t| && Key(t[i]) == k
      {
        if k != Key(t[0]) {
          var i :| 0 <= i < |t[1..]| && Key(t[1..][i]) == k;
          assert Key(t[i + 1]) == k;
        }
      }
      forall i | 0 < i < |t|
        ensures ToLedger(t)[Key(t[i])] == t[i].roomsLeft
      {
        assert t[i] == t[1..][i - 1];
      }
    }
  }

  /** With unique (room, date) pairs, the query returns one row per selected
      date of the keyed ledger. */
  lemma {:induction false} SelectCount(t: seq<Row>, room: RoomId, start: Day, end: Day)
    requires UniqueKeys(t)
    ensures |Select(t, room, start, end)| == |SelectedDates(ToLedger(t), room, start, end)|
    decreases |t|
  {
    var dates := SelectedDates(ToLedger(t), room, start, end);
    if t == [] {
      assert dates == {};
    } else {
      var rest := t[1..];
      SelectCount(rest, room, start, end);
      ToLedgerEntries(rest);
      var restDates := SelectedDates(ToLedger(rest), room, start, end);
      if InRange(t[0], room, start, end) {
        assert Key(t[0]) !in ToLedger(rest);
        assert dates == restDates + {t[0].date};
      } else {
        assert dates == restDates;
      }
    }
  }

  /** With unique (room, date) pairs, some returned row has no room left
      exactly when some selected date of the keyed ledger has none. */
  lemma EmptyRowIffEmptyDate(t: seq<Row>, room: RoomId, start: Day, end: Day)
    requires UniqueKeys(t)
    ensures NoRoomInSome(Select(t, room, start, end))
            <==> NoRoomOnSome(ToLedger(t), room, SelectedDates(ToLedger(t), room, start, end))
  {
    var sel := Select(t, room, start, end);
    var l := ToLedger(t);
    SelectMembers(t, room, start, end);
    ToLedgerEntries(t);
    var rowEmpty := NoRoomInSome(sel);
    var dateEmpty := NoRoomOnSome(l, room, SelectedDates(l, room, start, end));
    if rowEmpty {
      var i :| 0 <= i < |sel| && sel[i].roomsLeft < 1;
      assert sel[i] in t;
      var j :| 0 <= j < |t| && t[j] == sel[i];
      assert Key(t[j]) == (room, t[j].date);
      assert t[j].date in SelectedDates(l, room, start, end) && l[(room, t[j].date)] < 1;
      assert dateEmpty;
    }
    if dateEmpty {
      var d :| d in SelectedDates(l, room, start, end) && l[(room, d)] < 1;
      var j :| 0 <= j < |t| && Key(t[j]) == (room, d);
      assert t[j].roomsLeft < 1;
      assert t[j] in sel;
      var i :| 0 <= i < |sel| && sel[i] == t[j];
      assert sel[i].roomsLeft < 1;
      assert rowEmpty;
    }
  }

  /** Taking a room from every returned row takes one from every selected
      (room, date) of the ledger the table stands for, and from nothing else. */
  lemma {:induction false} TakeOneRowsRefines(t: seq<Row>, room: RoomId, start: Day, end: Day)
    requires forall i :: 0 <= i < |t| && InRange(t[i], room, start, end) ==> t[i].roomsLeft >= 1
    ensures ToLedger(TakeOneRows(t, room, start, end)).Keys == ToLedger(t).Keys
    ensures forall k :: k in ToLedger(t) ==>
              ToLedger(TakeOneRows(t, room, start, end))[k] + (if k.0 == room && start <= k.1 <= end - 1 then 1 else 0)
              == ToLedger(t)[k]
    decreases |t|
  {
    if t != [] {
      var t' := TakeOneRows(t, room, start, end);
      TakeOneRowsRefines(t[1..], room, start, end);
      assert t'[1..] == TakeOneRows(t[1..], room, start, end);
      assert Key(t'[0]) == Key(t[0]);
    }
  }

  /** With unique (room, date) pairs the row-level step and the keyed-ledger
      step agree: the same error, or tables standing for the same ledger. */
  lemma ReserveRowsRefines(t: seq<Row>, room: RoomId, start: Day, end: Day)
    requires UniqueKeys(t)
    ensures ReserveRows(t, room, start, end).Err? <==> TakeRange(ToLedger(t), room, start, end).Err?
    ensures ReserveRows(t, room, start, end).Err? ==>
              ReserveRows(t, room, start, end).error == TakeRange(ToLedger(t), room, start, end).error
    ensures ReserveRows(t, room, start, end).Ok? ==>
              ToLedger(ReserveRows(t, room, start, end).value) == TakeRange(ToLedger(t), room, start, end).value
  {
    SelectCount(t, room, start, end);
    EmptyRowIffEmptyDate(t, room, start, end);
    SelectMembers(t, room, start, end);
    if ReserveRows(t, room, start, end).Ok? {
      TakeOneRowsRefines(t, room, start, end);
    }
  }

  /** As written, a duplicated row can stand in for a missing night: with two
      rows for night 1 and none for night 2, a two-night stay from day 1 passes
      the count guard and takes both rooms of night 1. */
  lemma DuplicateRowHidesMissingNight()
    ensures var t := [Row(7, 1, 1), Row(7, 1, 1)];
            && (forall i :: 0 <= i < |t| ==> Key(t[i]) != (7, 2))
            && ReserveRows(t, 7, 1, 3) == Ok([Row(7, 1, 0), Row(7, 1, 0)])
  {
    var t := [Row(7, 1, 1), Row(7, 1, 1)];
    assert t[1..] == [Row(7, 1, 1)];
    assert t[1..][1..] == [];
    assert Select(t, 7, 1, 3) == t;
    assert TakeOneRows(t, 7, 1, 3) == [Row(7, 1, 0), Row(7, 1, 0)];
  }
}

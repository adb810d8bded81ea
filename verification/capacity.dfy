/** Capacity accounting: starting from a provisioned ledger and no bookings,
    every run of reserve and confirm keeps each (room, night) row's count
    equal to what was provisioned minus the bookings that hold that night,
    so no night is ever booked beyond what was provisioned. */
module Capacity {
  import opened BookingTypes
  import opened Availability
  import opened Reservation

  /** The booking holds a room on the given (room, night): confirmed or not,
      since nothing in the system gives a room back. */
  predicate Holds(b: Booking, k: (RoomId, Day)) {
    b.room == k.0 && b.start <= k.1 < b.end
  }

  /** The ids of the bookings holding a room on (room, night) `k`. */
  function Holders(bookings: map<BookingId, Booking>, k: (RoomId, Day)): set<BookingId> {
    set id | id in bookings && Holds(bookings[id], k)
  }

  /** How many bookings hold a room on (room, night) `k`. */
  function Occupancy(bookings: map<BookingId, Booking>, k: (RoomId, Day)): nat {
    |Holders(bookings, k)|
  }

  /** Every night of the booking was provisioned. */
  predicate WithinProvision(prov: Ledger, b: Booking) {
    forall d :: b.start <= d < b.end ==> (b.room, d) in prov
  }

  /** The accounting invariant against the provisioned ledger `prov`. */
  predicate Accounts(prov: Ledger, s: Store) {
    && s.ledger.Keys == prov.Keys
    && (forall k :: k in prov ==> s.ledger[k] + Occupancy(s.bookings, k) == prov[k])
    && (forall id :: id in s.bookings ==> WithinProvision(prov, s.bookings[id]))
  }

  /** The store as provisioned: the ledger rows exist, nothing is booked yet,
      and the id sequence starts at 1. */
  function Initial(prov: Ledger): (s: Store)
    ensures Accounts(prov, s)
  {
    var s := Store(prov, map[], 1);
    assert forall k :: Holders(s.bookings, k) == {};
    s
  }

  /** A handler call. */
  datatype Op = ReserveOp(req: Request) | ConfirmOp(id: BookingId)

  function Apply(s: Store, op: Op): Store {
    match op
    case ReserveOp(req) => Reserve(s, req).store
    case ConfirmOp(id) => Confirm(s, id).store
  }

  /** The store after the calls `ops`, one after the other. */
  function Run(s: Store, ops: seq<Op>): Store
    decreases |ops|
  {
    if ops == [] then s else Run(Apply(s, ops[0]), ops[1..])
  }

  /** Inserting a fresh booking adds one holder exactly on the nights it holds. */
  lemma OccupancyAfterInsert(bookings: map<BookingId, Booking>, id: BookingId, b: Booking, k: (RoomId, Day))
    requires id !in bookings
    ensures Occupancy(bookings[id := b], k) == Occupancy(bookings, k) + (if Holds(b, k) then 1 else 0)
  {
    var before := Holders(bookings, k);
    var after := Holders(bookings[id := b], k);
    if Holds(b, k) {
      assert after == before + {id};
    } else {
      assert after == before;
    }
  }

  /** Changing only bookings' statuses leaves every night's occupancy alone. */
  lemma OccupancyIgnoresStatus(bookings: map<BookingId, Booking>, bookings': map<BookingId, Booking>, k: (RoomId, Day))
    requires bookings'.Keys == bookings.Keys
    requires forall id :: id in bookings ==> bookings'[id].(status := Reserved) == bookings[id].(status := Reserved)
    ensures Occupancy(bookings', k) == Occupancy(bookings, k)
  {
    forall id | id in bookings
      ensures Holds(bookings'[id], k) == Holds(bookings[id], k)
    {
      assert bookings'[id].(status := Reserved) == bookings[id].(status := Reserved);
    }
    assert Holders(bookings', k) == Holders(bookings, k);
  }

  lemma ReserveKeepsAccounts(prov: Ledger, s: Store, req: Request)
    requires Accounts(prov, s)
    ensures Accounts(prov, Reserve(s, req).store)
  {
    var o := Reserve(s, req);
    if o.result.Ok? {
      var id := o.result.value;
      var b := NewBooking(req);
      assert o.store.bookings == s.bookings[id := b];
      forall k | k in prov
        ensures o.store.ledger[k] + Occupancy(o.store.bookings, k) == prov[k]
      {
        OccupancyAfterInsert(s.bookings, id, b, k);
      }
    }
  }

  lemma ConfirmKeepsAccounts(prov: Ledger, s: Store, id: BookingId)
    requires Accounts(prov, s)
    ensures Accounts(prov, Confirm(s, id).store)
  {
    var o := Confirm(s, id);
    forall k | k in prov
      ensures o.store.ledger[k] + Occupancy(o.store.bookings, k) == prov[k]
    {
      OccupancyIgnoresStatus(s.bookings, o.store.bookings, k);
    }
  }

  lemma {:induction false} RunKeepsAccounts(prov: Ledger, s: Store, ops: seq<Op>)
    requires Accounts(prov, s)
    ensures Accounts(prov, Run(s, ops))
    decreases |ops|
  {
    if ops != [] {
      match ops[0] {
        case ReserveOp(req) => ReserveKeepsAccounts(prov, s, req);
        case ConfirmOp(id) => ConfirmKeepsAccounts(prov, s, id);
      }
      RunKeepsAccounts(prov, Apply(s, ops[0]), ops[1..]);
    }
  }

  /** No overbooking: after any sequence of reserve and confirm calls on a
      freshly provisioned store, the bookings holding a room on a night never
      outnumber the rooms provisioned for it, and a night that was never
      provisioned is held by no booking. */
  lemma NoOverbooking(prov: Ledger, ops: seq<Op>)
    ensures var s := Run(Initial(prov), ops);
            forall k :: Occupancy(s.bookings, k) <= if k in prov then prov[k] else 0
  {
    var s := Run(Initial(prov), ops);
    RunKeepsAccounts(prov, Initial(prov), ops);
    forall k
      ensures Occupancy(s.bookings, k) <= if k in prov then prov[k] else 0
    {
      if k !in prov {
        assert Holders(s.bookings, k) == {};
      }
    }
  }
}

/**
 * The abstract store behind the flight service: the Flights, Booking, Reservation
 * and Users tables as maps, the outcome of each operation, and the cross-row
 * invariant every committed state keeps.
 */
module Store {

  datatype Option<T> = None | Some(value: T)

  /**
   * A row of the read-only Flights table: the two columns that booking and payment read.
   * The day, times and cities are read only by the search SQL, whose result rows are
   * inputs of the model.
   */
  datatype Flight = Flight(capacity: int, price: int)

  /** A Reservation row; a direct itinerary has no second flight. */
  datatype Reservation = Reservation(user: string, fid1: int, fid2: Option<int>, day: int, paid: bool)

  /** A Users row. */
  datatype User = User(password: string, balance: int)

  /** The tables the engine writes: Booking (fid to booked count), Reservation and Users. */
  datatype Tables = Tables(booking: map<int, int>, reservations: map<int, Reservation>, users: map<string, User>)

  /** The error kinds the operations report (each stands for one message of the service). */
  datatype Error =
    | NotLoggedIn
    | AlreadyLoggedIn
    | LoginFailed
    | CreateFailed
    | NoSuchItinerary(itineraryId: int)
    | BookingFailed
    | SameDayConflict
    | NoUnpaidReservation(rid: int, user: string)
    | InsufficientFunds(balance: int, cost: int)
    | PayFailed(rid: int)
    | CancelFailed(rid: int)

  datatype Result<T> = Ok(value: T) | Err(error: Error)

  /** The tables after an operation together with what the operation reports. */
  datatype Step<T> = Step(tables: Tables, result: Result<T>)

  /** The tables right after clearTables: Flights is kept, everything else is emptied. */
  const CLEARED: Tables := Tables(map[], map[], map[])

  /**
   * Seat capacities in the Flights table are never negative. The service itself only
   * tests a capacity for zero, so this is an assumption about the data it is given.
   */
  predicate ValidFlights(flights: map<int, Flight>)
  {
    forall fid :: fid in flights ==> flights[fid].capacity >= 0
  }

  /**
   * checkFlightCapacity. A flight that is not in the table has no row to read; that
   * lookup gives the same "Booking failed" reply as a capacity of zero, so it reads as
   * zero. The source then answers without rolling back, one of the store failures
   * this model leaves out.
   */
  function Capacity(flights: map<int, Flight>, fid: int): int
  {
    if fid in flights then flights[fid].capacity else 0
  }

  /** The booked count of a flight; a flight without a Booking row has booked nothing. */
  function LedgerRow(booking: map<int, int>, fid: int): int
  {
    if fid in booking then booking[fid] else 0
  }

  /**
   * The capacity check of booking: a zero capacity always fails; without a Booking
   * row the seat is free, with one the capacity must exceed the count.
   */
  predicate SeatFree(flights: map<int, Flight>, booking: map<int, int>, fid: int)
  {
    var capacity := Capacity(flights, fid);
    capacity != 0 && (fid !in booking || capacity > booking[fid])
  }

  /** Booking one seat: a new row starts at 1, an existing row is incremented. */
  function Take(booking: map<int, int>, fid: int): map<int, int>
  {
    booking[fid := LedgerRow(booking, fid) + 1]
  }

  /** Releasing one seat: the UPDATE decrements the row, and touches nothing when there is none. */
  function Release(booking: map<int, int>, fid: int): map<int, int>
  {
    if fid in booking then booking[fid := booking[fid] - 1] else booking
  }

  /** How many legs of an itinerary with flights fid1 and fid2 use flight fid. */
  function LegCount(fid1: int, fid2: Option<int>, fid: int): nat
  {
    (if fid1 == fid then 1 else 0) + (if fid2 == Some(fid) then 1 else 0)
  }

  /** The reservation id book allocates: the number of Reservation rows plus one. */
  function NextId(reservations: map<int, Reservation>): int
  {
    |reservations| + 1
  }

  /** The user already holds a reservation on that day. */
  predicate HasDay(reservations: map<int, Reservation>, user: string, day: int)
  {
    exists rid :: rid in reservations && reservations[rid].user == user && reservations[rid].day == day
  }

  /**
   * The Reservation insert is rejected: by the one-reservation-per-user-per-day rule,
   * or because the id is already taken (rid is the table's key).
   */
  predicate InsertRejected(reservations: map<int, Reservation>, user: string, day: int, rid: int)
  {
    HasDay(reservations, user, day) || rid in reservations
  }

  /** The reservations whose first flight is fid. */
  ghost function FirstLegs(reservations: map<int, Reservation>, fid: int): set<int>
  {
    set rid | rid in reservations && reservations[rid].fid1 == fid
  }

  /** The reservations whose second flight is fid. */
  ghost function SecondLegs(reservations: map<int, Reservation>, fid: int): set<int>
  {
    set rid | rid in reservations && reservations[rid].fid2 == Some(fid)
  }

  /** The number of seats of flight fid that the reservations hold. */
  ghost function Held(reservations: map<int, Reservation>, fid: int): nat
  {
    |FirstLegs(reservations, fid)| + |SecondLegs(reservations, fid)|
  }

  /** Every booked count is between zero and the flight's capacity. */
  ghost predicate WithinCapacity(flights: map<int, Flight>, booking: map<int, int>)
  {
    forall fid :: 0 <= LedgerRow(booking, fid) <= Capacity(flights, fid)
  }

  /** The Booking table counts exactly the seats the reservations hold. */
  ghost predicate LedgerMatches(t: Tables)
  {
    forall fid :: LedgerRow(t.booking, fid) == Held(t.reservations, fid)
  }

  /** No account balance is negative. */
  predicate Solvent(users: map<string, User>)
  {
    forall name :: name in users ==> users[name].balance >= 0
  }

  /** No user holds two reservations on the same day. */
  predicate OnePerDay(reservations: map<int, Reservation>)
  {
    forall r1, r2 ::
      r1 in reservations && r2 in reservations && r1 != r2 && reservations[r1].user == reservations[r2].user
      ==> reservations[r1].day != reservations[r2].day
  }

  /** The invariant of every committed state. */
  ghost predicate Consistent(flights: map<int, Flight>, t: Tables)
  {
    && LedgerMatches(t)
    && WithinCapacity(flights, t.booking)
    && Solvent(t.users)
    && OnePerDay(t.reservations)
  }

  /** Without a reservation nothing is held. */
  lemma HeldNone(fid: int)
    ensures Held(map[], fid) == 0
  {
    assert FirstLegs(map[], fid) == {};
    assert SecondLegs(map[], fid) == {};
  }

  /** Inserting a reservation under a fresh id adds it to the first legs of its first flight. */
  lemma FirstLegsInsert(reservations: map<int, Reservation>, rid: int, r: Reservation, fid: int)
    requires rid !in reservations
    ensures |FirstLegs(reservations[rid := r], fid)| == |FirstLegs(reservations, fid)| + (if r.fid1 == fid then 1 else 0)
  {
    var before, after := FirstLegs(reservations, fid), FirstLegs(reservations[rid := r], fid);
    assert rid !in before;
    if r.fid1 == fid {
      assert after == before + {rid};
    } else {
      assert after == before;
    }
  }

  /** Inserting a reservation under a fresh id adds it to the second legs of its second flight. */
  lemma SecondLegsInsert(reservations: map<int, Reservation>, rid: int, r: Reservation, fid: int)
    requires rid !in reservations
    ensures |SecondLegs(reservations[rid := r], fid)| == |SecondLegs(reservations, fid)| + (if r.fid2 == Some(fid) then 1 else 0)
  {
    var before, after := SecondLegs(reservations, fid), SecondLegs(reservations[rid := r], fid);
    assert rid !in before;
    if r.fid2 == Some(fid) {
      assert after == before + {rid};
    } else {
      assert after == before;
    }
  }

  /** Inserting a reservation under a fresh id adds its legs to what is held. */
  lemma HeldInsert(reservations: map<int, Reservation>, rid: int, r: Reservation, fid: int)
    requires rid !in reservations
    ensures Held(reservations[rid := r], fid) == Held(reservations, fid) + LegCount(r.fid1, r.fid2, fid)
  {
    FirstLegsInsert(reservations, rid, r, fid);
    SecondLegsInsert(reservations, rid, r, fid);
  }

  /** Deleting a reservation takes its legs away from what is held. */
  lemma HeldRemove(reservations: map<int, Reservation>, rid: int, fid: int)
    requires rid in reservations
    ensures Held(reservations - {rid}, fid) + LegCount(reservations[rid].fid1, reservations[rid].fid2, fid)
            == Held(reservations, fid)
  {
    var rest := reservations - {rid};
    assert reservations == rest[rid := reservations[rid]];
    HeldInsert(rest, rid, reservations[rid], fid);
  }

  /** Rewriting a reservation without changing its flights (marking it paid) holds the same seats. */
  lemma HeldRelabel(reservations: map<int, Reservation>, rid: int, r: Reservation, fid: int)
    requires rid in reservations && r.fid1 == reservations[rid].fid1 && r.fid2 == reservations[rid].fid2
    ensures Held(reservations[rid := r], fid) == Held(reservations, fid)
  {
    assert FirstLegs(reservations[rid := r], fid) == FirstLegs(reservations, fid);
    assert SecondLegs(reservations[rid := r], fid) == SecondLegs(reservations, fid);
  }

  /**
   * In a consistent state every flight a reservation uses has a Booking row with a
   * positive count at most its capacity, so it is a flight of the Flights table.
   */
  lemma LegsAreBooked(flights: map<int, Flight>, t: Tables, rid: int)
    requires Consistent(flights, t) && rid in t.reservations
    ensures var r := t.reservations[rid];
      && r.fid1 in t.booking && t.booking[r.fid1] >= LegCount(r.fid1, r.fid2, r.fid1) && r.fid1 in flights
      && (r.fid2.Some? ==> r.fid2.value in t.booking && r.fid2.value in flights
                           && t.booking[r.fid2.value] >= LegCount(r.fid1, r.fid2, r.fid2.value))
  {
    var r := t.reservations[rid];
    LegsHeld(t.reservations, rid, r.fid1);
    assert LedgerRow(t.booking, r.fid1) == Held(t.reservations, r.fid1);
    assert Capacity(flights, r.fid1) >= 1;
    if r.fid2.Some? {
      LegsHeld(t.reservations, rid, r.fid2.value);
      assert LedgerRow(t.booking, r.fid2.value) == Held(t.reservations, r.fid2.value);
      assert Capacity(flights, r.fid2.value) >= 1;
    }
  }

  /** A reservation's own legs on a flight are among the seats held on it. */
  lemma LegsHeld(reservations: map<int, Reservation>, rid: int, fid: int)
    requires rid in reservations
    ensures Held(reservations, fid) >= LegCount(reservations[rid].fid1, reservations[rid].fid2, fid)
  {
    HeldRemove(reservations, rid, fid);
  }

  /**
   * When the count is within capacity, the capacity check passes exactly when a seat
   * is left: a new row is started only for a non-zero capacity and an existing row is
   * incremented only while it is below the capacity.
   */
  lemma SeatFreeIffBelowCapacity(flights: map<int, Flight>, booking: map<int, int>, fid: int)
    requires 0 <= LedgerRow(booking, fid) <= Capacity(flights, fid)
    ensures SeatFree(flights, booking, fid) <==> LedgerRow(booking, fid) < Capacity(flights, fid)
    ensures SeatFree(flights, booking, fid) ==> LedgerRow(Take(booking, fid), fid) <= Capacity(flights, fid)
  {
  }

  /** The empty tables are consistent. */
  lemma ClearedConsistent(flights: map<int, Flight>)
    requires ValidFlights(flights)
    ensures Consistent(flights, CLEARED)
  {
    forall fid
      ensures LedgerRow(CLEARED.booking, fid) == Held(CLEARED.reservations, fid)
    {
      HeldNone(fid);
    }
  }
}

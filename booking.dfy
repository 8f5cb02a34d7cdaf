/**
 * Booking an itinerary from the session's cache: a capacity check and a ledger
 * increment for each flight, then one Reservation row with paid = false under the
 * id count + 1, all inside one transaction that is rolled back on any failure.
 */
module Booking {
  import opened Store
  import opened Itineraries

  /**
   * The itinerary-id check as written: only ids below zero or above the cache size
   * are refused, so an id equal to the size gets through to the cache lookup. There
   * (Query.java:640) the list lookup throws an index-out-of-bounds exception, which the
   * handler for SQL errors (Query.java:760) does not catch, and the transaction opened
   * at Query.java:638 is left open.
   */
  predicate AcceptedAsWritten(itineraryId: int, size: int)
  {
    !(itineraryId < 0 || itineraryId > size)
  }

  /** The intended check: the id is an index of the cache. */
  predicate ValidItineraryIndex(itineraryId: int, size: int)
  {
    0 <= itineraryId < size
  }

  /** The check as written lets the id one past the end through, and that id indexes nothing. */
  lemma AsWrittenAcceptsOnePastEnd(size: nat)
    ensures AcceptedAsWritten(size, size) && !ValidItineraryIndex(size, size)
  {
  }

  /** The intended check accepts exactly the ids the written one does, except the id equal to the size. */
  lemma ValidIndexIsAcceptedBelowSize(itineraryId: int, size: nat)
    ensures ValidItineraryIndex(itineraryId, size) <==> AcceptedAsWritten(itineraryId, size) && itineraryId != size
  {
  }

  /**
   * The ledger after holding a seat on each flight of the itinerary, or None when a
   * capacity check fails. The second flight is checked against the ledger that
   * already holds the first.
   */
  function Reserve(flights: map<int, Flight>, booking: map<int, int>, fid1: int, fid2: Option<int>): Option<map<int, int>>
  {
    if !SeatFree(flights, booking, fid1) then None
    else
      var first := Take(booking, fid1);
      match fid2
      case None => Some(first)
      case Some(second) => if SeatFree(flights, first, second) then Some(Take(first, second)) else None
  }

  /** The row a successful booking inserts. */
  function NewReservation(user: string, it: Itinerary): Reservation
  {
    Reservation(user, it.fid1, it.fid2, it.day, false)
  }

  /** transaction_book on the abstract tables. */
  function BookStep(flights: map<int, Flight>, t: Tables, user: Option<string>, cache: seq<Itinerary>, itineraryId: int): Step<int>
  {
    if user.None? then Step(t, Err(NotLoggedIn))
    else if !ValidItineraryIndex(itineraryId, |cache|) then Step(t, Err(NoSuchItinerary(itineraryId)))
    else
      var it := cache[itineraryId];
      var rid := NextId(t.reservations);
      match Reserve(flights, t.booking, it.fid1, it.fid2)
      case None => Step(t, Err(BookingFailed))
      case Some(booking) =>
        if InsertRejected(t.reservations, user.value, it.day, rid) then Step(t, Err(SameDayConflict))
        else Step(Tables(booking, t.reservations[rid := NewReservation(user.value, it)], t.users), Ok(rid))
  }

  /** Holding seats adds exactly the itinerary's legs to each flight's count and changes no other flight. */
  lemma ReserveAddsLegs(flights: map<int, Flight>, booking: map<int, int>, fid1: int, fid2: Option<int>)
    requires Reserve(flights, booking, fid1, fid2).Some?
    ensures var after := Reserve(flights, booking, fid1, fid2).value;
      forall fid :: LedgerRow(after, fid) == LedgerRow(booking, fid) + LegCount(fid1, fid2, fid)
  {
    var after := Reserve(flights, booking, fid1, fid2).value;
    forall fid
      ensures LedgerRow(after, fid) == LedgerRow(booking, fid) + LegCount(fid1, fid2, fid)
    {
      var first := Take(booking, fid1);
      assert LedgerRow(first, fid) == LedgerRow(booking, fid) + (if fid1 == fid then 1 else 0);
    }
  }

  /**
   * Starting from counts within capacity, the seats can be held exactly when every
   * flight's count plus the itinerary's legs on it stays within its capacity, and
   * then the new counts are within capacity again: booking never overfills a flight.
   */
  lemma ReserveIffRoom(flights: map<int, Flight>, booking: map<int, int>, fid1: int, fid2: Option<int>)
    requires WithinCapacity(flights, booking)
    ensures Reserve(flights, booking, fid1, fid2).Some?
            <==> forall fid :: LedgerRow(booking, fid) + LegCount(fid1, fid2, fid) <= Capacity(flights, fid)
    ensures Reserve(flights, booking, fid1, fid2).Some? ==> WithinCapacity(flights, Reserve(flights, booking, fid1, fid2).value)
  {
    SeatFreeIffBelowCapacity(flights, booking, fid1);
    if Reserve(flights, booking, fid1, fid2).Some? {
      ReserveAddsLegs(flights, booking, fid1, fid2);
      var after := Reserve(flights, booking, fid1, fid2).value;
      forall fid
        ensures LedgerRow(booking, fid) + LegCount(fid1, fid2, fid) <= Capacity(flights, fid)
      {
        if fid2.Some? && fid == fid2.value {
          var first := Take(booking, fid1);
          SeatFreeIffBelowCapacity(flights, first, fid);
        }
      }
    } else if SeatFree(flights, booking, fid1) {
      var first := Take(booking, fid1);
      var second := fid2.value;
      SeatFreeIffBelowCapacity(flights, first, second);
      assert LedgerRow(booking, second) + LegCount(fid1, fid2, second) > Capacity(flights, second);
    } else {
      assert LedgerRow(booking, fid1) + LegCount(fid1, fid2, fid1) > Capacity(flights, fid1);
    }
  }

  /**
   * The capacity check only tests for zero, so a flight listed with a negative
   * capacity gets a Booking row with count 1, above its capacity, and the booking
   * succeeds: the capacity bound relies on the Flights data (Store.ValidFlights).
   */
  lemma NegativeCapacityOverbooks()
    ensures var flights := map[1 := Flight(-1, 10)];
      && Reserve(flights, map[], 1, None) == Some(map[1 := 1])
      && LedgerRow(map[1 := 1], 1) > Capacity(flights, 1)
      && BookStep(flights, CLEARED, Some("ann"), [Itinerary(60, 1, 1, None)], 0).result == Ok(1)
  {
    var flights := map[1 := Flight(-1, 10)];
    assert Capacity(flights, 1) == -1;
    assert SeatFree(flights, map[], 1);
    assert Take(map[], 1) == map[1 := 1];
  }

  /**
   * Nothing ties a reservation to a Users row: after clearTables a session that is
   * still logged in books under a name that has no account.
   */
  lemma BookWithoutAccount()
    ensures "ghost" !in CLEARED.users
    ensures BookStep(map[1 := Flight(5, 10)], CLEARED, Some("ghost"), [Itinerary(60, 1, 1, None)], 0).result == Ok(1)
  {
    var flights := map[1 := Flight(5, 10)];
    assert Capacity(flights, 1) == 5;
    assert SeatFree(flights, map[], 1);
    assert Take(map[], 1) == map[1 := 1];
  }

  /** A two-flight booking whose second flight is full fails and leaves the first flight's count as it was. */
  lemma SecondLegFullRollsBack(flights: map<int, Flight>, t: Tables, user: string, cache: seq<Itinerary>, itineraryId: int)
    requires 0 <= itineraryId < |cache| && cache[itineraryId].fid2.Some?
    requires SeatFree(flights, t.booking, cache[itineraryId].fid1)
    requires !SeatFree(flights, Take(t.booking, cache[itineraryId].fid1), cache[itineraryId].fid2.value)
    ensures var step := BookStep(flights, t, Some(user), cache, itineraryId);
      && step.result == Err(BookingFailed)
      && LedgerRow(step.tables.booking, cache[itineraryId].fid1) == LedgerRow(t.booking, cache[itineraryId].fid1)
      && step.tables == t
  {
  }

  /**
   * In a consistent state a booking succeeds exactly when a user is logged in, the id
   * indexes the cache, every flight has room for the itinerary's legs, the user has no
   * reservation on that day, and the id count + 1 is not already taken.
   */
  lemma BookSucceedsIff(flights: map<int, Flight>, t: Tables, user: Option<string>, cache: seq<Itinerary>, itineraryId: int)
    requires Consistent(flights, t)
    ensures BookStep(flights, t, user, cache, itineraryId).result.Ok? <==>
      && user.Some?
      && 0 <= itineraryId < |cache|
      && (forall fid :: LedgerRow(t.booking, fid) + LegCount(cache[itineraryId].fid1, cache[itineraryId].fid2, fid)
                        <= Capacity(flights, fid))
      && !HasDay(t.reservations, user.value, cache[itineraryId].day)
      && NextId(t.reservations) !in t.reservations
  {
    if user.Some? && 0 <= itineraryId < |cache| {
      ReserveIffRoom(flights, t.booking, cache[itineraryId].fid1, cache[itineraryId].fid2);
    }
  }

  /**
   * A successful booking returns the id count + 1, which was free, and adds exactly one
   * row under it: the logged-in user's, unpaid, with the itinerary's flights and day.
   * Each flight's count grows by the itinerary's legs on it; the users are untouched.
   */
  lemma BookSuccess(flights: map<int, Flight>, t: Tables, user: Option<string>, cache: seq<Itinerary>, itineraryId: int)
    requires BookStep(flights, t, user, cache, itineraryId).result.Ok?
    ensures var step, rid := BookStep(flights, t, user, cache, itineraryId), BookStep(flights, t, user, cache, itineraryId).result.value;
      && user.Some? && 0 <= itineraryId < |cache|
      && rid == |t.reservations| + 1 && rid !in t.reservations
      && step.tables.reservations.Keys == t.reservations.Keys + {rid}
      && |step.tables.reservations| == |t.reservations| + 1
      && (forall k :: k in t.reservations ==> step.tables.reservations[k] == t.reservations[k])
      && step.tables.reservations[rid] == Reservation(user.value, cache[itineraryId].fid1, cache[itineraryId].fid2, cache[itineraryId].day, false)
      && (forall fid :: LedgerRow(step.tables.booking, fid)
                        == LedgerRow(t.booking, fid) + LegCount(cache[itineraryId].fid1, cache[itineraryId].fid2, fid))
      && step.tables.users == t.users
  {
    var it := cache[itineraryId];
    ReserveAddsLegs(flights, t.booking, it.fid1, it.fid2);
  }

  /** A failed booking leaves every table as it was. */
  lemma BookFailureLeavesNoTrace(flights: map<int, Flight>, t: Tables, user: Option<string>, cache: seq<Itinerary>, itineraryId: int)
    requires BookStep(flights, t, user, cache, itineraryId).result.Err?
    ensures BookStep(flights, t, user, cache, itineraryId).tables == t
  {
  }

  /**
   * The error cases checked before any seat is held: no user logged in, an id outside
   * the cache; and, once the seats are available, a reservation the user already holds
   * on that day.
   */
  lemma BookErrors(flights: map<int, Flight>, t: Tables, user: Option<string>, cache: seq<Itinerary>, itineraryId: int)
    ensures user.None? ==> BookStep(flights, t, user, cache, itineraryId).result == Err(NotLoggedIn)
    ensures user.Some? && (itineraryId < 0 || itineraryId >= |cache|)
            ==> BookStep(flights, t, user, cache, itineraryId).result == Err(NoSuchItinerary(itineraryId))
    ensures user.Some? && 0 <= itineraryId < |cache|
            && Reserve(flights, t.booking, cache[itineraryId].fid1, cache[itineraryId].fid2).Some?
            && HasDay(t.reservations, user.value, cache[itineraryId].day)
            ==> BookStep(flights, t, user, cache, itineraryId).result == Err(SameDayConflict)
  {
  }

  /** Booking keeps the store consistent: counts match the held seats and stay within capacity. */
  lemma BookPreservesConsistency(flights: map<int, Flight>, t: Tables, user: Option<string>, cache: seq<Itinerary>, itineraryId: int)
    requires Consistent(flights, t)
    ensures Consistent(flights, BookStep(flights, t, user, cache, itineraryId).tables)
  {
    var step := BookStep(flights, t, user, cache, itineraryId);
    if step.result.Ok? {
      var it := cache[itineraryId];
      var rid := step.result.value;
      var r := NewReservation(user.value, it);
      var after := step.tables;
      ReserveIffRoom(flights, t.booking, it.fid1, it.fid2);
      ReserveAddsLegs(flights, t.booking, it.fid1, it.fid2);
      forall fid
        ensures LedgerRow(after.booking, fid) == Held(after.reservations, fid)
      {
        HeldInsert(t.reservations, rid, r, fid);
      }
      assert OnePerDay(after.reservations) by {
        forall r1, r2 | r1 in after.reservations && r2 in after.reservations && r1 != r2
          && after.reservations[r1].user == after.reservations[r2].user
          ensures after.reservations[r1].day != after.reservations[r2].day
        {
          if r1 == rid {
            assert r2 in t.reservations;
          } else if r2 == rid {
            assert r1 in t.reservations;
          }
        }
      }
    }
  }

  /** After clearTables the first booking gets id 1. */
  lemma FirstIdAfterClear(flights: map<int, Flight>, user: Option<string>, cache: seq<Itinerary>, itineraryId: int)
    requires BookStep(flights, CLEARED, user, cache, itineraryId).result.Ok?
    ensures BookStep(flights, CLEARED, user, cache, itineraryId).result.value == 1
  {
  }
}

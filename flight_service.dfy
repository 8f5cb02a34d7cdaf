/**
 * The flight service's session object. It owns the logged-in username, the
 * itinerary cache of the last search and, in place of the database connection,
 * the tables themselves; a transaction is a snapshot of the tables taken when the
 * bracket opens, dropped on commit and restored on rollback. Book, Pay, Cancel and
 * CreateCustomer are proved to leave exactly the tables, and to report exactly the
 * outcome, that the step function of their module gives for the old state.
 */
module FlightService {
  import opened Store
  import opened Itineraries
  import opened Booking
  import opened Settlement
  import opened Cancellation
  import opened Accounts

  class Query {
    /** The Flights table, which the service only reads. */
    const flights: map<int, Flight>

    /** The logged-in user, if any. */
    var username: Option<string>
    /** The itineraries of the last search, indexed by their listed ordinal. */
    var itineraries: seq<Itinerary>

    /** The Booking table: booked count per flight. */
    var booking: map<int, int>
    /** The Reservation table, by reservation id. */
    var reservations: map<int, Reservation>
    /** The Users table, by username. */
    var users: map<string, User>

    /** The tables as they were when the open transaction began. */
    var snapshot: Option<Tables>

    /** The writable tables. */
    function Store(): Tables
      reads this`booking, this`reservations, this`users
    {
      Tables(booking, reservations, users)
    }

    /** Between operations no transaction is open and the tables are consistent. */
    ghost predicate Valid()
      reads this`booking, this`reservations, this`users, this`snapshot
    {
      snapshot.None? && ValidFlights(flights) && Consistent(flights, Store())
    }

    /** A session on a store in a consistent state, with nobody logged in and no search yet. */
    constructor (flights: map<int, Flight>, tables: Tables)
      requires ValidFlights(flights) && Consistent(flights, tables)
      ensures Valid()
      ensures this.flights == flights && Store() == tables
      ensures username.None? && itineraries == []
    {
      this.flights := flights;
      username := None;
      itineraries := [];
      booking, reservations, users := tables.booking, tables.reservations, tables.users;
      snapshot := None;
    }

    /** beginTransaction: open a bracket by remembering the tables. */
    method BeginTransaction()
      requires snapshot.None?
      modifies this`snapshot
      ensures snapshot == Some(Store())
    {
      snapshot := Some(Store());
    }

    /** commitTransaction: keep the tables and close the bracket. */
    method CommitTransaction()
      requires snapshot.Some?
      modifies this`snapshot
      ensures snapshot.None?
    {
      snapshot := None;
    }

    /** rollbackTransaction: put back the tables the bracket began with and close it. */
    method RollbackTransaction()
      requires snapshot.Some?
      modifies this`booking, this`reservations, this`users, this`snapshot
      ensures Store() == old(snapshot).value && snapshot.None?
    {
      var saved := snapshot.value;
      booking, reservations, users := saved.booking, saved.reservations, saved.users;
      snapshot := None;
    }

    /** transaction_login: log a user in when nobody is and the credentials match. */
    method Login(newUser: string, password: string) returns (r: Result<string>)
      modifies this`username
      ensures r.Ok? <==> old(username).None? && CredentialsMatch(users, newUser, password)
      ensures r.Ok? ==> r.value == newUser
      ensures r.Err? ==> r.error == (if old(username).Some? then AlreadyLoggedIn else LoginFailed)
      ensures username == if r.Ok? then Some(newUser) else old(username)
    {
      if username.Some? {
        return Err(AlreadyLoggedIn);
      }
      if newUser in users && users[newUser].password == password {
        username := Some(newUser);
        return Ok(newUser);
      }
      return Err(LoginFailed);
    }

    /** transaction_createCustomer: a negative amount or a taken name is refused. */
    method CreateCustomer(name: string, password: string, initAmount: int) returns (r: Result<string>)
      requires Valid()
      modifies this`users
      ensures Valid()
      ensures Store() == CreateStep(old(Store()), name, password, initAmount).tables
      ensures r == CreateStep(old(Store()), name, password, initAmount).result
    {
      CreatePreservesConsistency(flights, Store(), name, password, initAmount);
      if initAmount < 0 {
        return Err(CreateFailed);
      }
      if name in users {
        return Err(CreateFailed);
      }
      users := users[name := User(password, initAmount)];
      return Ok(name);
    }

    /** clearTables: empty Reservation, Booking and Users; Flights and the session are kept. */
    method ClearTables()
      requires Valid()
      modifies this`booking, this`reservations, this`users
      ensures Valid()
      ensures Store() == CLEARED
    {
      reservations := map[];
      booking := map[];
      users := map[];
      ClearedConsistent(flights);
    }

    /**
     * The cache-building part of transaction_search, as coded. The documented meaning
     * of directFlight (true: direct flights only; false: direct and two-hop) is
     * inverted in the code. With directFlight true it empties the cache, appends one
     * entry per direct row while fewer than numberOfItineraries are kept, then fills up
     * with two-hop rows (the test of directFlight before the two-hop query is commented
     * out), and lists each entry under its position. With directFlight false it answers
     * nothing (null) and leaves the cache as it was, so the previous search's
     * itineraries can still be booked.
     */
    method Search(directFlight: bool, numberOfItineraries: int, direct: seq<DirectRow>, twoHop: seq<TwoHopRow>)
      returns (listing: Option<seq<Listed>>)
      modifies this`itineraries
      ensures directFlight ==> itineraries == SearchCache(direct, twoHop, numberOfItineraries)
      ensures !directFlight ==> itineraries == old(itineraries) && listing.None?
      ensures listing.Some? ==> |listing.value| == |itineraries|
      ensures listing.Some? ==> forall i :: 0 <= i < |itineraries| ==> listing.value[i] == Listed(i, itineraries[i])
      ensures directFlight ==> listing.Some?
    {
      if !directFlight {
        return None;
      }
      var lines: seq<Listed> := [];
      itineraries := [];
      var rowId, flightCount := 0, 0;
      var i := 0;
      while i < |direct| && flightCount < numberOfItineraries
        invariant 0 <= i <= |direct| && i <= Max(numberOfItineraries, 0)
        invariant rowId == flightCount == i == |itineraries| == |lines|
        invariant forall x :: 0 <= x < i ==> itineraries[x] == DirectEntry(direct[x])
        invariant forall x :: 0 <= x < i ==> lines[x] == Listed(x, itineraries[x])
      {
        rowId, flightCount := rowId + 1, flightCount + 1;
        itineraries := itineraries + [DirectEntry(direct[i])];
        lines := lines + [Listed(rowId - 1, DirectEntry(direct[i]))];
        i := i + 1;
      }
      assert i == DirectTaken(direct, numberOfItineraries);
      var j := 0;
      if flightCount < numberOfItineraries {
        while j < |twoHop| && flightCount < numberOfItineraries
          invariant 0 <= j <= |twoHop| && i + j <= Max(numberOfItineraries, 0)
          invariant rowId == flightCount == i + j == |itineraries| == |lines|
          invariant forall x :: 0 <= x < i ==> itineraries[x] == DirectEntry(direct[x])
          invariant forall x :: 0 <= x < j ==> itineraries[i + x] == TwoHopEntry(twoHop[x])
          invariant forall x :: 0 <= x < i + j ==> lines[x] == Listed(x, itineraries[x])
        {
          rowId, flightCount := rowId + 1, flightCount + 1;
          itineraries := itineraries + [TwoHopEntry(twoHop[j])];
          lines := lines + [Listed(rowId - 1, TwoHopEntry(twoHop[j]))];
          j := j + 1;
        }
      }
      assert j == TwoHopTaken(direct, twoHop, numberOfItineraries);
      assert itineraries == SearchCache(direct, twoHop, numberOfItineraries);
      return Some(lines);
    }

    /**
     * The capacity check and ledger update of one flight of a booking: refuse a zero
     * capacity; without a Booking row insert one with count 1; with one, increment it
     * while it is below the capacity, and refuse otherwise.
     */
    method ReserveSeat(fid: int) returns (ok: bool)
      modifies this`booking
      ensures ok == SeatFree(flights, old(booking), fid)
      ensures booking == if ok then Take(old(booking), fid) else old(booking)
    {
      var capacity := Capacity(flights, fid);
      if capacity == 0 {
        return false;
      }
      if fid !in booking {
        booking := booking[fid := 1];
      } else if capacity > booking[fid] {
        booking := booking[fid := booking[fid] + 1];
      } else {
        return false;
      }
      return true;
    }

    /**
     * transaction_book. The id is checked against the cache before the transaction
     * opens; the written check lets an id equal to the cache size through, the model
     * refuses it (see Booking.AcceptedAsWritten).
     */
    method Book(itineraryId: int) returns (r: Result<int>)
      requires Valid()
      modifies this`booking, this`reservations, this`users, this`snapshot
      ensures Valid()
      ensures Store() == BookStep(flights, old(Store()), username, itineraries, itineraryId).tables
      ensures r == BookStep(flights, old(Store()), username, itineraries, itineraryId).result
    {
      ghost var step := BookStep(flights, Store(), username, itineraries, itineraryId);
      BookPreservesConsistency(flights, Store(), username, itineraries, itineraryId);
      if username.None? {
        return Err(NotLoggedIn);
      }
      if itineraryId < 0 || itineraryId >= |itineraries| {
        return Err(NoSuchItinerary(itineraryId));
      }
      ghost var before := Store();
      var itinerary := itineraries[itineraryId];
      ghost var held := Reserve(flights, booking, itinerary.fid1, itinerary.fid2);
      BeginTransaction();
      var rowNumber := |reservations|;
      var ok := ReserveSeat(itinerary.fid1);
      if !ok {
        assert held.None?;
        RollbackTransaction();
        return Err(BookingFailed);
      }
      if itinerary.fid2.Some? {
        ok := ReserveSeat(itinerary.fid2.value);
        if !ok {
          assert held.None?;
          RollbackTransaction();
          return Err(BookingFailed);
        }
      }
      assert held == Some(booking);
      var rid := rowNumber + 1;
      assert rid == NextId(before.reservations);
      if InsertRejected(reservations, username.value, itinerary.day, rid) {
        RollbackTransaction();
        assert step.tables == before;
        return Err(SameDayConflict);
      }
      reservations := reservations[rid := Reservation(username.value, itinerary.fid1, itinerary.fid2, itinerary.day, false)];
      assert Store() == step.tables;
      CommitTransaction();
      return Ok(rid);
    }

    /**
     * transaction_pay: read the balance, find the unpaid reservation, add up the
     * prices, and either roll back or mark it paid and debit the balance.
     */
    method Pay(reservationId: int) returns (r: Result<int>)
      requires Valid()
      modifies this`booking, this`reservations, this`users, this`snapshot
      ensures Valid()
      ensures Store() == PayStep(flights, old(Store()), username, reservationId).tables
      ensures r == PayStep(flights, old(Store()), username, reservationId).result
    {
      PayPreservesConsistency(flights, Store(), username, reservationId);
      if username.None? {
        return Err(NotLoggedIn);
      }
      BeginTransaction();
      var name := username.value;
      if name !in users {
        RollbackTransaction();
        return Err(PayFailed(reservationId));
      }
      var balance := users[name].balance;
      if !(reservationId in reservations && reservations[reservationId].user == name && !reservations[reservationId].paid) {
        RollbackTransaction();
        return Err(NoUnpaidReservation(reservationId, name));
      }
      var unpaid := reservations[reservationId];
      var totalPrice := 0;
      if unpaid.fid1 !in flights {
        RollbackTransaction();
        return Err(PayFailed(reservationId));
      }
      totalPrice := totalPrice + flights[unpaid.fid1].price;
      if unpaid.fid2.Some? {
        if unpaid.fid2.value !in flights {
          RollbackTransaction();
          return Err(PayFailed(reservationId));
        }
        totalPrice := totalPrice + flights[unpaid.fid2.value].price;
      }
      assert totalPrice == Cost(flights, unpaid);
      if totalPrice > balance {
        RollbackTransaction();
        return Err(InsufficientFunds(balance, totalPrice));
      }
      reservations := reservations[reservationId := unpaid.(paid := true)];
      users := users[name := users[name].(balance := balance - totalPrice)];
      CommitTransaction();
      return Ok(balance - totalPrice);
    }

    /** The seat release of cancel: decrement the flight's Booking row, if it has one. */
    method ReleaseSeat(fid: int)
      modifies this`booking
      ensures booking == Release(old(booking), fid)
    {
      if fid in booking {
        booking := booking[fid := booking[fid] - 1];
      }
    }

    /**
     * transaction_cancel as intended: delete the user's reservation and give back one
     * seat per flight, or roll back and report failure when there is no such row.
     */
    method Cancel(reservationId: int) returns (r: Result<int>)
      requires Valid()
      modifies this`booking, this`reservations, this`users, this`snapshot
      ensures Valid()
      ensures Store() == CancelStep(old(Store()), username, reservationId).tables
      ensures r == CancelStep(old(Store()), username, reservationId).result
    {
      CancelPreservesConsistency(flights, Store(), username, reservationId);
      if username.None? {
        return Err(NotLoggedIn);
      }
      BeginTransaction();
      if !(reservationId in reservations && reservations[reservationId].user == username.value) {
        RollbackTransaction();
        return Err(CancelFailed(reservationId));
      }
      var cancelled := reservations[reservationId];
      reservations := reservations - {reservationId};
      ReleaseSeat(cancelled.fid1);
      if cancelled.fid2.Some? {
        ReleaseSeat(cancelled.fid2.value);
      }
      CommitTransaction();
      return Ok(reservationId);
    }
  }
}

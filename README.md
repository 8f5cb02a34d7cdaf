# Flight reservation service — a Dafny model

`Query.java` is one session of a small airline reservation service over a SQL
database. A customer can create an account, log in, search flights between two
cities on a day, book one itinerary from the last search, pay for a reservation,
or cancel one. Book, pay and cancel each run inside one serializable transaction.
Creating a customer and clearing the tables write without one, in auto-commit mode.

This project models that session as a sequential state machine over in-memory
tables:

- **Flights** (`fid` to capacity and price) is read only. A flight that is not in the
  table has capacity 0. The other columns matter only to the search SQL.
- **Booking** (`fid` to booked count) is the seat ledger.
- **Reservation** (`rid` to user, first flight, optional second flight, day and paid
  flag).
- **Users** (username to password and balance).

The session also holds the logged-in `username` and the `itineraries` cache of the
last search.

The project has these modules:

- `Store` holds the tables, the error outcomes and two pieces of shared vocabulary:
  - the capacity check and ledger updates shared by book and cancel;
  - the store invariant `Consistent`. It says each flight's count equals the number
    of reservation legs on it, and is at most its capacity. No balance is negative.
    No user has two reservations on one day.
- `Itineraries`, `Booking`, `Settlement` (pay), `Cancellation` and `Accounts` give
  each operation as a step function from the old tables to the new tables and an
  outcome. Their lemmas state what the source promises of it.
- `History` runs sequences of operations. It shows what the `count + 1` id allocator
  does and does not guarantee.
- `FlightService.Query` is the session object. Its fields are the tables, the
  session state and a transaction snapshot:
  - begin saves the tables, commit drops the snapshot, rollback restores it;
  - each `transaction_*` method follows the source's branches step by step;
  - `Book`, `Pay`, `Cancel` and `CreateCustomer` are proved to produce exactly their
    step function's tables and outcome;
  - those four and `ClearTables` require and keep `Valid()` (no open transaction,
    consistent tables);
  - `Login` and `Search` change only the session fields, which `Valid()` does not
    read;
  - `Login`, `Search`, `ReserveSeat`, `ReleaseSeat` and the three bracket methods
    are specified by their own contracts.

Outside the database the service is deterministic. The inputs that come from the
database are parameters of the model:

- search's direct and two-hop result rows, already filtered, sorted and cut by SQL;
- the Flights table.

Where the code and its documentation disagree, the model follows the code in three
places:

- **Search's `directFlight` flag.** The doc comment (Query.java:321-323) says true
  searches direct flights only and false adds two-hop flights. The code does the
  reverse of half of that:
  - with true, it also runs the two-hop query (the test of the flag at line 389 is
    commented out);
  - with false, it returns `null` (line 429) without clearing the cache, so a later
    booking still books from the previous search.

  `FlightService.Query.Search` models the code. A search with `directFlight` false
  does not replace the previous cache.
- **Search's listing order.** The doc comment says the results are sorted by total
  flight time (Query.java:326). The code appends every direct row in the order of
  its own query (line 59), then the two-hop rows in the order of theirs (line 77),
  so a slow direct itinerary is listed before a fast two-hop one.
  `Itineraries.SearchCacheOrder` states the order as coded: all direct entries in
  row order, then all two-hop entries in row order. For example, a 300-minute direct
  row and a 100-minute two-hop row give the times 300 and then 100.
- **The id allocator.** The doc comments (Query.java:627-629, 870) promise ids that
  start from 1, go up by 1 and are never reused. The code uses the Reservation row
  count plus one (`Store.NextId`). The ids start from 1 and go up by 1 only between
  clearTables and without cancellations (`History.IssuedIdsIncrease`). After a
  cancellation an id can be handed out again, or the next id can already be taken
  (`History.CancelLetsIdCollide`; see also "## Left out").

Where the model follows the evident intent rather than the code:

- **Cancel.** When nothing matches, the source rolls back (line 908) and then calls
  commit with no transaction open (line 921). Unless the server accepts that commit,
  the reply is the failure message (line 926); otherwise it reports success
  (line 922). Neither has been executed. It also reads the Booking counts without
  advancing the result set (lines 902, 915), and sends the UPDATEs with
  `executeQuery` (lines 906, 919). The model deletes the row and decrements each
  flight's count by one seat. When there is no such row, it fails with no effect.
- **The cache index check.** See "## Findings".
- **Same-day rule.** The code maps every failed Reservation insert (lines 674-680,
  750-756) to the same-day message. The constraint behind it is not part of this
  model's input. The model rejects the insert in two cases, both with
  `SameDayConflict`:
  - the user already holds a reservation on that day;
  - the new id is already a key of the table.

## Model

| member | source | states |
|---|---|---|
| Store.Capacity | Query.java:1044-1053 | checkFlightCapacity: a flight's capacity, 0 for a flight not in the table; its meaning is stated by Store.SeatFreeIffBelowCapacity |
| Store.NextId | Query.java:1055-1062 | checkReservationRow + 1: the id a booking allocates; see Booking.BookSuccess and the History rows |
| Itineraries.SearchCache | Query.java:368-424 | the cache the two search loops build; its size and order are stated by Itineraries.SearchCacheSize and Itineraries.SearchCacheOrder |
| Booking.BookStep | Query.java:631-765 | transaction_book on the tables; stated by the Booking.Book* rows |
| Settlement.PayStep | Query.java:946-1020 | transaction_pay on the tables; stated by the Settlement.Pay* rows |
| Cancellation.CancelStep | Query.java:874-928 | transaction_cancel as intended, on the tables; stated by the Cancellation.Cancel* rows |
| Accounts.CreateStep | Query.java:301-315 | transaction_createCustomer on the tables; stated by the Accounts.Create* rows |
| Store.SeatFreeIffBelowCapacity | Query.java:650-667 | with a count within capacity, the capacity check passes exactly when the count is below capacity (new row only for capacity ≠ 0, increment only while capacity > count), and the incremented count is still within capacity |
| Store.HeldInsert | Query.java:668-676 | inserting a reservation under a fresh id adds exactly its legs to the seats held on each flight |
| Store.HeldRemove | Query.java:894-896 | deleting a reservation removes exactly its legs from the seats held on each flight |
| Store.HeldRelabel | Query.java:1001-1004 | marking a reservation paid leaves the seats held on every flight unchanged |
| Store.LegsAreBooked | Query.java:898-919 | in a consistent store every flight of a reservation has a Booking row with at least its legs counted, and is a listed flight |
| Store.ClearedConsistent | Query.java:200-209 | the empty tables satisfy the store invariant |
| Itineraries.SearchCacheSize | Query.java:368-424 | the rebuilt cache holds min(max(limit, 0), direct rows + two-hop rows) entries, and a two-hop row is taken only when every direct row was |
| Itineraries.SearchCacheOrder | Query.java:379-383 | cache entry i is the i-th direct row (one flight) while direct rows last, then the two-hop rows in order (two flights); no direct entry follows a two-hop entry |
| Booking.AsWrittenAcceptsOnePastEnd | Query.java:635 | the bound check as written accepts an id equal to the cache size, which indexes no entry |
| Booking.ValidIndexIsAcceptedBelowSize | Query.java:635-640 | the corrected check accepts exactly the ids the written one does except the id equal to the size |
| Booking.ReserveAddsLegs | Query.java:655-663 | holding seats raises each flight's count by exactly the itinerary's legs on it |
| Booking.ReserveIffRoom | Query.java:651-667 | from counts within capacity, seats are held exactly when every flight has room for its legs, and the new counts stay within capacity |
| Booking.NegativeCapacityOverbooks | Query.java:650-658 | the capacity check tests only for zero, so a flight listed with capacity -1 gets a Booking row with count 1 and the booking succeeds |
| Booking.BookWithoutAccount | Query.java:631-759 | book checks only that a username is set, so after clearTables a logged-in name with no Users row books reservation 1 |
| Booking.SecondLegFullRollsBack | Query.java:701-739 | a two-flight booking whose second flight is full fails and leaves every table, including the first flight's count, unchanged |
| Booking.BookSucceedsIff | Query.java:631-759 | in a consistent store a booking succeeds exactly when a user is logged in, the id indexes the cache, the flights have room, the user has no reservation that day and the id count + 1 is free |
| Booking.BookSuccess | Query.java:642-759 | a successful booking returns count + 1, which was free, adds exactly one row under it (logged-in user, the itinerary's flights and day, unpaid), raises each count by the legs and leaves the users unchanged |
| Booking.BookFailureLeavesNoTrace | Query.java:651-756 | a failed booking leaves every table as it was |
| Booking.BookErrors | Query.java:633-680 | not logged in, an id outside the cache, and an existing reservation on that day are each reported with their own error |
| Booking.BookPreservesConsistency | Query.java:631-765 | booking keeps the store invariant: counts equal held seats and stay within capacity; one reservation per user per day |
| Booking.FirstIdAfterClear | Query.java:196-209 | after clearTables the first successful booking gets id 1 |
| Settlement.PaySucceedsIff | Query.java:946-1012 | in a consistent store a payment succeeds exactly when a user is logged in, owns the unpaid reservation and the price total is at most the balance |
| Settlement.PaySuccess | Query.java:973-1012 | a successful payment marks exactly that reservation paid, debits exactly price(fid1) + price(fid2), returns the remaining balance, which is ≥ 0, and changes no count, other reservation or other account |
| Settlement.PayFailureLeavesNoTrace | Query.java:961-998 | a failed payment leaves every table as it was |
| Settlement.PayErrors | Query.java:960-998 | a missing reservation, another user's, an already paid one and a total above the balance are each refused with their error |
| Settlement.PayAtMostOnce | Query.java:101 | paying the same reservation again right after a success is refused with no effect |
| Settlement.PayPreservesConsistency | Query.java:1000-1012 | paying keeps the store invariant; no balance becomes negative |
| Cancellation.CancelSucceedsIff | Query.java:874-908 | a cancellation succeeds exactly when a user is logged in and owns the reservation; otherwise nothing changes |
| Cancellation.CancelSuccess | Query.java:882-919 | a cancellation removes exactly the row (user, rid), lowers each of its flights' counts by its legs, and changes nothing else |
| Cancellation.CancelPreservesConsistency | Query.java:894-919 | cancelling keeps the store invariant; no count drops below zero |
| Cancellation.CancelIsFinal | Query.java:870 | after a cancellation the id names no row: cancelling again fails, and paying for it is refused with no effect |
| Accounts.CreateSucceedsIff | Query.java:301-315 | a customer is created exactly when the amount is ≥ 0 and the name is new, with that password and balance; a refusal changes nothing |
| Accounts.CreatePreservesConsistency | Query.java:301-315 | creating a customer keeps the store invariant |
| History.DenseNextIdIsFresh | Query.java:1055-1062 | when the live ids are exactly 1..count, count + 1 is free and above every live id |
| History.ApplyKeepsIdsDense | Query.java:642 | every operation except cancel keeps the live ids exactly 1..count |
| History.CancelFreeIdsStayFresh | Query.java:642 | along any history without cancellations the ids stay dense and the next allocated id is free |
| History.ApplyKeepsRows | Query.java:642 | an operation other than cancel and clearTables removes no row, and an id it hands out is the new row count |
| History.IssuedIdsIncrease | Query.java:627-642 | between clearTables and without cancellations the i-th id handed out is the starting row count + i + 1, so the ids go up by one, are never repeated, and start from 1 after clearTables |
| History.ApplyKeepsPaid | Query.java:1001-1004 | an operation other than clearTables and the cancellation of that reservation leaves a paid reservation present and unchanged |
| History.PaidStaysPaid | Query.java:101 | along any history without clearTables and without a cancellation of that reservation, a paid reservation stays paid, and every later payment for it is refused with no effect |
| History.CollisionBookingSteps | Query.java:631-759 | in the collision example ann's account and two bookings produce ids 1 and 2 with two seats taken |
| History.CollisionLaterSteps | Query.java:874-922 | in the collision example cancelling reservation 1 gives back its seat and leaves id 2; bob's account is then added |
| History.CollisionHistoryTables | Query.java:874-922 | the tables after ann books days 1 and 2 and cancels reservation 1, and bob opens an account: one row left, under id 2 |
| History.CancelLetsIdCollide | Query.java:870 | after that history count + 1 = 2 is a live id, so the booking of bob (who has an account) on a free day with free seats is refused |
| FlightService.Query.BeginTransaction | Query.java:1025-1028 | opening a transaction remembers the tables |
| FlightService.Query.CommitTransaction | Query.java:1030-1033 | committing keeps the tables and closes the transaction |
| FlightService.Query.RollbackTransaction | Query.java:1035-1038 | rolling back restores the tables remembered at the start |
| FlightService.Query.Login | Query.java:272-290 | login succeeds exactly when nobody is logged in and the credentials match, then sets the username; otherwise the error says which, and the username is unchanged |
| FlightService.Query.CreateCustomer | Query.java:301-315 | the tables and outcome are those of Accounts.CreateStep; the store stays consistent |
| FlightService.Query.ClearTables | Query.java:200-209 | the writable tables are empty and consistent; Flights and the session are kept |
| FlightService.Query.Search | Query.java:349-429 | with directFlight true (as coded: direct and two-hop rows) the search rebuilds the cache as Itineraries.SearchCache and lists entry i under ordinal i; with false it returns nothing and the previous cache stays bookable |
| FlightService.Query.ReserveSeat | Query.java:644-667 | the seat check passes exactly when a seat is free, and then adds one to the flight's count; otherwise the ledger is unchanged |
| FlightService.Query.Book | Query.java:631-765 | the tables and outcome are those of Booking.BookStep; the store stays consistent |
| FlightService.Query.Pay | Query.java:946-1020 | the tables and outcome are those of Settlement.PayStep; the store stays consistent |
| FlightService.Query.ReleaseSeat | Query.java:898-906 | one seat is given back on the flight's Booking row, if it has one |
| FlightService.Query.Cancel | Query.java:874-928 | the tables and outcome are those of Cancellation.CancelStep; the store stays consistent |

## Left out

- Connection and configuration loading, statement preparation and the JDBC result-set
  mechanics (Query.java:160-259). These are I/O through a driver. The tables are maps.
- The search SQL (Query.java:55-78): filtering, joins, `TOP` and `ORDER BY`. Its
  result rows are parameters of `Search`, already sorted.
- Serializable isolation and concurrent sessions (Query.java:35). Each operation is one
  atomic sequential step.
- All message text: `Flight.toString` (Query.java:153-157), the search listing, and
  the output strings. Operations return a `Result` with an `Error` datatype. A search
  returns its listing as (ordinal, itinerary) pairs.
- `transaction_reservations` (Query.java:794-858). It only formats a listing of rows
  and changes no state.
- `transaction_search_unsafe` (Query.java:581-614). It is not called anywhere.
- The commented-out search branch at Query.java:430-561. It is dead code.
- The `fid2` sentinels: -1 and 0, and a NULL second flight that reads as 0
  (Query.java:808, 887-890, 986). `Option<int>` stands for an optional second flight.
  A real flight with id 0 is therefore not conflated with "none".
- Store failures: an `SQLException` raised by the database. The missing rollbacks in
  the catch blocks (Query.java:762, 925, 1017) are left out with them. They include:
  - a missing Users row in pay, modelled as `PayFailed` with no effect;
  - a missing Flights row in pay, modelled as `PayFailed` with no effect;
  - a missing Flights row in book, modelled as capacity 0;
  - a search with a negative `numberOfItineraries`. `TOP (-1)` (Query.java:360) is an
    SQL error, so the source answers "Failed to search" (Query.java:564) after
    clearing the cache (Query.java:356). The model also leaves an empty cache, but
    returns an empty listing instead of the failure.
- The id freshness promise (Query.java:870) in general. Ids are unique only along
  histories without cancellations (`History.CancelFreeIdsStayFresh`,
  `History.IssuedIdsIncrease`). `History.CancelLetsIdCollide` shows the collision
  after a cancellation.
- The database's uniqueness of usernames and reservation ids is assumed: these are
  the keys of the maps.
- String comparison follows an assumed case- and space-sensitive collation. Usernames and
  passwords are compared exactly: in the login lookup (Query.java:49), the
  `username = ?` filters (Query.java:101, 122, 125, 128) and as the key of the Users
  insert (Query.java:52). The schema and its collation are not part of this model. On
  a case-insensitive collation, login as "ANN"/"PW" would match the account
  ann/pw, and creating "ANN" would be refused once "ann" exists. The model does
  neither.
- No foreign key from Reservation to Users is assumed. After clearTables a session
  that is still logged in books under a name with no account
  (`Booking.BookWithoutAccount`).
- Capacities are assumed ≥ 0 (`Store.ValidFlights`, implied by `Store.Consistent`,
  required by the `FlightService.Query` constructor). The service tests a capacity
  only for zero (Query.java:651, 696, 722). A negative capacity makes a booking
  exceed it (`Booking.NegativeCapacityOverbooks`). The capacity bound of
  `Booking.ReserveIffRoom` and `Booking.BookPreservesConsistency` holds only for
  such data.
- Java's 32-bit `int` arithmetic is not modelled. Integers are unbounded, so these
  never wrap around:
  - the price total (Query.java:979, 992);
  - the remaining balance (Query.java:1007, 1012);
  - the booked count (Query.java:661, 707, 733);
  - the new id `count + 1` (Query.java:669, 744).

  For example, a balance of 2^31 − 1 paying a negative price wraps to a negative
  balance in the source, and `Settlement.PayPreservesConsistency` does not cover
  that.

## Findings

| source | as written | input that shows it | evidently intended | confidence | as-written member | corrected member |
|---|---|---|---|---|---|---|
| Query.java:635 | `itineraryId < 0 \|\| itineraryId > itineraries.size()` refuses only ids above the size, so id == size reaches `itineraries.get(itineraryId)` at line 640 after the transaction has begun, and the lookup fails outside the SQL error handling | a search that caches 2 itineraries, then book with id 2 | refuse every id that is not an index of the cache (`itineraryId >= itineraries.size()`) with "No such itinerary" | not executed | Booking.AsWrittenAcceptsOnePastEnd | Booking.BookErrors, Booking.ValidIndexIsAcceptedBelowSize |

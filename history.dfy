/**
 * Sequences of committed operations on the tables, and what the reservation ids
 * allocated as count + 1 guarantee over them: in a history without cancellations
 * every id is fresh and, until the next clearTables, the ids increase strictly; a
 * single cancellation is enough for count + 1 to name a row that still exists.
 */
module History {
  import opened Store
  import opened Itineraries
  import opened Booking
  import opened Settlement
  import opened Cancellation
  import opened Accounts

  /** One committed operation, with the session state it ran in. */
  datatype Op =
    | BookOp(user: Option<string>, cache: seq<Itinerary>, itineraryId: int)
    | PayOp(user: Option<string>, rid: int)
    | CancelOp(user: Option<string>, rid: int)
    | CreateOp(name: string, password: string, amount: int)
    | ClearOp

  /** The tables after one operation. */
  function Apply(flights: map<int, Flight>, t: Tables, op: Op): Tables
  {
    match op
    case BookOp(user, cache, itineraryId) => BookStep(flights, t, user, cache, itineraryId).tables
    case PayOp(user, rid) => PayStep(flights, t, user, rid).tables
    case CancelOp(user, rid) => CancelStep(t, user, rid).tables
    case CreateOp(name, password, amount) => CreateStep(t, name, password, amount).tables
    case ClearOp => CLEARED
  }

  /** The reservation id an operation hands out: that of a successful booking, if any. */
  function IssuedBy(flights: map<int, Flight>, t: Tables, op: Op): seq<int>
  {
    if op.BookOp? && BookStep(flights, t, op.user, op.cache, op.itineraryId).result.Ok?
    then [BookStep(flights, t, op.user, op.cache, op.itineraryId).result.value]
    else []
  }

  /** The tables after a sequence of operations, the first one first. */
  function Run(flights: map<int, Flight>, t: Tables, ops: seq<Op>): Tables
    decreases |ops|
  {
    if ops == [] then t else Run(flights, Apply(flights, t, ops[0]), ops[1..])
  }

  /** The reservation ids handed out along a sequence of operations, in order. */
  function Issued(flights: map<int, Flight>, t: Tables, ops: seq<Op>): seq<int>
    decreases |ops|
  {
    if ops == [] then [] else IssuedBy(flights, t, ops[0]) + Issued(flights, Apply(flights, t, ops[0]), ops[1..])
  }

  /** The live reservation ids are exactly 1 to the number of rows. */
  ghost predicate IdsDense(reservations: map<int, Reservation>)
  {
    forall rid :: rid in reservations <==> 1 <= rid <= |reservations|
  }

  /** With dense ids, count + 1 is above every live id, so it is free. */
  lemma DenseNextIdIsFresh(reservations: map<int, Reservation>)
    requires IdsDense(reservations)
    ensures NextId(reservations) !in reservations
    ensures forall rid :: rid in reservations ==> rid < NextId(reservations)
  {
  }

  /** Adding the row count + 1 to dense ids, and keeping the same ids, keep them dense. */
  lemma DenseGrows(before: map<int, Reservation>, after: map<int, Reservation>)
    requires IdsDense(before)
    requires after.Keys == before.Keys || after.Keys == before.Keys + {|before| + 1}
    ensures IdsDense(after)
  {
    if after.Keys != before.Keys {
      DenseNextIdIsFresh(before);
      assert |after.Keys| == |before.Keys| + 1;
    }
    assert |after| == |after.Keys|;
  }

  /** Every operation except a cancellation keeps the ids dense. */
  lemma ApplyKeepsIdsDense(flights: map<int, Flight>, t: Tables, op: Op)
    requires IdsDense(t.reservations) && !op.CancelOp?
    ensures IdsDense(Apply(flights, t, op).reservations)
  {
    match op
    case BookOp(user, cache, itineraryId) =>
      if BookStep(flights, t, user, cache, itineraryId).result.Ok? {
        BookSuccess(flights, t, user, cache, itineraryId);
      } else {
        BookFailureLeavesNoTrace(flights, t, user, cache, itineraryId);
      }
      DenseGrows(t.reservations, Apply(flights, t, op).reservations);
    case PayOp(user, rid) =>
      if PayStep(flights, t, user, rid).result.Ok? {
        PaySuccess(flights, t, user, rid);
      } else {
        PayFailureLeavesNoTrace(flights, t, user, rid);
      }
      DenseGrows(t.reservations, Apply(flights, t, op).reservations);
    case CreateOp(_, _, _) =>
    case ClearOp =>
  }

  /**
   * In a history without cancellations the ids stay dense, so the id count + 1 that
   * the next booking allocates is never taken and its insert can only be refused by
   * the same-day rule.
   */
  lemma {:induction false} CancelFreeIdsStayFresh(flights: map<int, Flight>, t: Tables, ops: seq<Op>)
    requires IdsDense(t.reservations)
    requires forall i :: 0 <= i < |ops| ==> !ops[i].CancelOp?
    ensures IdsDense(Run(flights, t, ops).reservations)
    ensures NextId(Run(flights, t, ops).reservations) !in Run(flights, t, ops).reservations
    decreases |ops|
  {
    if ops != [] {
      ApplyKeepsIdsDense(flights, t, ops[0]);
      CancelFreeIdsStayFresh(flights, Apply(flights, t, ops[0]), ops[1..]);
    }
    DenseNextIdIsFresh(Run(flights, t, ops).reservations);
  }

  /** An operation that is neither a cancellation nor clearTables. */
  predicate KeepsRows(op: Op)
  {
    !op.CancelOp? && !op.ClearOp?
  }

  /** Such an operation never removes a row, and an id it hands out is the new row count. */
  lemma ApplyKeepsRows(flights: map<int, Flight>, t: Tables, op: Op)
    requires KeepsRows(op)
    ensures |Apply(flights, t, op).reservations| >= |t.reservations|
    ensures IssuedBy(flights, t, op) == [] ==> |Apply(flights, t, op).reservations| == |t.reservations|
    ensures IssuedBy(flights, t, op) != [] ==>
      IssuedBy(flights, t, op) == [|t.reservations| + 1] && |Apply(flights, t, op).reservations| == |t.reservations| + 1
  {
    match op
    case BookOp(user, cache, itineraryId) =>
      if BookStep(flights, t, user, cache, itineraryId).result.Ok? {
        BookSuccess(flights, t, user, cache, itineraryId);
      } else {
        BookFailureLeavesNoTrace(flights, t, user, cache, itineraryId);
      }
    case PayOp(user, rid) =>
      if PayStep(flights, t, user, rid).result.Ok? {
        PaySuccess(flights, t, user, rid);
        assert Apply(flights, t, op).reservations.Keys == t.reservations.Keys;
      } else {
        PayFailureLeavesNoTrace(flights, t, user, rid);
      }
    case CreateOp(_, _, _) =>
  }

  /**
   * Between two clearTables and without cancellations, the ids handed out are the
   * row count at the start plus 1, 2, 3, ... in turn: they increase strictly by one,
   * so none is handed out twice, and after clearTables they start from 1.
   */
  lemma {:induction false} IssuedIdsIncrease(flights: map<int, Flight>, t: Tables, ops: seq<Op>)
    requires forall i :: 0 <= i < |ops| ==> KeepsRows(ops[i])
    ensures forall i :: 0 <= i < |Issued(flights, t, ops)| ==> Issued(flights, t, ops)[i] == |t.reservations| + i + 1
    ensures forall i :: 0 <= i < |Issued(flights, t, ops)| ==> Issued(flights, t, ops)[i] > |t.reservations|
    ensures forall i, j :: 0 <= i < j < |Issued(flights, t, ops)| ==> Issued(flights, t, ops)[i] < Issued(flights, t, ops)[j]
    ensures |Run(flights, t, ops).reservations| == |t.reservations| + |Issued(flights, t, ops)|
    decreases |ops|
  {
    if ops != [] {
      var next := Apply(flights, t, ops[0]);
      ApplyKeepsRows(flights, t, ops[0]);
      IssuedIdsIncrease(flights, next, ops[1..]);
      var head, rest := IssuedBy(flights, t, ops[0]), Issued(flights, next, ops[1..]);
      assert Issued(flights, t, ops) == head + rest;
    }
  }

  /** An operation that is neither clearTables nor a cancellation of reservation rid. */
  predicate SparesRow(op: Op, rid: int)
  {
    !op.ClearOp? && !(op.CancelOp? && op.rid == rid)
  }

  /** Such an operation leaves a paid reservation rid in place and unchanged. */
  lemma ApplyKeepsPaid(flights: map<int, Flight>, t: Tables, op: Op, rid: int)
    requires SparesRow(op, rid)
    requires rid in t.reservations && t.reservations[rid].paid
    ensures rid in Apply(flights, t, op).reservations
    ensures Apply(flights, t, op).reservations[rid] == t.reservations[rid]
  {
    match op
    case BookOp(user, cache, itineraryId) =>
      if BookStep(flights, t, user, cache, itineraryId).result.Ok? {
        BookSuccess(flights, t, user, cache, itineraryId);
      } else {
        BookFailureLeavesNoTrace(flights, t, user, cache, itineraryId);
      }
    case PayOp(user, paying) =>
      if PayStep(flights, t, user, paying).result.Ok? {
        PaySuccess(flights, t, user, paying);
      } else {
        PayFailureLeavesNoTrace(flights, t, user, paying);
      }
    case CancelOp(user, cancelled) =>
      if CancelStep(t, user, cancelled).result.Ok? {
        assert Apply(flights, t, op).reservations == t.reservations - {cancelled};
      }
    case CreateOp(_, _, _) =>
  }

  /**
   * A reservation is paid for at most once: along any history without clearTables and
   * without a cancellation of that reservation, a paid reservation stays present and
   * paid, and every later payment for it is refused and changes nothing.
   */
  lemma {:induction false} PaidStaysPaid(flights: map<int, Flight>, t: Tables, ops: seq<Op>, rid: int, user: Option<string>)
    requires forall i :: 0 <= i < |ops| ==> SparesRow(ops[i], rid)
    requires rid in t.reservations && t.reservations[rid].paid
    ensures rid in Run(flights, t, ops).reservations
    ensures Run(flights, t, ops).reservations[rid] == t.reservations[rid]
    ensures PayStep(flights, Run(flights, t, ops), user, rid).result.Err?
    ensures PayStep(flights, Run(flights, t, ops), user, rid).tables == Run(flights, t, ops)
    decreases |ops|
  {
    if ops != [] {
      ApplyKeepsPaid(flights, t, ops[0], rid);
      PaidStaysPaid(flights, Apply(flights, t, ops[0]), ops[1..], rid, user);
    }
  }

  /** The flight, the history and the later booking of the collision example. */
  const CollisionFlights: map<int, Flight> := map[7 := Flight(10, 100)]
  const CollisionHistory: seq<Op> := [
    CreateOp("ann", "pw", 500),
    BookOp(Some("ann"), [Itinerary(90, 1, 7, None)], 0),
    BookOp(Some("ann"), [Itinerary(90, 2, 7, None)], 0),
    CancelOp(Some("ann"), 1),
    CreateOp("bob", "pw", 300)]
  const CollisionBooking: Itinerary := Itinerary(90, 3, 7, None)

  /** Flight 7 has ten seats, so a ledger holding n < 10 of them has a seat free on it. */
  lemma CollisionSeatFree(n: int)
    requires 0 <= n < 10
    ensures Reserve(CollisionFlights, map[7 := n], 7, None) == Some(map[7 := n + 1])
  {
    assert Capacity(CollisionFlights, 7) == 10;
    assert LedgerRow(map[7 := n], 7) == n;
    assert SeatFree(CollisionFlights, map[7 := n], 7);
    assert Take(map[7 := n], 7) == map[7 := n + 1];
  }

  /** The tables of the collision example before each operation of its history, and after the last. */
  const CollisionStates: seq<Tables> := [
    CLEARED,
    Tables(map[], map[], map["ann" := User("pw", 500)]),
    Tables(map[7 := 1], map[1 := Reservation("ann", 7, None, 1, false)], map["ann" := User("pw", 500)]),
    Tables(map[7 := 2], map[1 := Reservation("ann", 7, None, 1, false), 2 := Reservation("ann", 7, None, 2, false)],
           map["ann" := User("pw", 500)]),
    Tables(map[7 := 1], map[2 := Reservation("ann", 7, None, 2, false)], map["ann" := User("pw", 500)]),
    Tables(map[7 := 1], map[2 := Reservation("ann", 7, None, 2, false)],
           map["ann" := User("pw", 500), "bob" := User("pw", 300)])]

  /** ann opens an account and books days 1 and 2, getting ids 1 and 2. */
  lemma CollisionBookingSteps()
    ensures Apply(CollisionFlights, CollisionStates[0], CollisionHistory[0]) == CollisionStates[1]
    ensures Apply(CollisionFlights, CollisionStates[1], CollisionHistory[1]) == CollisionStates[2]
    ensures Apply(CollisionFlights, CollisionStates[2], CollisionHistory[2]) == CollisionStates[3]
  {
    assert Capacity(CollisionFlights, 7) == 10 && LedgerRow(map[], 7) == 0;
    assert Reserve(CollisionFlights, map[], 7, None) == Some(map[7 := 1]);
    CollisionSeatFree(1);
    assert !HasDay(CollisionStates[2].reservations, "ann", 2);
  }

  /** ann cancels reservation 1, which gives back its seat, and bob opens an account. */
  lemma CollisionLaterSteps()
    ensures Apply(CollisionFlights, CollisionStates[3], CollisionHistory[3]) == CollisionStates[4]
    ensures Apply(CollisionFlights, CollisionStates[4], CollisionHistory[4]) == CollisionStates[5]
  {
    assert CollisionStates[3].reservations - {1} == CollisionStates[4].reservations;
  }

  /**
   * After ann books days 1 and 2 on a cleared store and then cancels reservation 1,
   * and bob opens an account, one row is left, under id 2, and flight 7 has one seat
   * taken.
   */
  lemma CollisionHistoryTables()
    ensures Run(CollisionFlights, CLEARED, CollisionHistory)
            == Tables(map[7 := 1], map[2 := Reservation("ann", 7, None, 2, false)],
                      map["ann" := User("pw", 500), "bob" := User("pw", 300)])
  {
    CollisionBookingSteps();
    CollisionLaterSteps();
    var flights, ops, ts := CollisionFlights, CollisionHistory, CollisionStates;
    assert ops[4..][1..] == [] && ops[3..][1..] == ops[4..];
    assert ops[2..][1..] == ops[3..] && ops[1..][1..] == ops[2..];
    assert Run(flights, ts[4], ops[4..]) == Run(flights, ts[5], []) == ts[5];
    assert Run(flights, ts[3], ops[3..]) == Run(flights, ts[4], ops[4..]);
    assert Run(flights, ts[2], ops[2..]) == Run(flights, ts[3], ops[3..]);
    assert Run(flights, ts[1], ops[1..]) == Run(flights, ts[2], ops[2..]);
    assert Run(flights, ts[0], ops) == Run(flights, ts[1], ops[1..]);
  }

  /**
   * The reservation-id promise does not hold as coded: after two bookings and the
   * cancellation of the first, count + 1 = 2 is the id of the reservation still
   * live, so the booking of bob, who has just opened an account, on a free day and
   * with free seats is refused with the same-day error.
   */
  lemma CancelLetsIdCollide()
    ensures var before := Run(CollisionFlights, CLEARED, CollisionHistory);
      && NextId(before.reservations) in before.reservations
      && !HasDay(before.reservations, "bob", 3)
      && Reserve(CollisionFlights, before.booking, CollisionBooking.fid1, CollisionBooking.fid2).Some?
      && BookStep(CollisionFlights, before, Some("bob"), [CollisionBooking], 0).result == Err(SameDayConflict)
  {
    CollisionHistoryTables();
    var before := Run(CollisionFlights, CLEARED, CollisionHistory);
    assert |before.reservations| == 1;
    CollisionSeatFree(1);
  }
}

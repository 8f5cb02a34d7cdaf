/**
 * Cancelling a reservation: inside one transaction, find the row of this user with
 * this id, delete it and give back one seat on each of its flights.
 *
 * The model follows the evident intent of transaction_cancel (Query.java:874-928),
 * not these defects of the code as written:
 * - the Booking counts are read with getInt on a result set never advanced with
 *   next() (lines 902 and 915);
 * - the decrementing UPDATEs are sent with executeQuery (lines 906 and 919);
 * - when no row is found the transaction is rolled back (line 908) and the code then
 *   sends a commit with no transaction open (line 921); unless the server accepts
 *   that commit, the SQL error it raises is answered with the failure message
 *   (line 926), and otherwise the cancellation is reported as done (line 922). Here
 *   it is a failure with no effect.
 */
module Cancellation {
  import opened Store
  import opened Settlement

  /** The lookup of cancel: the id names a reservation of this user, paid or not. */
  predicate Owned(reservations: map<int, Reservation>, user: string, rid: int)
  {
    rid in reservations && reservations[rid].user == user
  }

  /** The ledger after giving back one seat per leg of the reservation. */
  function ReleaseLegs(booking: map<int, int>, r: Reservation): map<int, int>
  {
    var first := Release(booking, r.fid1);
    if r.fid2.Some? then Release(first, r.fid2.value) else first
  }

  /** transaction_cancel on the abstract tables. */
  function CancelStep(t: Tables, user: Option<string>, rid: int): Step<int>
  {
    if user.None? then Step(t, Err(NotLoggedIn))
    else if !Owned(t.reservations, user.value, rid) then Step(t, Err(CancelFailed(rid)))
    else
      var r := t.reservations[rid];
      Step(Tables(ReleaseLegs(t.booking, r), t.reservations - {rid}, t.users), Ok(rid))
  }

  /** A cancellation succeeds exactly when a user is logged in and owns the reservation. */
  lemma CancelSucceedsIff(t: Tables, user: Option<string>, rid: int)
    ensures CancelStep(t, user, rid).result.Ok? <==> user.Some? && Owned(t.reservations, user.value, rid)
    ensures CancelStep(t, user, rid).result.Err? ==> CancelStep(t, user, rid).tables == t
  {
  }

  /**
   * In a consistent state a successful cancellation removes exactly the row (user, rid),
   * lowers the count of each of its flights by exactly its legs on that flight, and
   * changes no other reservation, no other flight's count and no account.
   */
  lemma CancelSuccess(flights: map<int, Flight>, t: Tables, user: Option<string>, rid: int)
    requires Consistent(flights, t)
    requires CancelStep(t, user, rid).result.Ok?
    ensures user.Some? && Owned(t.reservations, user.value, rid)
    ensures var step, r := CancelStep(t, user, rid), t.reservations[rid];
      && step.tables.reservations == t.reservations - {rid}
      && step.tables.booking.Keys == t.booking.Keys
      && (forall fid :: LedgerRow(step.tables.booking, fid) == LedgerRow(t.booking, fid) - LegCount(r.fid1, r.fid2, fid))
      && step.tables.users == t.users
  {
    var r := t.reservations[rid];
    LegsAreBooked(flights, t, rid);
    var after := CancelStep(t, user, rid).tables.booking;
    forall fid
      ensures LedgerRow(after, fid) == LedgerRow(t.booking, fid) - LegCount(r.fid1, r.fid2, fid)
    {
      var first := Release(t.booking, r.fid1);
      assert LedgerRow(first, fid) == LedgerRow(t.booking, fid) - (if r.fid1 == fid then 1 else 0);
    }
  }

  /** Cancelling keeps the store consistent: no count drops below zero or stops matching the seats held. */
  lemma CancelPreservesConsistency(flights: map<int, Flight>, t: Tables, user: Option<string>, rid: int)
    requires Consistent(flights, t)
    ensures Consistent(flights, CancelStep(t, user, rid).tables)
  {
    var step := CancelStep(t, user, rid);
    if step.result.Ok? {
      CancelSuccess(flights, t, user, rid);
      var r := t.reservations[rid];
      forall fid
        ensures LedgerRow(step.tables.booking, fid) == Held(step.tables.reservations, fid)
      {
        HeldRemove(t.reservations, rid, fid);
      }
      assert WithinCapacity(flights, step.tables.booking) by {
        forall fid
          ensures 0 <= LedgerRow(step.tables.booking, fid) <= Capacity(flights, fid)
        {
          assert LedgerRow(t.booking, fid) <= Capacity(flights, fid);
        }
      }
    }
  }

  /** After a cancellation, paying for or cancelling the same id again finds nothing. */
  lemma CancelIsFinal(flights: map<int, Flight>, t: Tables, user: Option<string>, rid: int)
    requires CancelStep(t, user, rid).result.Ok?
    ensures var after := CancelStep(t, user, rid).tables;
      && rid !in after.reservations
      && CancelStep(after, user, rid) == Step(after, Err(CancelFailed(rid)))
      && PayStep(flights, after, user, rid).tables == after
      && PayStep(flights, after, user, rid).result
         == Err(if user.value in after.users then NoUnpaidReservation(rid, user.value) else PayFailed(rid))
  {
  }
}

/**
 * Paying for a reservation: inside one transaction, read the balance, find the
 * user's unpaid reservation, add up its flights' prices, and either refuse
 * (rolling back) or mark it paid and debit the balance.
 */
module Settlement {
  import opened Store

  /** The lookup of pay: the id names a reservation of this user that is still unpaid. */
  predicate Unpaid(reservations: map<int, Reservation>, user: string, rid: int)
  {
    rid in reservations && reservations[rid].user == user && !reservations[rid].paid
  }

  /** Both price lookups find their flight. */
  predicate PricesListed(flights: map<int, Flight>, r: Reservation)
  {
    r.fid1 in flights && (r.fid2.Some? ==> r.fid2.value in flights)
  }

  /** The itinerary's cost: the first flight's price plus the second's, when there is one. */
  function Cost(flights: map<int, Flight>, r: Reservation): int
    requires PricesListed(flights, r)
  {
    flights[r.fid1].price + (if r.fid2.Some? then flights[r.fid2.value].price else 0)
  }

  /**
   * transaction_pay on the abstract tables. A missing Users row or Flights row has no
   * value to read; the service then reports a generic payment failure.
   */
  function PayStep(flights: map<int, Flight>, t: Tables, user: Option<string>, rid: int): Step<int>
  {
    if user.None? then Step(t, Err(NotLoggedIn))
    else if user.value !in t.users then Step(t, Err(PayFailed(rid)))
    else
      var name, balance := user.value, t.users[user.value].balance;
      if !Unpaid(t.reservations, name, rid) then Step(t, Err(NoUnpaidReservation(rid, name)))
      else
        var r := t.reservations[rid];
        if !PricesListed(flights, r) then Step(t, Err(PayFailed(rid)))
        else if Cost(flights, r) > balance then Step(t, Err(InsufficientFunds(balance, Cost(flights, r))))
        else
          var remaining := balance - Cost(flights, r);
          Step(Tables(t.booking, t.reservations[rid := r.(paid := true)], t.users[name := t.users[name].(balance := remaining)]),
               Ok(remaining))
  }

  /**
   * In a consistent state a payment succeeds exactly when a user is logged in and has
   * an account, the id names one of the user's unpaid reservations, and its cost is at
   * most the balance.
   */
  lemma PaySucceedsIff(flights: map<int, Flight>, t: Tables, user: Option<string>, rid: int)
    requires Consistent(flights, t)
    ensures PayStep(flights, t, user, rid).result.Ok? <==>
      && user.Some? && user.value in t.users
      && Unpaid(t.reservations, user.value, rid)
      && PricesListed(flights, t.reservations[rid])
      && Cost(flights, t.reservations[rid]) <= t.users[user.value].balance
    ensures user.Some? && Unpaid(t.reservations, user.value, rid) ==> PricesListed(flights, t.reservations[rid])
  {
    if user.Some? && Unpaid(t.reservations, user.value, rid) {
      LegsAreBooked(flights, t, rid);
    }
  }

  /**
   * A successful payment marks exactly that reservation paid, debits exactly its cost
   * from the payer's balance, returns the remaining balance, which is not negative,
   * and changes no seat count, no other reservation and no other account.
   */
  lemma PaySuccess(flights: map<int, Flight>, t: Tables, user: Option<string>, rid: int)
    requires PayStep(flights, t, user, rid).result.Ok?
    ensures user.Some? && user.value in t.users && rid in t.reservations
    ensures PricesListed(flights, t.reservations[rid])
    ensures var step, cost, name := PayStep(flights, t, user, rid), Cost(flights, t.reservations[rid]), user.value;
      && step.result.value == t.users[name].balance - cost >= 0
      && step.tables.booking == t.booking
      && step.tables.reservations == t.reservations[rid := t.reservations[rid].(paid := true)]
      && !t.reservations[rid].paid && step.tables.reservations[rid].paid
      && step.tables.users.Keys == t.users.Keys
      && step.tables.users[name] == User(t.users[name].password, t.users[name].balance - cost)
      && (forall other :: other in t.users && other != name ==> step.tables.users[other] == t.users[other])
  {
  }

  /** A failed payment leaves every table as it was. */
  lemma PayFailureLeavesNoTrace(flights: map<int, Flight>, t: Tables, user: Option<string>, rid: int)
    requires PayStep(flights, t, user, rid).result.Err?
    ensures PayStep(flights, t, user, rid).tables == t
  {
  }

  /**
   * The refusals: a missing reservation, another user's reservation, a reservation
   * already paid, and a cost above the balance.
   */
  lemma PayErrors(flights: map<int, Flight>, t: Tables, name: string, rid: int)
    requires name in t.users
    ensures rid !in t.reservations ==> PayStep(flights, t, Some(name), rid).result == Err(NoUnpaidReservation(rid, name))
    ensures rid in t.reservations && t.reservations[rid].user != name
            ==> PayStep(flights, t, Some(name), rid).result == Err(NoUnpaidReservation(rid, name))
    ensures rid in t.reservations && t.reservations[rid].paid
            ==> PayStep(flights, t, Some(name), rid).result == Err(NoUnpaidReservation(rid, name))
    ensures Unpaid(t.reservations, name, rid) && PricesListed(flights, t.reservations[rid])
            && Cost(flights, t.reservations[rid]) > t.users[name].balance
            ==> PayStep(flights, t, Some(name), rid).result
                == Err(InsufficientFunds(t.users[name].balance, Cost(flights, t.reservations[rid])))
  {
  }

  /** A reservation is paid at most once: paying it again right after a success is refused with no effect. */
  lemma PayAtMostOnce(flights: map<int, Flight>, t: Tables, user: Option<string>, rid: int)
    requires PayStep(flights, t, user, rid).result.Ok?
    ensures var after := PayStep(flights, t, user, rid).tables;
      PayStep(flights, after, user, rid) == Step(after, Err(NoUnpaidReservation(rid, user.value)))
  {
  }

  /** Paying keeps the store consistent; in particular no balance becomes negative. */
  lemma PayPreservesConsistency(flights: map<int, Flight>, t: Tables, user: Option<string>, rid: int)
    requires Consistent(flights, t)
    ensures Consistent(flights, PayStep(flights, t, user, rid).tables)
  {
    var step := PayStep(flights, t, user, rid);
    if step.result.Ok? {
      var r := t.reservations[rid];
      forall fid
        ensures LedgerRow(step.tables.booking, fid) == Held(step.tables.reservations, fid)
      {
        HeldRelabel(t.reservations, rid, r.(paid := true), fid);
      }
      assert OnePerDay(step.tables.reservations) by {
        forall r1, r2 | r1 in step.tables.reservations && r2 in step.tables.reservations && r1 != r2
          && step.tables.reservations[r1].user == step.tables.reservations[r2].user
          ensures step.tables.reservations[r1].day != step.tables.reservations[r2].day
        {
          assert t.reservations[r1].day == step.tables.reservations[r1].day;
          assert t.reservations[r2].day == step.tables.reservations[r2].day;
        }
      }
    }
  }
}

/**
 * Customer accounts: creating a customer with a non-negative opening balance, and
 * the credential check of login.
 */
module Accounts {
  import opened Store

  /** The credential lookup of login: a Users row with this name and this password. */
  predicate CredentialsMatch(users: map<string, User>, name: string, password: string)
  {
    name in users && users[name].password == password
  }

  /**
   * transaction_createCustomer on the abstract tables: a negative amount is refused
   * before the insert, and the insert is refused for a name already taken.
   */
  function CreateStep(t: Tables, name: string, password: string, amount: int): Step<string>
  {
    if amount < 0 then Step(t, Err(CreateFailed))
    else if name in t.users then Step(t, Err(CreateFailed))
    else Step(t.(users := t.users[name := User(password, amount)]), Ok(name))
  }

  /**
   * A customer is created exactly when the amount is not negative and the name is new;
   * then the account holds that password and the amount, and nothing else changes.
   * A refusal changes nothing.
   */
  lemma CreateSucceedsIff(t: Tables, name: string, password: string, amount: int)
    ensures var step := CreateStep(t, name, password, amount);
      && (step.result.Ok? <==> amount >= 0 && name !in t.users)
      && (step.result.Ok? ==>
            && step.result.value == name
            && step.tables.users == t.users[name := User(password, amount)]
            && step.tables.booking == t.booking && step.tables.reservations == t.reservations
            && CredentialsMatch(step.tables.users, name, password))
      && (step.result.Err? ==> step.tables == t)
  {
  }

  /** Creating a customer keeps the store consistent; the new balance is not negative. */
  lemma CreatePreservesConsistency(flights: map<int, Flight>, t: Tables, name: string, password: string, amount: int)
    requires Consistent(flights, t)
    ensures Consistent(flights, CreateStep(t, name, password, amount).tables)
  {
  }
}

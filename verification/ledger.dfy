/** The customer ledger of the application (app.py): creating a customer,
    applying a payment against the outstanding balance, and deleting a
    customer. The document collection is a map from the `Id` field to the
    record; every handler is a transition from one map to the next. */
module Ledger {
  import opened Wrappers
  import Validators

  /** One customer document. `Amount_Received` and `Balance_Amount` are
      numbers here; the text encoding of the balance is abstracted away. */
  datatype Customer = Customer(
    id: string,
    name: string,
    phone: string,
    date: string,
    amountReceived: real,
    balanceAmount: real,
    address: string,
    model: string
  )

  /** The `customer` collection, keyed by `Id`. */
  type Store = map<string, Customer>

  /** Every record is stored under its own `Id`. */
  ghost predicate KeyedById(store: Store) {
    forall k :: k in store ==> store[k].id == k
  }

  /** Neither amount of any record is negative. */
  ghost predicate AmountsNonNegative(store: Store) {
    forall k :: k in store ==> store[k].amountReceived >= 0.0 && store[k].balanceAmount >= 0.0
  }

  /** `Outstanding` while something is owed, `Settled` once the balance is
      zero. */
  predicate Settled(c: Customer) {
    c.balanceAmount == 0.0
  }

  // ---------------------------------------------------------------------
  // create_customer
  // ---------------------------------------------------------------------

  datatype CreateOutcome = Created | DuplicateId

  /** `create_customer`: refused when a record with the same `Id` exists,
      otherwise the form's fields are inserted as they are. */
  function CreateCustomer(store: Store, c: Customer): (r: (CreateOutcome, Store))
    ensures c.id in store ==> r.0 == DuplicateId && r.1 == store
    ensures c.id !in store ==> && r.0 == Created
                               && r.1.Keys == store.Keys + {c.id}
                               && r.1[c.id] == c
                               && forall k :: k in store ==> r.1[k] == store[k]
    ensures KeyedById(store) ==> KeyedById(r.1)
  {
    if c.id in store then (DuplicateId, store)
    else (Created, store[c.id := c])
  }

  // ---------------------------------------------------------------------
  // update_amount
  // ---------------------------------------------------------------------

  datatype UpdateOutcome = Updated | InsufficientBalance

  /** `update_amount` as written: the payment `delta` is added to the amount
      received and taken off the balance; the write is refused when the new
      balance would be negative. The payment itself is not checked. */
  function UpdateAmount(store: Store, id: string, delta: real): (r: (UpdateOutcome, Store))
    requires id in store
    ensures r.0 == InsufficientBalance <==> store[id].balanceAmount < delta
    ensures r.0 == InsufficientBalance ==> r.1 == store
    ensures r.0 == Updated ==> && r.1.Keys == store.Keys
                               && r.1[id].amountReceived == store[id].amountReceived + delta
                               && r.1[id].balanceAmount == store[id].balanceAmount - delta
                               && r.1[id].balanceAmount >= 0.0
                               && r.1[id] == store[id].(amountReceived := r.1[id].amountReceived,
                                                        balanceAmount := r.1[id].balanceAmount)
                               && forall k :: k in store && k != id ==> r.1[k] == store[k]
  {
    var c := store[id];
    var updatedReceived := c.amountReceived + delta;
    var updatedBalance := c.balanceAmount - delta;
    if updatedBalance < 0.0 then (InsufficientBalance, store)
    else (Updated, store[id := c.(amountReceived := updatedReceived, balanceAmount := updatedBalance)])
  }

  datatype PaymentOutcome = Paid | Overpayment | InvalidAmount

  /** The payment rule as evidently intended: the payment must first pass
      `validate_amount`, then `update_amount` applies it. */
  function ApplyPayment(store: Store, id: string, delta: real): (r: (PaymentOutcome, Store))
    requires id in store
    ensures r.0 == InvalidAmount <==> delta < 0.0
    ensures r.0 == Overpayment <==> 0.0 <= delta && store[id].balanceAmount < delta
    ensures r.0 != Paid ==> r.1 == store
    ensures r.0 == Paid ==> r.1 == UpdateAmount(store, id, delta).1
  {
    if !Validators.ValidateAmount(Some(Validators.Finite(delta))) then (InvalidAmount, store)
    else
      match UpdateAmount(store, id, delta)
      case (InsufficientBalance, s) => (Overpayment, s)
      case (Updated, s) => (Paid, s)
  }

  // ---------------------------------------------------------------------
  // delete_customer
  // ---------------------------------------------------------------------

  /** `delete_customer`: the record with that `Id` is removed, if any. */
  function DeleteCustomer(store: Store, id: string): (r: Store)
    ensures r.Keys == store.Keys - {id}
    ensures forall k :: k in r ==> r[k] == store[k]
    ensures id !in store ==> r == store
  {
    store - {id}
  }

  // ---------------------------------------------------------------------
  // Properties of the transitions
  // ---------------------------------------------------------------------

  /** Creating a fresh customer and deleting it again restores the
      collection. */
  lemma CreateThenDelete(store: Store, c: Customer)
    requires c.id !in store
    ensures CreateCustomer(store, c).0 == Created
    ensures DeleteCustomer(CreateCustomer(store, c).1, c.id) == store
  {
    var after := DeleteCustomer(CreateCustomer(store, c).1, c.id);
    assert after.Keys == store.Keys;
  }

  /** Deleting twice is deleting once. */
  lemma DeleteIdempotent(store: Store, id: string)
    ensures DeleteCustomer(DeleteCustomer(store, id), id) == DeleteCustomer(store, id)
    ensures id !in DeleteCustomer(store, id)
  {
  }

  /** A payment equal to the balance is accepted, because the guard is a
      strict comparison, and settles the account. */
  lemma ExactSettlement(store: Store, id: string)
    requires id in store
    ensures var r := UpdateAmount(store, id, store[id].balanceAmount);
            r.0 == Updated && Settled(r.1[id])
  {
  }

  /** An accepted update moves money from the balance to the amount
      received: their sum is unchanged. */
  lemma UpdateConservesTotal(store: Store, id: string, delta: real)
    requires id in store
    ensures var r := UpdateAmount(store, id, delta);
            r.1[id].amountReceived + r.1[id].balanceAmount ==
              store[id].amountReceived + store[id].balanceAmount
  {
  }

  /** Two accepted payments in a row have the effect of one payment of
      their sum. */
  lemma {:induction false} PaymentsCompose(store: Store, id: string, d1: real, d2: real)
    requires id in store
    requires UpdateAmount(store, id, d1).0 == Updated
    requires UpdateAmount(UpdateAmount(store, id, d1).1, id, d2).0 == Updated
    ensures UpdateAmount(UpdateAmount(store, id, d1).1, id, d2).1 == UpdateAmount(store, id, d1 + d2).1
  {
    var s1 := UpdateAmount(store, id, d1).1;
    var s2 := UpdateAmount(s1, id, d2).1;
    var one := UpdateAmount(store, id, d1 + d2);
    assert one.0 == Updated;
    assert s2.Keys == one.1.Keys;
    assert s2[id] == one.1[id];
  }

  /** A payment that passes validation never decreases the amount received
      nor increases the balance, and keeps every amount non-negative. */
  lemma {:induction false} ApplyPaymentPreservesAmounts(store: Store, id: string, delta: real)
    requires id in store
    requires AmountsNonNegative(store)
    ensures var r := ApplyPayment(store, id, delta);
            && AmountsNonNegative(r.1)
            && r.1[id].amountReceived >= store[id].amountReceived
            && r.1[id].balanceAmount <= store[id].balanceAmount
  {
    var r := ApplyPayment(store, id, delta);
    if r.0 == Paid {
      assert delta >= 0.0;
      forall k | k in r.1
        ensures r.1[k].amountReceived >= 0.0 && r.1[k].balanceAmount >= 0.0
      {
        if k != id {
          assert r.1[k] == store[k];
        }
      }
    }
  }

  /** As written, a negative payment is accepted whenever it does not drive
      the balance negative, and it can leave the amount received below
      zero. */
  lemma NegativePaymentAccepted(store: Store, id: string, delta: real)
    requires id in store
    requires delta < 0.0 && store[id].balanceAmount >= 0.0
    requires store[id].amountReceived + delta < 0.0
    ensures UpdateAmount(store, id, delta).0 == Updated
    ensures !AmountsNonNegative(UpdateAmount(store, id, delta).1)
  {
    var r := UpdateAmount(store, id, delta).1;
    assert r[id].amountReceived < 0.0;
  }

  /** A concrete instance: a record with nothing received and nothing owed
      accepts a payment of -5, after which 5 is owed and -5 received. */
  lemma NegativePaymentWitness()
    ensures var c := Customer("C001", "Asha Rao", "+919876543210", "2024-01-15", 0.0, 0.0, "12 MG Road", "X200");
            var r := UpdateAmount(map[c.id := c], c.id, -5.0);
            && AmountsNonNegative(map[c.id := c])
            && r.0 == Updated
            && r.1[c.id].amountReceived == -5.0
            && r.1[c.id].balanceAmount == 5.0
  {
  }

  // ---------------------------------------------------------------------
  // Sequences of requests
  // ---------------------------------------------------------------------

  /** A request to one of the three handlers. */
  datatype Request = Create(customer: Customer) | Pay(id: string, delta: real) | Delete(id: string)

  /** Which payment rule a payment request follows: `update_amount` as
      written, or the corrected rule that validates the payment first. */
  datatype PaymentRule = AsWritten | Validated

  /** The `Id`s that the create requests of `reqs` carry. */
  function CreatedIds(reqs: seq<Request>): set<string> {
    set i | 0 <= i < |reqs| && reqs[i].Create? :: reqs[i].customer.id
  }

  /** The collection after one request. A payment for an `Id` that is not
      there raises in the handler before any write, so it changes nothing. */
  function Step(rule: PaymentRule, store: Store, req: Request): (r: Store)
    ensures req.Create? ==> r.Keys == store.Keys + {req.customer.id}
    ensures req.Pay? ==> r.Keys == store.Keys
    ensures req.Pay? && req.id !in store ==> r == store
    ensures req.Delete? ==> r.Keys == store.Keys - {req.id}
    ensures forall k :: k in store && k !in r ==> req.Delete? && k == req.id
  {
    match req
    case Create(c) => CreateCustomer(store, c).1
    case Pay(id, delta) =>
      if id !in store then store
      else if rule == AsWritten then UpdateAmount(store, id, delta).1
      else ApplyPayment(store, id, delta).1
    case Delete(id) => DeleteCustomer(store, id)
  }

  /** The collection after a sequence of requests, one at a time. */
  function Run(rule: PaymentRule, store: Store, reqs: seq<Request>): (r: Store)
    ensures r.Keys <= store.Keys + CreatedIds(reqs)
    decreases |reqs|
  {
    if reqs == [] then store
    else
      var rest := Run(rule, Step(rule, store, reqs[0]), reqs[1..]);
      assert forall i :: 0 <= i < |reqs[1..]| ==> reqs[1..][i] == reqs[i + 1];
      assert CreatedIds(reqs[1..]) <= CreatedIds(reqs);
      assert reqs[0].Create? ==> reqs[0].customer.id in CreatedIds(reqs);
      rest
  }

  /** The form of a create request carries no negative amount. */
  predicate CreatesNonNegative(req: Request) {
    req.Create? ==> req.customer.amountReceived >= 0.0 && req.customer.balanceAmount >= 0.0
  }

  /** The form of a create request carries no negative balance. */
  predicate CreatesNonNegativeBalance(req: Request) {
    req.Create? ==> req.customer.balanceAmount >= 0.0
  }

  /** No record owes a negative balance. */
  ghost predicate BalancesNonNegative(store: Store) {
    forall k :: k in store ==> store[k].balanceAmount >= 0.0
  }

  /** Under either payment rule, one request keeps the collection keyed by
      `Id` and keeps every balance non-negative, given that a create carries
      no negative balance (its amount received may be anything):
      `update_amount` as written refuses any write that would leave a
      negative balance. */
  lemma {:induction false} StepKeepsKeysAndBalances(rule: PaymentRule, store: Store, req: Request)
    requires KeyedById(store) && BalancesNonNegative(store)
    requires CreatesNonNegativeBalance(req)
    ensures KeyedById(Step(rule, store, req)) && BalancesNonNegative(Step(rule, store, req))
  {
    match req
    case Create(c) =>
    case Pay(id, delta) =>
      if id in store {
        var u := UpdateAmount(store, id, delta);
        if u.0 == Updated {
          assert u.1[id].id == store[id].id;
          forall k | k in u.1
            ensures u.1[k].id == k && u.1[k].balanceAmount >= 0.0
          {
            if k != id {
              assert u.1[k] == store[k];
            }
          }
        }
      }
    case Delete(id) =>
  }

  /** Any sequence of requests whose creates carry no negative balance,
      under either payment rule, keeps every record under its own `Id` and
      every balance non-negative. */
  lemma {:induction false} RunKeepsKeysAndBalances(rule: PaymentRule, store: Store, reqs: seq<Request>)
    requires KeyedById(store) && BalancesNonNegative(store)
    requires forall i :: 0 <= i < |reqs| ==> CreatesNonNegativeBalance(reqs[i])
    ensures KeyedById(Run(rule, store, reqs)) && BalancesNonNegative(Run(rule, store, reqs))
    decreases |reqs|
  {
    if reqs != [] {
      StepKeepsKeysAndBalances(rule, store, reqs[0]);
      assert forall i :: 0 <= i < |reqs[1..]| ==> reqs[1..][i] == reqs[i + 1];
      RunKeepsKeysAndBalances(rule, Step(rule, store, reqs[0]), reqs[1..]);
    }
  }

  /** As written, the amount received does not stay non-negative over a
      run: creating a customer with nothing received and nothing owed, then
      paying -5, leaves -5 received. */
  lemma RunAsWrittenBreaksAmounts()
    ensures var c := Customer("C001", "Asha Rao", "+919876543210", "2024-01-15", 0.0, 0.0, "12 MG Road", "X200");
            var reqs := [Create(c), Pay(c.id, -5.0)];
            && AmountsNonNegative(map[])
            && (forall i :: 0 <= i < |reqs| ==> CreatesNonNegative(reqs[i]))
            && !AmountsNonNegative(Run(AsWritten, map[], reqs))
  {
    var c := Customer("C001", "Asha Rao", "+919876543210", "2024-01-15", 0.0, 0.0, "12 MG Road", "X200");
    var reqs := [Create(c), Pay(c.id, -5.0)];
    var s1 := Step(AsWritten, map[], reqs[0]);
    assert s1 == map[c.id := c];
    var s2 := Step(AsWritten, s1, reqs[1]);
    assert s2[c.id].amountReceived == -5.0;
    assert Run(AsWritten, map[], reqs) == Run(AsWritten, s1, reqs[1..]);
    assert reqs[1..] == [reqs[1]] && reqs[1..][1..] == [];
    assert Run(AsWritten, s1, reqs[1..]) == Run(AsWritten, s2, []);
  }

  /** Under the corrected payment rule, one request keeps the collection
      keyed by `Id` and free of negative amounts. */
  lemma {:induction false} StepPreservesInvariants(store: Store, req: Request)
    requires KeyedById(store) && AmountsNonNegative(store)
    requires CreatesNonNegative(req)
    ensures KeyedById(Step(Validated, store, req)) && AmountsNonNegative(Step(Validated, store, req))
  {
    match req
    case Create(c) =>
    case Pay(id, delta) =>
      if id in store {
        ApplyPaymentPreservesAmounts(store, id, delta);
        var r := ApplyPayment(store, id, delta).1;
        if ApplyPayment(store, id, delta).0 == Paid {
          assert r[id].id == store[id].id;
        }
      }
    case Delete(id) =>
  }

  /** Under the corrected payment rule, any sequence of requests whose
      creations carry non-negative amounts keeps every record under its own
      `Id` and every amount non-negative. */
  lemma {:induction false} RunPreservesInvariants(store: Store, reqs: seq<Request>)
    requires KeyedById(store) && AmountsNonNegative(store)
    requires forall i :: 0 <= i < |reqs| ==> CreatesNonNegative(reqs[i])
    ensures KeyedById(Run(Validated, store, reqs)) && AmountsNonNegative(Run(Validated, store, reqs))
    decreases |reqs|
  {
    if reqs != [] {
      StepPreservesInvariants(store, reqs[0]);
      assert forall i :: 0 <= i < |reqs[1..]| ==> reqs[1..][i] == reqs[i + 1];
      RunPreservesInvariants(Step(Validated, store, reqs[0]), reqs[1..]);
    }
  }

  /** The worked example: a customer owing 4000 after paying 1000. A payment
      of 4500 is refused and the balance stays 4000; a payment of 4000 is
      accepted and settles the account with 5000 received. */
  lemma PaymentScenario()
    ensures var c := Customer("C001", "Asha Rao", "+919876543210", "2024-01-15",
                              1000.0, 4000.0, "12 MG Road, City", "X200");
            var created := CreateCustomer(map[], c);
            var over := ApplyPayment(created.1, "C001", 4500.0);
            var exact := ApplyPayment(created.1, "C001", 4000.0);
            && created.0 == Created
            && over.0 == Overpayment && over.1["C001"].balanceAmount == 4000.0
            && exact.0 == Paid
            && exact.1["C001"].balanceAmount == 0.0
            && exact.1["C001"].amountReceived == 5000.0
  {
  }
}

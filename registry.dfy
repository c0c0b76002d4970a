/**
 * The customer registry: `ensureCustomer` finds the customer row for a
 * Telegram id or inserts one.
 */
module Registry {
  import opened Model

  /** What `ensureCustomer` returns (the internal id, or null) and the store after it. */
  datatype Ensured = Ensured(id: Option<nat>, db: Db)

  /**
   * `ensureCustomer(telegramId, username)`. An existing row is returned as
   * it is; otherwise one row `{telegramId, username}` is inserted under a
   * fresh internal id, unless the insert fails, in which case the result is
   * null and nothing changes.
   */
  function EnsureCustomer(db: Db, telegramId: int, username: Option<string>, insertFails: bool): (r: Ensured)
    requires db.Valid()
    ensures r.db.Valid()
    ensures r.db.products == db.products && r.db.orders == db.orders
    ensures telegramId in db.customers ==> r.id == Some(db.customers[telegramId].id) && r.db == db
    ensures telegramId !in db.customers && insertFails ==> r.id == None && r.db == db
    ensures telegramId !in db.customers && !insertFails ==>
      && r.id.Some?
      && (forall t :: t in db.customers ==> db.customers[t].id != r.id.value)
      && r.db.customers == db.customers[telegramId := Customer(r.id.value, telegramId, username)]
      && r.id.value == db.nextCustomerId && r.db.nextCustomerId == db.nextCustomerId + 1
    ensures r.id.Some? ==> telegramId in r.db.customers && r.db.customers[telegramId].id == r.id.value
  {
    if telegramId in db.customers then Ensured(Some(db.customers[telegramId].id), db)
    else if insertFails then Ensured(None, db)
    else
      var id := db.nextCustomerId;
      Ensured(Some(id), db.(customers := db.customers[telegramId := Customer(id, telegramId, username)],
                            nextCustomerId := id + 1))
  }

  /**
   * Once `ensureCustomer` has returned an id, a second call for the same
   * Telegram id returns that id again and changes nothing, whatever the
   * handle and whether or not an insert would fail.
   */
  lemma EnsureCustomerTwice(db: Db, telegramId: int, u1: Option<string>, u2: Option<string>, f1: bool, f2: bool)
    requires db.Valid()
    requires EnsureCustomer(db, telegramId, u1, f1).id.Some?
    ensures var first := EnsureCustomer(db, telegramId, u1, f1);
            var second := EnsureCustomer(first.db, telegramId, u2, f2);
            second.id == first.id && second.db == first.db
            && first.db.customers.Keys == db.customers.Keys + {telegramId}
  {
  }
}

/**
 * The order transactor: `createOrder` checks the product and its stock and
 * appends a pending order, copying the price into `amount`.
 */
module Orders {
  import opened Model
  import opened Text

  /** `{ ok, message }` as `createOrder` returns it. */
  datatype OrderResult = OrderResult(ok: bool, message: string)

  /** The result and the store after the call. */
  datatype Placed = Placed(result: OrderResult, db: Db)

  const ProductNotFound := "Produk tidak ditemukan."
  const OutOfStock := "Stok habis. Silakan pilih produk lain."
  const OrderFailed := "Gagal membuat pesanan."
  const ConfirmationHead := "Pesanan dibuat. ID: "
  const ConfirmationTail := ".\nSilakan lakukan pembayaran."

  /**
   * The success message: between its fixed head and tail it carries the new
   * order's id in canonical decimal.
   */
  function Confirmation(id: nat): (msg: string)
    ensures |ConfirmationHead| + |ConfirmationTail| < |msg|
    ensures msg[..|ConfirmationHead|] == ConfirmationHead && msg[|msg| - |ConfirmationTail|..] == ConfirmationTail
    ensures var digits := msg[|ConfirmationHead|..|msg| - |ConfirmationTail|];
      IsDecimal(digits) && ParseNat(digits) == id
  {
    var digits := NatToString(id);
    var msg := ConfirmationHead + digits + ConfirmationTail;
    assert msg[|ConfirmationHead|..|msg| - |ConfirmationTail|] == digits;
    ParseNatToString(id);
    msg
  }

  /** The success message names its order: different ids give different messages. */
  lemma ConfirmationNamesOrder(a: nat, b: nat)
    ensures Confirmation(a) == Confirmation(b) <==> a == b
  {
    if Confirmation(a) == Confirmation(b) {
      var sa, sb := NatToString(a), NatToString(b);
      var h := |ConfirmationHead|;
      assert |sa| == |sb|;
      assert sa == Confirmation(a)[h..h + |sa|];
      assert sb == Confirmation(b)[h..h + |sb|];
      NatToStringInjective(a, b);
    }
  }

  /**
   * `createOrder(customerId, productId)` as written: an unknown product (or
   * a failed read) and a product with `stock <= 0` are refused, a failed
   * insert reports failure, and otherwise exactly one pending order is
   * appended. Products, stock included, and customers are never written.
   */
  function CreateOrder(db: Db, customerId: nat, productId: string, readFails: bool, insertFails: bool): (r: Placed)
    requires db.Valid()
    ensures r.db.Valid()
    ensures r.db.products == db.products && r.db.customers == db.customers && r.db.nextCustomerId == db.nextCustomerId
    ensures readFails || productId !in db.products ==> r == Placed(OrderResult(false, ProductNotFound), db)
    ensures !readFails && productId in db.products && db.products[productId].stock <= 0 ==>
      r == Placed(OrderResult(false, OutOfStock), db)
    ensures !readFails && productId in db.products && db.products[productId].stock > 0 && insertFails ==>
      r == Placed(OrderResult(false, OrderFailed), db)
    ensures r.result.ok <==> !readFails && !insertFails && productId in db.products && db.products[productId].stock > 0
    ensures !r.result.ok ==> r.db == db
    ensures r.result.ok ==>
      && r.db.orders == db.orders + [Order(|db.orders|, customerId, productId, db.products[productId].price, Pending)]
      && r.result.message == Confirmation(|db.orders|)
  {
    if readFails || productId !in db.products then Placed(OrderResult(false, ProductNotFound), db)
    else
      var product := db.products[productId];
      if product.stock <= 0 then Placed(OrderResult(false, OutOfStock), db)
      else if insertFails then Placed(OrderResult(false, OrderFailed), db)
      else
        var id := |db.orders|;
        Placed(OrderResult(true, Confirmation(id)),
               db.(orders := db.orders + [Order(id, customerId, productId, product.price, Pending)]))
  }

  /** How many orders in `orders` are for product `productId`. */
  function OrdersFor(orders: seq<Order>, productId: string): nat {
    if |orders| == 0 then 0
    else OrdersFor(orders[..|orders| - 1], productId) + (if orders[|orders| - 1].productId == productId then 1 else 0)
  }

  /** Appending an order adds one to its product's count and leaves every other count as it was. */
  lemma OrdersForAppend(orders: seq<Order>, o: Order)
    ensures forall k :: OrdersFor(orders + [o], k) == OrdersFor(orders, k) + (if o.productId == k then 1 else 0)
  {
    assert (orders + [o])[..|orders|] == orders;
  }

  /**
   * As written, stock never limits sales: two successive orders for the
   * last unit both succeed and the stock still reads one.
   */
  lemma OversellAsWritten(db: Db, c1: nat, c2: nat, productId: string)
    requires db.Valid()
    requires productId in db.products && db.products[productId].stock == 1
    ensures var first := CreateOrder(db, c1, productId, false, false);
            var second := CreateOrder(first.db, c2, productId, false, false);
            first.result.ok && second.result.ok
            && second.db.products[productId].stock == 1
            && OrdersFor(second.db.orders, productId) == OrdersFor(db.orders, productId) + 2
  {
    var first := CreateOrder(db, c1, productId, false, false);
    var second := CreateOrder(first.db, c2, productId, false, false);
    assert first.db.orders[..|first.db.orders| - 1] == db.orders;
    assert second.db.orders[..|second.db.orders| - 1] == first.db.orders;
  }

  /**
   * The decrement a stock-safe store needs: the same checks, and a
   * successful order also takes one unit off the product's stock.
   */
  function CreateOrderDecrementing(db: Db, customerId: nat, productId: string, readFails: bool, insertFails: bool): (r: Placed)
    requires db.Valid()
    ensures r.db.Valid()
    ensures r.result == CreateOrder(db, customerId, productId, readFails, insertFails).result
    ensures r.db.orders == CreateOrder(db, customerId, productId, readFails, insertFails).db.orders
    ensures r.db.customers == db.customers && r.db.products.Keys == db.products.Keys
    ensures forall k :: k in db.products ==>
      OrdersFor(r.db.orders, k) + r.db.products[k].stock == OrdersFor(db.orders, k) + db.products[k].stock
    ensures forall k :: k in db.products && db.products[k].stock >= 0 ==> r.db.products[k].stock >= 0
    ensures forall k :: k in db.products ==> r.db.products[k] == db.products[k].(stock := r.db.products[k].stock)
  {
    var placed := CreateOrder(db, customerId, productId, readFails, insertFails);
    if !placed.result.ok then placed
    else
      var product := db.products[productId];
      OrdersForAppend(db.orders, placed.db.orders[|db.orders|]);
      Placed(placed.result, placed.db.(products := db.products[productId := product.(stock := product.stock - 1)]))
  }

  /**
   * With the decrement, an order for the last unit leaves stock at zero and
   * a second order for that product is refused as out of stock.
   */
  lemma LastUnitSoldOnce(db: Db, c1: nat, c2: nat, productId: string)
    requires db.Valid()
    requires productId in db.products && db.products[productId].stock == 1
    ensures var first := CreateOrderDecrementing(db, c1, productId, false, false);
            var second := CreateOrderDecrementing(first.db, c2, productId, false, false);
            first.result.ok && first.db.products[productId].stock == 0
            && second.result == OrderResult(false, OutOfStock) && second.db == first.db
  {
    var first := CreateOrderDecrementing(db, c1, productId, false, false);
    assert OrdersFor(first.db.orders, productId) == OrdersFor(db.orders, productId) + 1 by {
      assert first.db.orders[..|first.db.orders| - 1] == db.orders;
    }
  }
}

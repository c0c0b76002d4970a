/**
 * The backend as a mutable object: the three tables as fields, and the two
 * writes the bot performs, `ensureCustomer` and `createOrder`, as methods.
 * Each method is specified by the function of the same name on `Db`.
 */
module Storage {
  import opened Model
  import Registry
  import Orders

  class Store {
    var customers: map<int, Customer>
    var products: map<string, Product>
    var orders: seq<Order>
    var nextCustomerId: nat

    /** The tables as a value. */
    function State(): Db
      reads this
    {
      Db(customers, products, orders, nextCustomerId)
    }

    ghost predicate Valid()
      reads this
    {
      State().Valid()
    }

    /** A store holding the given products and no customers or orders. */
    constructor (catalog: map<string, Product>)
      requires forall k :: k in catalog ==> catalog[k].id == k
      ensures Valid()
      ensures State() == Db(map[], catalog, [], 0)
    {
      customers := map[];
      products := catalog;
      orders := [];
      nextCustomerId := 0;
    }

    /** `ensureCustomer`: look the Telegram id up and insert a row if there is none. */
    method EnsureCustomer(telegramId: int, username: Option<string>, insertFails: bool) returns (id: Option<nat>)
      requires Valid()
      modifies this`customers, this`nextCustomerId
      ensures Valid()
      ensures Registry.EnsureCustomer(old(State()), telegramId, username, insertFails) == Registry.Ensured(id, State())
    {
      if telegramId in customers {
        id := Some(customers[telegramId].id);
        return;
      }
      if insertFails {
        id := None;
        return;
      }
      var created := Customer(nextCustomerId, telegramId, username);
      customers := customers[telegramId := created];
      nextCustomerId := nextCustomerId + 1;
      id := Some(created.id);
    }

    /**
     * `createOrder`: read the product, refuse an unknown or sold-out one,
     * and append a pending order. Only `orders` may change.
     */
    method CreateOrder(customerId: nat, productId: string, readFails: bool, insertFails: bool)
      returns (result: Orders.OrderResult)
      requires Valid()
      modifies this`orders
      ensures Valid()
      ensures Orders.CreateOrder(old(State()), customerId, productId, readFails, insertFails) == Orders.Placed(result, State())
    {
      if readFails || productId !in products {
        return Orders.OrderResult(false, Orders.ProductNotFound);
      }
      var product := products[productId];
      if product.stock <= 0 {
        return Orders.OrderResult(false, Orders.OutOfStock);
      }
      if insertFails {
        return Orders.OrderResult(false, Orders.OrderFailed);
      }
      var id := |orders|;
      orders := orders + [Order(id, customerId, productId, product.price, Pending)];
      result := Orders.OrderResult(true, Orders.Confirmation(id));
    }
  }
}

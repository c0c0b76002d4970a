/**
 * The storefront's data: the `customers`, `products` and `orders` tables,
 * held in memory. Customers are keyed by their Telegram id, products by
 * their product id, and orders form an append-only sequence.
 */
module Model {

  datatype Option<+T> = None | Some(value: T)

  /** A row of `products`; the category label may be null. */
  datatype Product = Product(id: string, name: string, price: int, stock: int, category: Option<string>)

  /** A row of `customers`; `id` is the internal identifier the store assigns. */
  datatype Customer = Customer(id: nat, telegramId: int, username: Option<string>)

  /** Order status; this core only ever writes `Pending`. */
  datatype Status = Pending | Paid | Delivered | Rejected

  /** A row of `orders`; `amount` is the product price copied at creation. */
  datatype Order = Order(id: nat, customerId: nat, productId: string, amount: int, status: Status)

  /**
   * The whole store. Internal customer ids are handed out from
   * `nextCustomerId`; an order's id is its position in `orders`.
   */
  datatype Db = Db(
    customers: map<int, Customer>,
    products: map<string, Product>,
    orders: seq<Order>,
    nextCustomerId: nat)
  {
    /**
     * Each Telegram id has at most one customer row (the map key), rows are
     * filed under their own Telegram id, no two customers share an internal
     * id, products are filed under their own id, and order ids are positions.
     */
    ghost predicate Valid() {
      (forall t :: t in customers ==> customers[t].telegramId == t && customers[t].id < nextCustomerId)
      && (forall t, u :: t in customers && u in customers && t != u ==> customers[t].id != customers[u].id)
      && (forall k :: k in products ==> products[k].id == k)
      && (forall i :: 0 <= i < |orders| ==> orders[i].id == i)
    }
  }

  /**
   * `rows` is what a `select` over `products` returns: every product once,
   * in an order the backend chooses.
   */
  ghost predicate Lists(rows: seq<Product>, products: map<string, Product>) {
    (forall i :: 0 <= i < |rows| ==> rows[i].id in products && products[rows[i].id] == rows[i])
    && (forall i, j :: 0 <= i < j < |rows| ==> rows[i].id != rows[j].id)
    && (forall k :: k in products ==> exists i :: 0 <= i < |rows| && rows[i].id == k)
  }

  /** Lexicographic order of names by code point. */
  predicate NameLe(a: string, b: string) {
    |a| == 0 || (|b| > 0 && (a[0] < b[0] || (a[0] == b[0] && NameLe(a[1..], b[1..]))))
  }

  /** Rows as `.order("name", { ascending: true })` returns them. */
  ghost predicate SortedByName(rows: seq<Product>) {
    forall i, j :: 0 <= i < j < |rows| ==> NameLe(rows[i].name, rows[j].name)
  }
}

/**
 * The `/webhook` handler: the secret-token gate, extraction of the chat
 * event, dispatch to the commands, and the single reply each accepted event
 * sends. Outbound sends are collected in a log instead of calling Telegram;
 * what the backend answers (row order, failures) is given as `Backend`.
 */
module Webhook {
  import opened Model
  import opened Text
  import Catalog
  import Registry
  import Orders
  import Router
  import Storage

  /** The fields of `req.body.message` the handler reads; absent fields are `None`. */
  datatype Message = Message(chatId: Option<int>, fromId: Option<int>, username: Option<string>, text: Option<string>)

  /** The secret-token header and the message of an inbound call. */
  datatype Request = Request(secretToken: Option<string>, message: Option<Message>)

  /** An event that passed the ignore rule. */
  datatype Event = Event(chatId: int, telegramId: int, username: Option<string>, text: string)

  datatype Response = Response(status: int, body: string)

  /** One `sendMessage(chatId, text)`. */
  datatype Sent = Sent(chatId: int, text: string)

  /**
   * The backend's answers during one call: the rows of the two product
   * queries, and which reads and inserts fail.
   */
  datatype Backend = Backend(
    categoryRows: seq<Product>,
    catalogRows: seq<Product>,
    categoriesFail: bool,
    catalogFail: bool,
    customerInsertFails: bool,
    productReadFails: bool,
    orderInsertFails: bool)

  /** The HTTP response, the messages sent, and the store afterwards. */
  datatype Outcome = Outcome(response: Response, sent: seq<Sent>, db: Db)

  const Unauthorized := Response(401, "Unauthorized")
  const Ignored := Response(200, "ignored")
  const Acknowledged := Response(200, "ok")
  const Usage := "Gunakan: /order <product_id>"
  const CustomerFailed := "Gagal membuat profil pelanggan."
  const UnknownCommand := "Perintah tidak dikenali. Coba /katalog."

  /**
   * `isValidWebhook`: with no secret configured every call passes;
   * otherwise exactly the calls whose header equals the secret.
   */
  function IsValidWebhook(secret: string, header: Option<string>): (ok: bool)
    ensures secret == "" ==> ok
    ensures secret != "" ==> (ok <==> header == Some(secret))
  {
    secret == "" || header == Some(secret)
  }

  /** JavaScript truthiness of an optional number: present and not zero. */
  predicate Truthy(x: Option<int>)
    ensures Truthy(x) <==> x != None && x != Some(0)
  {
    x.Some? && x.value != 0
  }

  /**
   * The event the handler works on, or `None` when the chat id or the
   * sender id is missing or falsy; a missing text reads as `""`.
   */
  function ExtractEvent(m: Option<Message>): (e: Option<Event>)
    ensures e.Some? <==> m.Some? && Truthy(m.value.chatId) && Truthy(m.value.fromId)
    ensures e.Some? ==> e.value.chatId == m.value.chatId.value && e.value.telegramId == m.value.fromId.value
    ensures e.Some? ==> e.value.text == (if m.value.text.Some? then m.value.text.value else "")
    ensures e.Some? ==> e.value.username == m.value.username
  {
    match m
    case None => None
    case Some(msg) =>
      if !Truthy(msg.chatId) || !Truthy(msg.fromId) then None
      else
        var text := match msg.text case Some(t) => t case None => "";
        Some(Event(msg.chatId.value, msg.fromId.value, msg.username, text))
  }

  /** The backend's rows list the store's products, the catalog rows by name. */
  ghost predicate Agrees(be: Backend, db: Db) {
    Lists(be.categoryRows, db.products) && Lists(be.catalogRows, db.products) && SortedByName(be.catalogRows)
  }

  /** The reply text and the store after the command has run. */
  datatype Replied = Replied(text: string, db: Db)

  /**
   * The command part of the handler. `/start` answers with the category
   * list, `/katalog` with the catalog, `/order` without an argument with the
   * usage hint, and any other text with the unknown-command hint; none of
   * these writes to the store. `/order <id>` ensures the sender's customer
   * row, leaving every other customer as it was, and answers with the
   * failure message or with what `createOrder` reports.
   */
  function Reply(db: Db, ev: Event, be: Backend): (r: Replied)
    requires db.Valid() && Agrees(be, db)
    ensures r.db.Valid() && r.db.products == db.products
    ensures !(Router.Parse(ev.text).PlaceOrder? && Router.Parse(ev.text).productId.Some?) ==> r.db == db
    ensures |db.orders| <= |r.db.orders| <= |db.orders| + 1 && r.db.orders[..|db.orders|] == db.orders
    ensures Router.Parse(ev.text).Start? ==>
      r.text == Catalog.StartReply(Catalog.GetCategories(db.products, be.categoryRows, be.categoriesFail))
    ensures Router.Parse(ev.text).ShowCatalog? ==>
      r.text == Catalog.CatalogReply(Catalog.GetCatalog(db.products, be.catalogRows, be.catalogFail))
    ensures Router.Parse(ev.text) == Router.PlaceOrder(None) ==> r.text == Usage
    ensures Router.Parse(ev.text).Unrecognized? ==> r.text == UnknownCommand
    ensures Router.Parse(ev.text).PlaceOrder? && Router.Parse(ev.text).productId.Some? ==>
      && (forall t :: t in db.customers ==> t in r.db.customers && r.db.customers[t] == db.customers[t])
      && r.db.customers.Keys <= db.customers.Keys + {ev.telegramId}
      && var ensured := Registry.EnsureCustomer(db, ev.telegramId, ev.username, be.customerInsertFails);
         if ensured.id.None? then r == Replied(CustomerFailed, db)
         else
           var placed := Orders.CreateOrder(ensured.db, ensured.id.value, Router.Parse(ev.text).productId.value,
                                             be.productReadFails, be.orderInsertFails);
           r == Replied(placed.result.message, placed.db)
  {
    match Router.Parse(ev.text)
    case Start =>
      Replied(Catalog.StartReply(Catalog.GetCategories(db.products, be.categoryRows, be.categoriesFail)), db)
    case ShowCatalog =>
      Replied(Catalog.CatalogReply(Catalog.GetCatalog(db.products, be.catalogRows, be.catalogFail)), db)
    case PlaceOrder(None) =>
      Replied(Usage, db)
    case PlaceOrder(Some(productId)) =>
      OrderReply(db, ev, productId, be)
    case Unrecognized =>
      Replied(UnknownCommand, db)
  }

  /**
   * `/order <id>`: the sender is registered first; without a customer id the
   * reply is the failure notice, otherwise it is `createOrder`'s message.
   * Existing customers and products are kept, and at most one order is appended.
   */
  function OrderReply(db: Db, ev: Event, productId: string, be: Backend): (r: Replied)
    requires db.Valid()
    ensures r.db.Valid() && r.db.products == db.products
    ensures |db.orders| <= |r.db.orders| <= |db.orders| + 1 && r.db.orders[..|db.orders|] == db.orders
    ensures forall t :: t in db.customers ==> t in r.db.customers && r.db.customers[t] == db.customers[t]
    ensures r.db.customers.Keys <= db.customers.Keys + {ev.telegramId}
    ensures var ensured := Registry.EnsureCustomer(db, ev.telegramId, ev.username, be.customerInsertFails);
      if ensured.id.None? then r == Replied(CustomerFailed, db)
      else
        var placed := Orders.CreateOrder(ensured.db, ensured.id.value, productId, be.productReadFails, be.orderInsertFails);
        r == Replied(placed.result.message, placed.db)
  {
    var ensured := Registry.EnsureCustomer(db, ev.telegramId, ev.username, be.customerInsertFails);
    if ensured.id.None? then Replied(CustomerFailed, ensured.db)
    else
      var placed := Orders.CreateOrder(ensured.db, ensured.id.value, productId, be.productReadFails, be.orderInsertFails);
      assert placed.db.orders[..|db.orders|] == db.orders;
      Replied(placed.result.message, placed.db)
  }

  /**
   * The `/webhook` handler: a call that fails the gate gets 401 and does
   * nothing; an event without chat or sender id gets "ignored" and sends
   * nothing; every other event sends exactly one reply to its chat and gets
   * "ok". Product rows, stock included, are never written.
   */
  function Handle(db: Db, secret: string, req: Request, be: Backend): (r: Outcome)
    requires db.Valid() && Agrees(be, db)
    ensures r.db.Valid()
    ensures !IsValidWebhook(secret, req.secretToken) ==> r == Outcome(Unauthorized, [], db)
    ensures IsValidWebhook(secret, req.secretToken) && ExtractEvent(req.message).None? ==> r == Outcome(Ignored, [], db)
    ensures IsValidWebhook(secret, req.secretToken) && ExtractEvent(req.message).Some? ==>
      r.response == Acknowledged && |r.sent| == 1 && r.sent[0].chatId == ExtractEvent(req.message).value.chatId
    ensures IsValidWebhook(secret, req.secretToken) && ExtractEvent(req.message).Some? ==>
      var replied := Reply(db, ExtractEvent(req.message).value, be);
      r.sent == [Sent(ExtractEvent(req.message).value.chatId, replied.text)] && r.db == replied.db
    ensures r.db.products == db.products
    ensures |db.orders| <= |r.db.orders| <= |db.orders| + 1 && r.db.orders[..|db.orders|] == db.orders
  {
    if !IsValidWebhook(secret, req.secretToken) then Outcome(Unauthorized, [], db)
    else
      match ExtractEvent(req.message)
      case None => Outcome(Ignored, [], db)
      case Some(ev) =>
        var replied := Reply(db, ev, be);
        Outcome(Acknowledged, [Sent(ev.chatId, replied.text)], replied.db)
  }

  /** The handler run against a store object, step by step. */
  method HandleWebhook(store: Storage.Store, secret: string, req: Request, be: Backend)
    returns (response: Response, sent: seq<Sent>)
    requires store.Valid() && Agrees(be, store.State())
    modifies store
    ensures store.Valid()
    ensures Handle(old(store.State()), secret, req, be) == Outcome(response, sent, store.State())
  {
    sent := [];
    if !IsValidWebhook(secret, req.secretToken) {
      response := Unauthorized;
      return;
    }
    var event := ExtractEvent(req.message);
    if event.None? {
      response := Ignored;
      return;
    }
    var ev := event.value;
    var text: string;
    match Router.Parse(ev.text) {
      case Start =>
        var categories := Catalog.GetCategories(store.products, be.categoryRows, be.categoriesFail);
        text := Catalog.StartReply(categories);
      case ShowCatalog =>
        var catalog := Catalog.GetCatalog(store.products, be.catalogRows, be.catalogFail);
        text := Catalog.CatalogReply(catalog);
      case PlaceOrder(None) =>
        text := Usage;
      case PlaceOrder(Some(productId)) =>
        var customerId := store.EnsureCustomer(ev.telegramId, ev.username, be.customerInsertFails);
        if customerId.None? {
          text := CustomerFailed;
        } else {
          var result := store.CreateOrder(customerId.value, productId, be.productReadFails, be.orderInsertFails);
          text := result.message;
        }
      case Unrecognized =>
        text := UnknownCommand;
    }
    sent := sent + [Sent(ev.chatId, text)];
    response := Acknowledged;
  }

  /**
   * `/order` without a usable argument only answers with the usage hint:
   * no customer is looked up or created and no order is attempted.
   */
  lemma OrderWithoutArgument(db: Db, secret: string, req: Request, be: Backend)
    requires db.Valid() && Agrees(be, db)
    requires IsValidWebhook(secret, req.secretToken) && ExtractEvent(req.message).Some?
    requires StartsWith(ExtractEvent(req.message).value.text, "/order")
    requires Router.OrderArgument(ExtractEvent(req.message).value.text).None?
    ensures Handle(db, secret, req, be) == Outcome(Acknowledged, [Sent(ExtractEvent(req.message).value.chatId, Usage)], db)
  {
    var ev := ExtractEvent(req.message).value;
    assert Router.Parse(ev.text) == Router.PlaceOrder(None);
  }

  /** When the customer row cannot be created, no order is attempted and the store is unchanged. */
  lemma NoOrderWithoutCustomer(db: Db, secret: string, req: Request, be: Backend)
    requires db.Valid() && Agrees(be, db)
    requires IsValidWebhook(secret, req.secretToken) && ExtractEvent(req.message).Some?
    requires Router.Parse(ExtractEvent(req.message).value.text).PlaceOrder?
    requires Router.Parse(ExtractEvent(req.message).value.text).productId.Some?
    requires ExtractEvent(req.message).value.telegramId !in db.customers && be.customerInsertFails
    ensures Handle(db, secret, req, be) == Outcome(Acknowledged, [Sent(ExtractEvent(req.message).value.chatId, CustomerFailed)], db)
  {
  }

  /**
   * `/order <id>` for a product in stock, with no backend failure, appends
   * one pending order for the sender's customer id at the product's price,
   * and confirms it with a message naming the new order.
   */
  lemma OrderPlaced(db: Db, secret: string, req: Request, be: Backend)
    requires db.Valid() && Agrees(be, db)
    requires IsValidWebhook(secret, req.secretToken) && ExtractEvent(req.message).Some?
    requires StartsWith(ExtractEvent(req.message).value.text, "/order")
    requires Router.OrderArgument(ExtractEvent(req.message).value.text).Some?
    requires var productId := Router.OrderArgument(ExtractEvent(req.message).value.text).value;
             productId in db.products && db.products[productId].stock > 0
    requires !be.customerInsertFails && !be.productReadFails && !be.orderInsertFails
    ensures var ev := ExtractEvent(req.message).value;
            var productId := Router.OrderArgument(ev.text).value;
            var customerId := if ev.telegramId in db.customers then db.customers[ev.telegramId].id else db.nextCustomerId;
            var r := Handle(db, secret, req, be);
            && r.db.orders == db.orders + [Order(|db.orders|, customerId, productId, db.products[productId].price, Pending)]
            && r.sent == [Sent(ev.chatId, Orders.Confirmation(|db.orders|))]
            && r.db.products == db.products
            && ev.telegramId in r.db.customers && r.db.customers[ev.telegramId].id == customerId
            && r.db.nextCustomerId == (if ev.telegramId in db.customers then db.nextCustomerId else db.nextCustomerId + 1)
  {
    var ev := ExtractEvent(req.message).value;
    assert Router.Parse(ev.text) == Router.PlaceOrder(Router.OrderArgument(ev.text));
  }

  /**
   * `/order <id>` for an unknown product is refused and appends no order;
   * as written, the sender's customer row has already been created.
   */
  lemma OrderForUnknownProduct(db: Db, secret: string, req: Request, be: Backend)
    requires db.Valid() && Agrees(be, db)
    requires IsValidWebhook(secret, req.secretToken) && ExtractEvent(req.message).Some?
    requires StartsWith(ExtractEvent(req.message).value.text, "/order")
    requires Router.OrderArgument(ExtractEvent(req.message).value.text).Some?
    requires Router.OrderArgument(ExtractEvent(req.message).value.text).value !in db.products
    requires !be.customerInsertFails
    ensures var ev := ExtractEvent(req.message).value;
            var r := Handle(db, secret, req, be);
            && r.db.orders == db.orders
            && r.sent == [Sent(ev.chatId, Orders.ProductNotFound)]
            && ev.telegramId in r.db.customers
  {
    var ev := ExtractEvent(req.message).value;
    assert Router.Parse(ev.text) == Router.PlaceOrder(Router.OrderArgument(ev.text));
  }

  /** A request in permissive mode from user `from` in the chat of the same id. */
  function ChatRequest(from: int, text: string): Request {
    Request(None, Some(Message(Some(from), Some(from), None, Some(text))))
  }

  const Spotify := Product("p1", "Spotify", 59000, 1, None)
  const SpotifyBackend := Backend([Spotify], [Spotify], false, false, false, false, false)

  /** The one-product Spotify store agrees with its backend. */
  lemma SpotifySetup(db: Db)
    requires db == Db(map[], map["p1" := Spotify], [], 0)
    ensures db.Valid() && Agrees(SpotifyBackend, db)
  {
    assert [Spotify][0].id == "p1";
  }

  /**
   * One `/order p1` from a new user on the example store confirms a 59000 order.
   * The command arrives as the parameter `text`, fixed to the literal by `requires`,
   * so that the verifier does not unroll `Split` on a literal string.
   */
  lemma SpotifyOrder(db: Db, from: int, text: string)
    requires db.Valid() && db.products == map["p1" := Spotify] && Agrees(SpotifyBackend, db)
    requires text == "/order p1" && from != 0 && from !in db.customers
    ensures var r := Handle(db, "", ChatRequest(from, text), SpotifyBackend);
            && r.db.orders == db.orders + [Order(|db.orders|, db.nextCustomerId, "p1", 59000, Pending)]
            && r.db.products == db.products
            && r.sent == [Sent(from, Orders.Confirmation(|db.orders|))]
            && r.db.nextCustomerId == db.nextCustomerId + 1
  {
    var req := ChatRequest(from, text);
    assert ExtractEvent(req.message) == Some(Event(from, from, None, text));
    Router.ArgumentExample();
    assert StartsWith(text, "/order");
    OrderPlaced(db, "", req, SpotifyBackend);
  }

  /**
   * The one-product Spotify example, as the code behaves: with one Spotify
   * product at 59000 and stock 1, `/order p1` from user 555 creates a
   * pending order of 59000, the stock stays at 1, and a second `/order p1`
   * from user 556 succeeds as well. The command is the parameter `text`, fixed
   * by `requires`, so that the verifier does not unroll `Split` on a literal string.
   */
  lemma SpotifyExample(db: Db, text: string)
    requires db == Db(map[], map["p1" := Spotify], [], 0)
    requires text == "/order p1"
    ensures db.Valid() && Agrees(SpotifyBackend, db)
    ensures var first := Handle(db, "", ChatRequest(555, text), SpotifyBackend);
            && first.db.orders == [Order(0, 0, "p1", 59000, Pending)]
            && first.db.products["p1"].stock == 1
            && Agrees(SpotifyBackend, first.db)
            && var second := Handle(first.db, "", ChatRequest(556, text), SpotifyBackend);
               && second.sent == [Sent(556, Orders.Confirmation(1))]
               && second.db.orders == [Order(0, 0, "p1", 59000, Pending), Order(1, 1, "p1", 59000, Pending)]
  {
    SpotifySetup(db);
    SpotifyOrder(db, 555, text);
    var first := Handle(db, "", ChatRequest(555, text), SpotifyBackend);
    assert 556 !in first.db.customers;
    SpotifyOrder(first.db, 556, text);
  }
}
